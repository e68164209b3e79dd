# Sudoku engine model

A Dafny model of the `Sudoku` class behind a generalised Sudoku game: a
grid of `sr * sc * nsv * nsh` cells. Each cell (a "node") holds the set of
values from `1..S` (`S = sr * sc`) that are still possible there. The
class also keeps the set of given cells, the set of cells blamed as bad
and a cached solution count (`-1` for unknown).

The model covers:

- the three constructors: from a signed board, from an existing grid, and blank;
- the row, column and sub-grid views;
- `GroupCheck`, which erases naked singles and fixes hidden singles in one group;
- the sweep loop and the backtracking step `RandomCheck`;
- `Solve_private`, `Solve` and the cached counter `nSolutions`;
- conflict blaming, in `findBadNodes` and its recursive rounds;
- the puzzle generator, `generateGrid` with its recursive reducer.

Dimensions are restricted to the square case the program uses: `nsv == sc`
and `nsh == sr`, so rows, columns and blocks all have `S` cells.

The class `Engine.Sudoku` keeps the source's state as fields:

- `grid` is a `seq<set<int>>`;
- `given` and `bad` are `set<int>`;
- `nsolutions` is an `int`.

Its methods are imperative, with loops and invariants, like the original.
Each is proved against a reference definition:

- `Candidates.Sols(d, g)` is the set of complete solutions (boards of `1..S`, no repeat in any row, column or block) whose every value is still a candidate of `g`.
- `Propagation.CheckGroup` and `Propagation.Sweep` define one group check and one sweep of all groups as functions. Lemmas prove that these keep `Sols` and only ever shrink cells.
- `Conflicts.ConflictCount` defines the conflict count of a cell; `Conflicts.ConflictFree` says a board has no two equal nonzero entries in any group.
- `Latin.LatinBoard` is a concrete solution of the blank grid. It shows that the blank grid is solvable, which the generator relies on.

Randomness (`rand()`) becomes a nondeterministic choice: `var j :| …` for
the position the generator resets, and `var coin: bool :| true` for the
tie-break in `RandomCheck`. Every property is proved for all choices.

The modules follow the program's structure:

- `Geometry`: dimensions and cell indices of the groups;
- `Candidates`: cells, refinement and solutions;
- `Nodes`: building a grid from a board;
- `Latin`: a solution of the blank grid;
- `Propagation`: `GroupCheck` and the sweep, as functions;
- `Conflicts`: conflict counting and the blame rule;
- `Engine`: the class.

## Model

| member | source | states |
|---|---|---|
| Engine.Sudoku.constructor | sudoku.cpp:25-66 | Cell i is all of 1..S for entry 0, else the single value \|entry\|. Cell i is given exactly when its entry is negative. The count is unknown (-1) and nothing is bad. |
| Engine.Sudoku.WithGrid | sudoku.cpp:68-82 | The grid is the one passed in, the count is unknown, and given and bad are empty. The object is valid whenever that grid is well formed. |
| Engine.Sudoku.Blank | sudoku.cpp:84-110 | N cells, each holding every value 1..S; the count is unknown. |
| Nodes.BuildGrid | sudoku.cpp:44-65 | The grid built from a board has one cell per entry, each the entry's cell and a subset of 1..S. The given set is exactly the cells with a negative entry. |
| Nodes.EntryNode | sudoku.cpp:46-63 | Entry 0 gives the full cell. Any other entry gives the one-value cell holding its absolute value. |
| Nodes.EmptyNode | sudoku.cpp:38-42 | The node built from the numbers 1..S holds exactly 1..S. |
| Nodes.CellsAt | sudoku.cpp:44-65 | After i steps the built grid has i cells, each the cell of its own entry. |
| Nodes.GivensAt | sudoku.cpp:54-58 | After i steps, p is given exactly when p < i and entry p is negative. |
| Engine.Sudoku.Row | sudoku.cpp:257-265 | Row n lists S distinct cells: exactly the cells whose row index is n. |
| Engine.Sudoku.Column | sudoku.cpp:267-275 | Column n lists S distinct cells: exactly the cells whose column index is n. |
| Engine.Sudoku.SubGrid | sudoku.cpp:277-289 | Block n lists S distinct cells: exactly the cells whose block number is n. |
| Engine.GroupViews | sudoku.cpp:257-289 | Each of the three views has S distinct cells. A cell lies in group n of a kind exactly when that kind's group number for it is n. |
| Geometry.BlockMember | sudoku.cpp:280-286 | Every cell that sub-grid n lists has block number n. |
| Geometry.BlockWitness | sudoku.cpp:280-286 | Every cell with block number n is listed by sub-grid n. |
| Engine.Sudoku.GroupCheck | sudoku.cpp:304-360 | The new grid is the reference group check of group n of kind rcs. For rcs outside 0..2 the grid is unchanged. The grid stays well formed. |
| Engine.Sudoku.NakedPass | sudoku.cpp:326-338 | The first loop erases each naked single's value from the other cells of the group, in group order. |
| Engine.Sudoku.EraseFrom | sudoku.cpp:330-336 | The inner loop removes x from every group cell except cell i. |
| Engine.Sudoku.HiddenPass | sudoku.cpp:340-358 | The second loop fixes each value 1..S in turn when exactly one cell of the group can hold it. |
| Engine.Sudoku.Holding | sudoku.cpp:343-351 | c is the number of group cells holding v, and k is the last of them. c == 1 exactly when k is the only holder. |
| Propagation.NakedStepRule | sudoku.cpp:328-336 | A naked single removes its value from the other cells of its group and changes nothing else. Without a naked single the step is a no-op. |
| Propagation.HiddenStepRule | sudoku.cpp:353-357 | A value held by exactly one cell of the group fixes that cell to the value. Otherwise nothing changes. |
| Propagation.OnlyHolderCount | sudoku.cpp:343-353 | The count of holders is 1 exactly when the last holder is the only one. |
| Propagation.GroupCheckSound | sudoku.cpp:304-360 | A group check shrinks cells only inside its own group and keeps every solution. |
| Propagation.GroupCheckRefines | sudoku.cpp:304-360 | A group check never adds a candidate. |
| Propagation.GroupCheckSols | sudoku.cpp:304-360 | A group check keeps exactly the same solutions. |
| Propagation.GroupCheckFixpoint | sudoku.cpp:326-338 | A group the check leaves unchanged has no fixed cell sharing its value with another cell of the group. |
| Engine.Sudoku.SweepGroups | sudoku.cpp:447-450 | One sweep applies GroupCheck to every row, then every column, then every block; the result is the reference sweep. |
| Engine.Sudoku.PassGroups | sudoku.cpp:448-450 | The inner loop over one kind yields the reference pass over that kind's groups. |
| Propagation.SweepSound | sudoku.cpp:443-457 | A sweep never adds a candidate and keeps exactly the same solutions. |
| Propagation.SweepFixpoint | sudoku.cpp:452-456 | A grid the sweep leaves unchanged is stable: no row, column or block has a fixed cell whose value is also in another cell. |
| Propagation.SweepProgress | sudoku.cpp:443-457 | A sweep never grows the candidate total. When it changes the grid it strictly shrinks it, so the loop ends. |
| Propagation.StableSolved | sudoku.cpp:379-407 | A stable grid in which every cell is fixed is a solution. |
| Propagation.Propagated | sudoku.cpp:443-457 | Sweeping until a sweep changes nothing ends on a grid that the next sweep leaves as it is. |
| Propagation.PropagatedSound | sudoku.cpp:443-457 | The propagation fixpoint never adds a candidate, keeps exactly the same solutions and is stable. |
| Engine.Sudoku.ChooseNode | sudoku.cpp:364-377 | k == -1 exactly when every cell is fixed. Otherwise k is an unfixed cell with the fewest candidates, whatever the random tie-breaks choose. |
| Engine.Sudoku.RandomCheck | sudoku.cpp:362-408 | Counting mode adds the exact number of solutions and restores the grid. Solving mode adds 1 when a solution exists, leaving a solved grid refining the old one; otherwise it adds 0 and leaves the grid as it was. |
| Engine.Sudoku.TryCandidates | sudoku.cpp:379-403 | Trying every candidate of cell k in turn: counts all solutions, or ends on the first solution found. Without one the grid is restored. |
| Engine.Sudoku.TryRound | sudoku.cpp:384-401 | One trial adds the solutions with cell k set to the i-th candidate, or stops on a solution in solving mode. |
| Engine.Sudoku.TryValue | sudoku.cpp:386-399 | The trial copy solves the grid with cell k fixed to v. In counting mode its solution count is added. In solving mode the result is true exactly when that grid has a solution, and the solved grid is copied back. |
| Engine.SplitSolsCount | sudoku.cpp:384-401 | The solutions with cell k restricted to its first i candidates are the sum over those candidates of the solutions with k fixed to each. |
| Candidates.SplitCell | sudoku.cpp:384-401 | The solutions of a grid split by the value of one cell. |
| Engine.Sudoku.SolvePrivate | sudoku.cpp:437-458 | A cached count of 0 returns false and changes nothing. Otherwise the result is true exactly when the new count is positive. Counting mode sets the count to the number of solutions and keeps them. Solving mode sets it to 1 or 0 and, on success, leaves a solved grid refining the old one. When counting or when no solution exists, the grid is left at the propagation fixpoint of the old grid. |
| Engine.Sudoku.Solve | sudoku.cpp:411-424 | Solvable exactly when the count was not known to be 0 and a solution exists. Then the grid is a solution refining the old grid and bad is unchanged. Otherwise every cell that was fixed on entry is added to bad. The grid is then untouched if the cached count was 0, and otherwise is the propagation fixpoint of the old grid. |
| Engine.Sudoku.NSolutions | sudoku.cpp:426-435 | An unknown (-1) count is replaced by the exact number of solutions; a known count is returned as it is. The grid is unchanged. |
| Engine.Sudoku.FindBadNodes | sudoku.cpp:112-127 | The board read from the grid (fixed value or 0) is blamed round by round, each round by the blame rule against its own conflict counts (BlameChain). bad grows by exactly the blamed cells, all of them filled. With them emptied the board is conflict-free. Nothing is blamed exactly when the board already was conflict-free; otherwise the count becomes 0. |
| Engine.ReadBoard | sudoku.cpp:114-125 | Entry i is the value of a fixed cell and 0 for any other cell. |
| Engine.Sudoku.FindBadNodesPrivate | sudoku.cpp:129-250 | The rounds form a BlameChain: while the board has a conflict, a round measures every cell's real conflict count and blames, per value, at most one filled cell, the one with the largest positive count, non-given when a non-given cell ties it, with one for every value held by a conflicting cell; the next round runs on the board without them, and the last board is conflict-free. The blamed cells are the union of the rounds and are added to bad. Nothing is blamed exactly when the board had no conflict. The count becomes 0 once something was blamed. |
| Engine.Sudoku.BlameStep | sudoku.cpp:131-242 | One round returns the counts it measured, and each count is the cell's real conflict count (CountOk). The round empties the blamed cells on the new board and adds them to bad. Measured by those counts, each blamed cell has the most conflicts among the cells holding its entry. It is not given when a tied cell is not given. Every entry held by a conflicting cell has exactly one blamed cell. The round blames something exactly when the board has a conflict. Together these are RoundOk. |
| Engine.Sudoku.BlameRound | sudoku.cpp:212-242 | At most one cell per value is blamed, and only a cell the blame rule allows. Every value held by a conflicting cell gets one. The flag means something was blamed. |
| Conflicts.PickBlame | sudoku.cpp:216-234 | No cell is picked exactly when every cell holding v has count 0. Otherwise the pick holds v, has the largest positive count, and is not given whenever a tied non-given cell exists. |
| Conflicts.BlamedFacts | sudoku.cpp:212-242 | From one pick per value: the picked cells are filled, obey the rule, are unique per value and cover every conflicting value. Nothing is picked exactly when no filled cell has a conflict. |
| Conflicts.CountConflicts | sudoku.cpp:131-210 | Each cell's count is its reference conflict count: the cells in its column, row and block with the same nonzero entry. |
| Conflicts.AddKind | sudoku.cpp:144-210 | The loops over one kind of group add each cell's conflicts within its group of that kind. |
| Conflicts.AddRound | sudoku.cpp:151-159 | The inner pair loop `for (k = j+1; ...)` of round j (likewise at sudoku.cpp:170-178 and 198-207): cell j's count grows by the number of later group cells sharing its nonzero entry, each such later cell's count grows by 1, and every other cell keeps its count. |
| Conflicts.AddGroupPairs | sudoku.cpp:149-160 | The pair loop over one group adds, for each group cell, the number of other group cells with its nonzero entry. Cells outside the group keep their counts. |
| Conflicts.ConflictFreeIffFilledZero | sudoku.cpp:212-245 | A board is conflict-free exactly when every filled cell has conflict count 0, i.e. when a round blames nothing. |
| Conflicts.CountsZeroIffFree | sudoku.cpp:212-245 | Given the real conflict counts, every count is nonnegative, and the board is conflict-free exactly when every filled cell counts 0. |
| Conflicts.ZeroedShrinks | sudoku.cpp:236-247 | Emptying a nonempty set of filled cells strictly reduces the filled cells, so the recursion ends. |
| Conflicts.ChainCons | sudoku.cpp:245-249 | A round on a conflicting board followed by the rounds on the board without its blamed cells is the chain of rounds of the whole recursion, and its blamed cells are the round's plus the later ones. |
| Conflicts.ColumnPairBlame | sudoku.cpp:212-249 | With two cells of one column holding the same value and no other filled cell, the rounds blame exactly one of the two, in a single round. |
| Engine.BlameMerge | sudoku.cpp:245-249 | Cells blamed in this round and in later rounds are together filled cells of the original board, and emptying them all leaves it conflict-free. |
| Engine.SolvedConflictFree | sudoku.cpp:112-127 | The board of a solved grid has no conflict. |
| Engine.Sudoku.GenerateReduce | sudoku.cpp:461-496 | On failure the grid is as on entry. On success exactly level distinct positions from the list were reset to the empty node, in order. Every prefix of those resets leaves exactly one solution. |
| Engine.Sudoku.TryReset | sudoku.cpp:477-494 | Reset position i and count. A count of 1 recurses on the rest; success prepends i to the recursion's resets. Otherwise cell i is restored. |
| Engine.Erase | sudoku.cpp:478 | Erasing index j keeps the other positions in order, so a list without repeats keeps none and loses ps[j]. |
| Engine.ClearedCells | sudoku.cpp:480-494 | After the resets a cell is the empty node when its position was reset, and unchanged otherwise. |
| Engine.ResetKept | sudoku.cpp:487-492 | Prepending the reset of i to a successful recursion keeps the resets distinct and keeps a unique solution after every prefix. |
| Engine.Sudoku.GenerateGrid | sudoku.cpp:498-515 | The seed is a solved grid refining the blank one. The puzzle is the seed with exactly level distinct positions reset to all of 1..S, each prefix still uniquely solvable, or the seed itself when the reducer fails. Level 0 always succeeds. After a success the cached count is 1 for level > 0; for level 0 the old cached count is kept. |
| Latin.BlankSolvable | sudoku.cpp:500-501 | The blank grid has a solution, so `sud.Solve()` on it always succeeds. |
| Latin.LatinSolution | sudoku.cpp:500-501 | The shifted pattern fills every row, column and block with distinct values from 1..S. |
| Candidates.SolsRefines | sudoku.cpp:386-397 | A grid that refines another has no more solutions. |
| Candidates.EmptyCellNoSols | sudoku.cpp:437-456 | A grid with an empty cell has no solution. |

## Left out

- The GUI and file handling in mainwindow.cpp are outside this model.
- Object lifetime is not modelled. The `numbers` arrays the constructors and `generateGrid` allocate are never freed in the source; the model has no heap memory to leak.
- The distribution of `rand()` is not modelled. The random choices are nondeterministic, and every property holds for every choice.
- The `static int L[3] = {R, C, S}` in `Solve_private` is set only once per process, so objects of different sizes would share the first object's sizes. The model is one game size at a time and uses this object's R, C and S.
- Running time and the exponential backtracking cost are not modelled.
- `int` widths are not modelled. `N`, `S` and the solution count are unbounded integers in the model. In the source, `nsolutions += trial.nsolutions` (sudoku.cpp:393) can overflow a C++ `int` when counting the solutions of a sparse board; the model never shows that wrap-around.
- Non-square dimensions are excluded by the precondition `d.Ok()` (`nsv == sc`, `nsh == sr`). With positive dimensions this is exactly the case R == C == S, in which every row and column holds S cells and a solution puts each of 1..S once in every row, column and block.
- The accessors `failed`, `GetNode` and `badNodes` only read a field and are not modelled as members.
- Engine.Sudoku.constructor: requires board entries in `-S..S`. With a larger entry the source builds a cell holding a value outside `1..S`, which the model's cells exclude.
- Engine.Sudoku.GenerateReduce: the cached count after a failed reduction is left unconstrained, and only the grid is promised to be as on entry; the source leaves the count of the last attempt there.
- Engine.Sudoku.GenerateGrid: likewise, the cached count after a failed reduction is left unconstrained.
- Engine.Sudoku.GenerateGrid: requires level >= 0. With a negative level the source never reaches its `level == 0` stop: it recurses until the positions run out and then computes `rand() % 0`.
- Engine.Sudoku.BlameRound: the blamed cells are returned as a set and threaded into `bad` value by value. Their order of insertion and `bad`'s iteration order are not modelled.
