/** The `Sudoku` class of sudoku.cpp: a grid of candidate sets with the
    given and bad cell sets and the cached solution count, its three
    constructors, the group views, constraint propagation, the
    backtracking solver and counter, conflict blaming and the puzzle
    generator. */
module Engine {
  import opened Geometry
  import opened Candidates
  import opened Propagation
  import opened Conflicts
  import opened Latin
  import opened Nodes

  class Sudoku {
    /** sr, sc, nsv, nsh; S, R, C and N are derived from them. */
    const d: Dims
    var grid: Grid
    var bad: set<int>
    var given: set<int>
    /** -1 when unknown, else the last count of solutions. */
    var nsolutions: int

    /** Square dimensions and N cells, each holding candidates from 1..S. */
    predicate Valid()
      reads this
    {
      d.Ok() && WellFormed(d, grid)
    }

    // ------------------------------------------------------------ constructors

    /** Sudoku(dim1, dim2, dim3, dim4, board[]) (sudoku.cpp:25-66): an entry 0
        is an empty cell, an entry x != 0 fixes the value |x|, and a negative
        entry also marks the cell as given. */
    constructor (dims: Dims, board: seq<int>)
      requires dims.Ok() && |board| == dims.N()
      requires forall i :: 0 <= i < |board| ==> board[i] <= dims.S() && -board[i] <= dims.S()
      ensures Valid() && d == dims && |grid| == |board|
      ensures forall i :: 0 <= i < |board| ==> grid[i] == EntryCell(board[i], d.S())
      ensures forall i :: 0 <= i < |board| ==> (i in given <==> board[i] < 0)
      ensures forall i :: i in given ==> 0 <= i < |board|
      ensures bad == {} && nsolutions == -1
    {
      var g, gv := BuildGrid(board, dims.S());
      d := dims;
      grid := g;
      given := gv;
      bad := {};
      nsolutions := -1;
    }

    /** Sudoku(dim1, dim2, dim3, dim4) (sudoku.cpp:84-110): the empty board,
        every cell holding every value. */
    constructor Blank(dims: Dims)
      requires dims.Ok()
      ensures Valid() && d == dims && |grid| == d.N()
      ensures forall i :: 0 <= i < |grid| ==> grid[i] == Full(d.S())
      ensures given == {} && bad == {} && nsolutions == -1
    {
      var empty := EmptyNode(dims.S());
      var g: Grid := [];
      var i := 0;
      while i < dims.N()
        invariant 0 <= i <= dims.N() && |g| == i
        invariant forall p :: 0 <= p < i ==> g[p] == Full(dims.S())
      {
        g := g + [empty];
        i := i + 1;
      }
      d := dims;
      grid := g;
      given := {};
      bad := {};
      nsolutions := -1;
    }

    /** The private Sudoku(dim1, dim2, dim3, dim4, Grid) (sudoku.cpp:68-82):
        a copy of a grid, nothing given or bad, count unknown. */
    constructor WithGrid(dims: Dims, g: Grid)
      requires dims.Ok()
      ensures d == dims && grid == g
      ensures given == {} && bad == {} && nsolutions == -1
      ensures WellFormed(dims, g) ==> Valid()
    {
      d := dims;
      grid := g;
      given := {};
      bad := {};
      nsolutions := -1;
    }

    // ------------------------------------------------------------ group views

    /** Row(n) (sudoku.cpp:257-265): the C cells of grid row n, left to right. */
    method Row(n: int) returns (row: seq<int>)
      requires d.Ok() && 0 <= n < d.R()
      ensures row == Group(d, 0, n)
      ensures |row| == d.S() && Distinct(row)
      ensures forall p :: 0 <= p < d.N() ==> (p in row <==> p / d.C() == n)
    {
      row := [];
      var i := 0;
      while i < d.C()
        invariant 0 <= i <= d.C() && row == RowIndices(d, n)[..i]
      {
        row := row + [n * d.C() + i];
        i := i + 1;
      }
      GroupViews(d, 0, n);
    }

    /** Column(n) (sudoku.cpp:267-275): the R cells of grid column n, top to
        bottom. */
    method Column(n: int) returns (col: seq<int>)
      requires d.Ok() && 0 <= n < d.C()
      ensures col == Group(d, 1, n)
      ensures |col| == d.S() && Distinct(col)
      ensures forall p :: 0 <= p < d.N() ==> (p in col <==> p % d.C() == n)
    {
      col := [];
      var i := 0;
      while i < d.R()
        invariant 0 <= i <= d.R() && col == ColumnIndices(d, n)[..i]
      {
        col := col + [i * d.C() + n];
        i := i + 1;
      }
      GroupViews(d, 1, n);
    }

    /** SubGrid(n) (sudoku.cpp:277-289): the S cells of block n, row by row;
        the block's top-left cell is at row (n / NSH) * SR, column
        (n % NSH) * SC. */
    method SubGrid(n: int) returns (sub: seq<int>)
      requires d.Ok() && 0 <= n < d.S()
      ensures sub == Group(d, 2, n)
      ensures |sub| == d.S() && Distinct(sub)
      ensures forall p :: 0 <= p < d.N() ==> (p in sub <==> BlockOf(d, p / d.C(), p % d.C()) == n)
    {
      sub := [];
      var a := ((n - n % d.nsh) / d.nsh) * d.sr;
      var b := (n % d.nsh) * d.sc;
      RoundDown(n, d.nsh);
      var i := 0;
      while i < d.S()
        invariant 0 <= i <= d.S() && sub == BlockIndices(d, n)[..i]
      {
        RoundDown(i, d.sc);
        var row := a + (i - i % d.sc) / d.sc;
        var col := b + i % d.sc;
        BlockEntry(d, n, i, row, col);
        sub := sub + [row * d.C() + col];
        i := i + 1;
      }
      GroupViews(d, 2, n);
    }

    // ------------------------------------------------------------ propagation

    /** GroupCheck(n, rcs) (sudoku.cpp:304-360) on row, column or block n
        (rcs = 0, 1, 2): every fixed cell's value leaves the other cells of
        the group, then every value that only one cell of the group still
        allows is fixed there. Any other rcs changes nothing. */
    method GroupCheck(n: int, rcs: int)
      requires Valid() && (0 <= rcs < 3 ==> 0 <= n < GroupCount(d, rcs))
      modifies this`grid
      ensures Valid() && grid == GroupCheckResult(d, old(grid), rcs, n)
    {
      var grp: seq<int>;
      if rcs == 0 {
        grp := Row(n);
      } else if rcs == 1 {
        grp := Column(n);
      } else if rcs == 2 {
        grp := SubGrid(n);
      } else {
        return;
      }
      ghost var g0 := grid;
      NakedPass(grp);
      HiddenPass(grp);
      GroupCheckRefines(d, g0, rcs, n);
    }

    /** The naked-single loop of GroupCheck (sudoku.cpp:326-338): each cell of
        the group that holds a single value, in group order, erases that value
        from every other cell of the group. */
    method NakedPass(grp: seq<int>)
      requires InRange(grp, |grid|)
      modifies this`grid
      ensures grid == NakedUpTo(old(grid), grp, |grp|)
    {
      var i := 0;
      while i < |grp|
        invariant 0 <= i <= |grp| && grid == NakedUpTo(old(grid), grp, i)
      {
        if |grid[grp[i]]| == 1 {
          var x := TheValue(grid[grp[i]]);
          EraseFrom(grp, i, x);
        }
        i := i + 1;
      }
    }

    /** The inner loop at sudoku.cpp:330-336: x leaves every cell of the
        group but the i-th. */
    method EraseFrom(grp: seq<int>, i: int, x: int)
      requires InRange(grp, |grid|)
      modifies this`grid
      ensures grid == EraseUpTo(old(grid), grp, i, x, |grp|)
    {
      var j := 0;
      while j < |grp|
        invariant 0 <= j <= |grp| && grid == EraseUpTo(old(grid), grp, i, x, j)
      {
        if i != j {
          grid := grid[grp[j] := grid[grp[j]] - {x}];
        }
        j := j + 1;
      }
    }

    /** The hidden-single loop of GroupCheck (sudoku.cpp:341-358): for v = 1..S
        in turn, a value that exactly one cell of the group allows becomes that
        cell's only candidate. */
    method HiddenPass(grp: seq<int>)
      requires InRange(grp, |grid|) && d.Ok()
      modifies this`grid
      ensures grid == HiddenUpTo(old(grid), grp, d.S())
    {
      var i := 0;
      while i < d.S()
        invariant 0 <= i <= d.S() && grid == HiddenUpTo(old(grid), grp, i)
      {
        var c, k := Holding(grp, i + 1);
        if c == 1 {
          grid := grid[grp[k] := {i + 1}];
        }
        i := i + 1;
      }
    }

    /** The counting loop at sudoku.cpp:343-351: c is the number of cells of
        the group that allow v, and k the position of the last of them (0 when
        there is none). */
    method Holding(grp: seq<int>, v: int) returns (c: int, k: int)
      requires InRange(grp, |grid|)
      ensures c == Holders(grid, grp, v, |grp|) && k == LastHolder(grid, grp, v, |grp|)
      ensures c == |set j | 0 <= j < |grp| && v in grid[grp[j]]|
      ensures c == 1 <==> OnlyHolder(grid, grp, v, k)
    {
      c, k := 0, 0;
      var j := 0;
      while j < |grp|
        invariant 0 <= j <= |grp|
        invariant c == Holders(grid, grp, v, j) && k == LastHolder(grid, grp, v, j)
      {
        if v in grid[grp[j]] {
          c := c + 1;
          k := j;
        }
        j := j + 1;
      }
      HoldersCount(grid, grp, v, |grp|);
      OnlyHolderCount(grid, grp, v, k);
    }

    /** One pass of the loop at sudoku.cpp:446-450: GroupCheck on every row,
        then every column, then every block. */
    method SweepGroups()
      requires Valid()
      modifies this`grid
      ensures Valid() && grid == Sweep(d, old(grid))
    {
      var L := [d.R(), d.C(), d.S()];
      var i := 0;
      while i < 3
        invariant 0 <= i <= 3 && Valid() && grid == SweepUpTo(d, old(grid), i)
      {
        PassGroups(i, L[i]);
        i := i + 1;
      }
      SweepUpToAll(d, old(grid));
    }

    /** The inner loop at sudoku.cpp:449-450: GroupCheck on every group of
        kind rcs in turn. */
    method PassGroups(rcs: int, count: int)
      requires Valid() && 0 <= rcs < 3 && count == GroupCount(d, rcs)
      modifies this`grid
      ensures Valid() && grid == PassKind(d, old(grid), rcs, count)
    {
      var j := 0;
      while j < count
        invariant 0 <= j <= count && Valid() && grid == PassKind(d, old(grid), rcs, j)
      {
        GroupCheck(j, rcs);
        PassKindStep(d, old(grid), rcs, j + 1);
        j := j + 1;
      }
    }

    // ------------------------------------------------------------ solving

    /** The cell choice at sudoku.cpp:364-378: -1 when every cell holds a
        single value, else a cell with the fewest candidates among the
        others; on a tie the later cell wins when rand() % 5 == 0, modelled
        as an arbitrary coin. */
    method ChooseNode() returns (k: int)
      requires Valid()
      ensures k == -1 <==> forall i :: 0 <= i < |grid| ==> |grid[i]| == 1
      ensures k != -1 ==> 0 <= k < |grid| && |grid[k]| != 1
      ensures k != -1 ==> forall i :: 0 <= i < |grid| && |grid[i]| != 1 ==> |grid[k]| <= |grid[i]|
    {
      var min := d.S() + 1;
      k := -1;
      var i := 0;
      while i < d.N()
        invariant 0 <= i <= d.N()
        invariant k == -1 ==> min == d.S() + 1 && forall j :: 0 <= j < i ==> |grid[j]| == 1
        invariant k != -1 ==> 0 <= k < i && |grid[k]| != 1 && min == |grid[k]|
        invariant forall j :: 0 <= j < i && |grid[j]| != 1 ==> min <= |grid[j]|
      {
        var m := |grid[i]|;
        if m != 1 {
          CellBound(grid[i], d.S());
          var coin: bool :| true;
          if m < min || (coin && m == min) {
            k := i;
            min := m;
          }
        }
        i := i + 1;
      }
    }

    /** RandomCheck(count) (sudoku.cpp:362-408), called on a grid the sweep
        no longer changes. If every cell holds one value the grid is a
        solution and the count goes up by one. Otherwise each candidate of
        the chosen cell, in ascending order, is tried on a copy of the grid
        that is solved recursively. Counting, the copies' counts add up to
        the number of solutions of the grid, and the grid is finally as on
        entry. Not counting, the first copy that has a solution is taken
        over; when none has one the grid is as on entry. */
    method RandomCheck(count: bool)
      requires Valid() && Stable(d, grid)
      modifies this`grid, this`nsolutions
      decreases Total(grid), 3
      ensures Valid()
      ensures count ==> nsolutions == old(nsolutions) + |Sols(d, old(grid))| && grid == old(grid)
      ensures !count ==> nsolutions == old(nsolutions) + (if Sols(d, old(grid)) == {} then 0 else 1)
      ensures !count && Sols(d, old(grid)) != {} ==> Solved(d, grid) && Refines(grid, old(grid))
      ensures !count && Sols(d, old(grid)) == {} ==> grid == old(grid)
    {
      var k := ChooseNode();
      if k != -1 {
        TryCandidates(k, count);
      } else {
        StableSolved(d, grid);
        SolvedSols(d, grid);
        nsolutions := nsolutions + 1;
      }
    }

    /** The candidate loop of RandomCheck (sudoku.cpp:380-401) on the chosen
        cell k, which does not hold a single value: its candidates are tried
        in ascending order, and the cell is put back at the end. */
    method TryCandidates(k: int, count: bool)
      requires Valid() && 0 <= k < |grid| && |grid[k]| != 1
      modifies this`grid, this`nsolutions
      decreases Total(grid), 2
      ensures Valid()
      ensures count ==> nsolutions == old(nsolutions) + |Sols(d, old(grid))| && grid == old(grid)
      ensures !count ==> nsolutions == old(nsolutions) + (if Sols(d, old(grid)) == {} then 0 else 1)
      ensures !count && Sols(d, old(grid)) != {} ==> Solved(d, grid) && Refines(grid, old(grid))
      ensures !count && Sols(d, old(grid)) == {} ==> grid == old(grid)
    {
      var node := grid[k];
      ghost var g := grid;
      var i := 0;
      while i < d.S()
        invariant 0 <= i <= d.S() && Valid()
        invariant grid == g[k := grid[k]]
        invariant count ==> nsolutions == old(nsolutions) + SplitSols(d, g, k, node, i)
        invariant !count ==> nsolutions == old(nsolutions) && SplitSols(d, g, k, node, i) == 0
      {
        var found := TryRound(k, i, count, node, g);
        if found {
          return;
        }
        i := i + 1;
      }
      SplitSolsCount(d, g, k, node, d.S());
      SplitAll(d, g, k);
      grid := grid[k := node];
    }

    /** One turn of the candidate loop (sudoku.cpp:382-400) for the value
        i + 1: skipped when cell k does not allow it, otherwise tried. The
        solutions of g with cell k among the tried values grow by those of
        the turn; not counting, a turn that finds a solution ends the loop
        with a solved refinement of g. */
    method TryRound(k: int, i: int, count: bool, node: Cell, ghost g: Grid) returns (found: bool)
      requires Valid() && WellFormed(d, g) && 0 <= k < |g| && node == g[k] && |node| != 1 && 0 <= i
      requires grid == g[k := grid[k]]
      modifies this`grid, this`nsolutions
      decreases Total(g), 1
      ensures Valid() && (count ==> !found)
      ensures !found ==> grid == g[k := grid[k]]
      ensures count ==> nsolutions == old(nsolutions) + SplitSols(d, g, k, node, i + 1) - SplitSols(d, g, k, node, i)
      ensures !count && !found ==> (nsolutions == old(nsolutions)
        && SplitSols(d, g, k, node, i + 1) == SplitSols(d, g, k, node, i))
      ensures !count && found ==> (nsolutions == old(nsolutions) + 1
        && Solved(d, grid) && Refines(grid, g) && Sols(d, g) != {})
    {
      found := false;
      if i + 1 in node {
        assert |node| >= 2 by { assert node != {}; }
        found := TryValue(k, i + 1, count, g);
        if found {
          SolvedWitness(d, grid, g[k := {i + 1}]);
          SolsRefines(d, g[k := {i + 1}], g);
          RefinesTrans(grid, g[k := {i + 1}], g);
        }
      }
    }

    /** One round of the candidate loop (sudoku.cpp:384-399): cell k is fixed
        to v and a fresh Sudoku over a copy of the grid is solved with the
        same count flag. Counting, its count is added and the loop goes on;
        not counting, a solved copy is taken over and ends the loop. g is the
        grid on entry to the loop, which differs from the current one at
        most in cell k. */
    method TryValue(k: int, v: int, count: bool, ghost g: Grid) returns (found: bool)
      requires Valid() && WellFormed(d, g) && 0 <= k < |g| && grid == g[k := grid[k]]
      requires v in g[k] && |g[k]| >= 2
      modifies this`grid, this`nsolutions
      decreases Total(g), 0
      ensures Valid()
      ensures count ==> !found && grid == g[k := {v}] && nsolutions == old(nsolutions) + |Sols(d, g[k := {v}])|
      ensures !count ==> (found <==> Sols(d, g[k := {v}]) != {})
      ensures !count && found ==> nsolutions == old(nsolutions) + 1 && Solved(d, grid) && Refines(grid, g[k := {v}])
      ensures !count && !found ==> nsolutions == old(nsolutions) && grid == g[k := {v}]
    {
      grid := grid[k := {v}];
      assert grid == g[k := {v}];
      TotalUpdate(g, k, {v});
      var trial := new Sudoku.WithGrid(d, grid);
      var ok := trial.SolvePrivate(count);
      found := false;
      if ok {
        nsolutions := nsolutions + trial.nsolutions;
        if !count {
          grid := trial.grid;
          found := true;
        }
      }
    }

    /** Solve_private(count) (sudoku.cpp:437-458). A known count of 0 answers
        false at once. Otherwise the count is reset and the sweep repeats
        until the grid no longer changes; RandomCheck then finishes, and the
        answer is whether the count is positive. The grid only loses
        candidates. Counting, the count is the number of solutions of the
        grid and none is lost; not counting, the count is 1 when the grid has
        a solution and the grid is then one, else it is 0. */
    method SolvePrivate(count: bool) returns (r: bool)
      requires Valid()
      modifies this`grid, this`nsolutions
      decreases Total(grid), 4
      ensures Valid() && Refines(grid, old(grid))
      ensures old(nsolutions) == 0 ==> !r && grid == old(grid) && nsolutions == 0
      ensures old(nsolutions) != 0 ==> (r <==> nsolutions > 0)
      ensures old(nsolutions) != 0 && count ==> nsolutions == |Sols(d, old(grid))| && Sols(d, grid) == Sols(d, old(grid))
      ensures old(nsolutions) != 0 && !count ==> nsolutions == (if Sols(d, old(grid)) == {} then 0 else 1)
      ensures old(nsolutions) != 0 && !count && r ==> Solved(d, grid)
      ensures old(nsolutions) != 0 && (count || !r) ==> grid == Propagated(d, old(grid))
    {
      if nsolutions == 0 {
        return false;
      }
      nsolutions := 0;
      while true
        invariant Valid() && Refines(grid, old(grid)) && Sols(d, grid) == Sols(d, old(grid)) && nsolutions == 0
        invariant Propagated(d, grid) == Propagated(d, old(grid))
        decreases Total(grid)
      {
        var copy := grid;
        SweepGroups();
        SweepSound(d, copy);
        RefinesTrans(grid, copy, old(grid));
        SolsTrans(d, grid, copy, old(grid));
        assert Propagated(d, copy) == if grid == copy then copy else Propagated(d, grid);
        if grid == copy {
          SweepFixpoint(d, grid);
          RefinesTotal(grid, old(grid));
          ghost var fixed := grid;
          RandomCheck(count);
          if !count && Sols(d, fixed) != {} {
            RefinesTrans(grid, fixed, old(grid));
          }
          return nsolutions > 0;
        }
        SweepProgress(d, copy);
      }
    }

    /** Solve() (sudoku.cpp:411-424): the solver without counting. When it
        fails, every cell that held a single value on entry is marked bad. */
    method Solve() returns (solvable: bool)
      requires Valid()
      modifies this`grid, this`nsolutions, this`bad
      ensures Valid() && Refines(grid, old(grid))
      ensures solvable <==> old(nsolutions) != 0 && Sols(d, old(grid)) != {}
      ensures solvable ==> Solved(d, grid) && Values(grid) in Sols(d, old(grid))
      ensures nsolutions == if solvable then 1 else 0
      ensures solvable ==> bad == old(bad)
      ensures !solvable ==> bad == old(bad) + set i | 0 <= i < |old(grid)| && |old(grid)[i]| == 1
      ensures old(nsolutions) == 0 ==> grid == old(grid)
      ensures old(nsolutions) != 0 && !solvable ==> grid == Propagated(d, old(grid))
    {
      var original := grid;
      solvable := SolvePrivate(false);
      if solvable {
        SolvedWitness(d, grid, original);
      }
      ghost var g1, n1 := grid, nsolutions;
      var i := 0;
      while i < d.N() && !solvable
        invariant 0 <= i <= d.N() && grid == g1 && nsolutions == n1
        invariant solvable ==> bad == old(bad)
        invariant !solvable ==> bad == old(bad) + set j | 0 <= j < i && |original[j]| == 1
      {
        if |original[i]| == 1 {
          bad := bad + {i};
        }
        i := i + 1;
      }
    }

    /** nSolutions() (sudoku.cpp:426-435): a known count is returned as it
        is; an unknown one (-1) is computed by the counting solver, after
        which the grid is put back. */
    method NSolutions() returns (n: int)
      requires Valid()
      modifies this`grid, this`nsolutions
      ensures grid == old(grid) && nsolutions == n
      ensures old(nsolutions) == -1 ==> n == |Sols(d, grid)|
      ensures old(nsolutions) != -1 ==> n == old(nsolutions)
    {
      if nsolutions == -1 {
        var original := grid;
        var _ := SolvePrivate(true);
        grid := original;
      }
      n := nsolutions;
    }

    // ------------------------------------------------------------ conflicts

    /** findBadNodes() (sudoku.cpp:112-127): the board of the fixed cells'
        values (0 elsewhere) is handed to the blame rounds. The cells blamed
        are added to bad; with them emptied the board has no conflict left,
        nothing is blamed exactly when it had none, and the count is 0 once
        something was blamed. Round by round the blame rule holds against
        that round's conflict counts (BlameChain). */
    method FindBadNodes() returns (ghost blamed: set<int>, ghost rounds: seq<set<int>>, ghost counts: seq<seq<int>>)
      requires Valid()
      modifies this`bad, this`nsolutions
      ensures blamed == Union(rounds) && BlameChain(d, BoardOf(grid), given, rounds, counts)
      ensures bad == old(bad) + blamed && blamed <= NonZero(BoardOf(grid))
      ensures ConflictFree(d, Zeroed(BoardOf(grid), blamed))
      ensures blamed == {} <==> ConflictFree(d, BoardOf(grid))
      ensures nsolutions == if blamed == {} then old(nsolutions) else 0
    {
      var board := ReadBoard(grid);
      BoardOfRange(d, grid);
      blamed, rounds, counts := FindBadNodesPrivate(board);
    }

    /** findBadNodes_private(board) (sudoku.cpp:129-250) on a board of
        entries from 0..S: the conflicts of every cell are counted, for each
        value one cell with the most of them is blamed, and the rounds repeat
        on the board without the blamed cells until a round blames nothing;
        the count is then set to 0 when anything was blamed. rounds lists
        the cells each round blamed and counts the conflict counts it
        measured. */
    method FindBadNodesPrivate(board: Board) returns (ghost blamed: set<int>, ghost rounds: seq<set<int>>, ghost counts: seq<seq<int>>)
      requires Valid() && |board| == d.N() && forall p :: 0 <= p < |board| ==> 0 <= board[p] <= d.S()
      modifies this`bad, this`nsolutions
      decreases |NonZero(board)|
      ensures blamed == Union(rounds) && BlameChain(d, board, given, rounds, counts)
      ensures bad == old(bad) + blamed && blamed <= NonZero(board)
      ensures ConflictFree(d, Zeroed(board, blamed))
      ensures blamed == {} <==> ConflictFree(d, board)
      ensures nsolutions == if blamed == {} then old(nsolutions) else 0
    {
      var newBoard, bnf, now, cnt := BlameStep(board);
      if bnf {
        ZeroedShrinks(board, now);
        ZeroedRange(board, now, d.S());
        var rest, later, laterCounts := FindBadNodesPrivate(newBoard);
        nsolutions := 0;
        BlameMerge(d, board, now, rest);
        blamed := now + rest;
        ChainCons(d, board, given, now, cnt, later, laterCounts);
        rounds, counts := [now] + later, [cnt] + laterCounts;
      } else {
        ZeroedNone(board);
        blamed, rounds, counts := {}, [], [];
      }
    }

    /** One round of findBadNodes_private (sudoku.cpp:131-242): the conflicts
        are counted and the blame loop run. Each blamed cell has the most
        conflicts among the cells holding its entry, and is not given when a
        tied cell is not; each entry held by a conflicting cell has exactly
        one blamed cell. Something is blamed exactly when the board has a
        conflict. */
    method BlameStep(board: Board) returns (newBoard: Board, bnf: bool, ghost now: set<int>, counts: seq<int>)
      requires d.Ok() && |board| == d.N() && forall p :: 0 <= p < |board| ==> 0 <= board[p] <= d.S()
      modifies this`bad
      ensures bad == old(bad) + now && newBoard == Zeroed(board, now) && now <= NonZero(board)
      ensures bnf <==> now != {}
      ensures now == {} <==> ConflictFree(d, board)
      ensures |counts| == |board|
      ensures forall p {:trigger CountOk(d, board, counts, p)} :: 0 <= p < |board| ==> CountOk(d, board, counts, p)
      ensures forall p {:trigger BlameOk(board, counts, given, p)} :: p in now ==> BlameOk(board, counts, given, p)
      ensures forall p, q :: p in now && q in now && board[p] == board[q] ==> p == q
      ensures forall j :: 0 <= j < |board| && board[j] != 0 && counts[j] > 0 ==> exists p :: p in now && board[p] == board[j]
      ensures RoundOk(d, board, given, now, counts)
    {
      counts := CountConflicts(d, board);
      CountsZeroIffFree(d, board, counts);
      newBoard, bnf, now := BlameRound(board, counts);
    }

    /** The blame loop of one round (sudoku.cpp:212-242): for each value v of
        1..S the cell PickBlame chooses, if any, is emptied on the new board
        and marked bad. Each value with a conflicting cell gets exactly one
        blamed cell, and it is one the blame rule allows. */
    method BlameRound(board: Board, counts: seq<int>) returns (newBoard: Board, bnf: bool, ghost now: set<int>)
      requires |counts| == |board| && forall p :: 0 <= p < |board| ==> 0 <= board[p] <= d.S() && counts[p] >= 0
      modifies this`bad
      ensures bad == old(bad) + now && newBoard == Zeroed(board, now) && now <= NonZero(board)
      ensures forall p :: p in now ==> BlameOk(board, counts, given, p)
      ensures forall p, q :: p in now && q in now && board[p] == board[q] ==> p == q
      ensures forall j :: 0 <= j < |board| && board[j] != 0 && counts[j] > 0 ==> exists p :: p in now && board[p] == board[j]
      ensures bnf <==> now != {}
      ensures now == {} <==> forall j :: 0 <= j < |board| && board[j] != 0 ==> counts[j] == 0
    {
      newBoard, bnf, now := board, false, {};
      ghost var who: seq<int> := [];
      ZeroedNone(board);
      var i := 0;
      while i < d.S()
        invariant 0 <= i <= d.S() && |who| == i && now == Picked(who) && (bnf <==> now != {})
        invariant bad == old(bad) + now && newBoard == Zeroed(board, now)
        invariant forall v :: 0 <= v < i ==> Blamed(board, counts, given, v + 1, who[v])
      {
        var pos := PickBlame(board, counts, given, i + 1);
        assert Blamed(board, counts, given, i + 1, pos);
        if pos != -1 {
          ZeroedAdd(board, now, pos);
          newBoard := newBoard[pos := 0];
          bad := bad + {pos};
          bnf := true;
          now := now + {pos};
        }
        assert (who + [pos])[..i] == who;
        who := who + [pos];
        i := i + 1;
      }
      BlamedFacts(board, counts, given, who, d.S());
    }

    // ------------------------------------------------------------ generator

    /** generateGrid_private(level, empty, positions) (sudoku.cpp:461-496):
        positions are drawn in an arbitrary order and their cells reset to
        `empty`; a reset is kept when the grid then still has exactly one
        solution and level - 1 further resets from the remaining positions
        succeed after it, and is undone otherwise. On success `removed`
        lists the level distinct positions reset, in the order they were
        reset, and the grid has a unique solution after every prefix of
        them; on failure the grid is as on entry. */
    method GenerateReduce(level: int, empty: Cell, positions: seq<int>) returns (ok: bool, ghost removed: seq<int>)
      requires Valid() && level >= 0 && empty <= Full(d.S())
      requires Distinct(positions) && forall q :: 0 <= q < |positions| ==> 0 <= positions[q] < d.N()
      modifies this`grid, this`nsolutions
      decreases |positions|, 0
      ensures Valid()
      ensures !ok ==> grid == old(grid)
      ensures ok ==> |removed| == level && Distinct(removed)
      ensures ok ==> forall t :: 0 <= t < |removed| ==> removed[t] in positions
      ensures ok ==> grid == Cleared(old(grid), removed, empty)
      ensures ok ==> forall t :: 0 < t <= |removed| ==> |Sols(d, Cleared(old(grid), removed[..t], empty))| == 1
      ensures ok ==> nsolutions == if level == 0 then old(nsolutions) else 1
      ensures level == 0 ==> ok
    {
      if level == 0 {
        return true, [];
      }
      var ps := positions;
      while true
        invariant Valid() && grid == old(grid)
        invariant Distinct(ps) && |ps| <= |positions|
        invariant forall q :: 0 <= q < |ps| ==> ps[q] in positions
        decreases |ps|
      {
        if |ps| < level {
          return false, [];
        }
        var j :| 0 <= j < |ps|;
        var i := ps[j];
        ps := Erase(ps, j);
        ok, removed := TryReset(level, empty, ps, i);
        if ok {
          return;
        }
      }
    }

    /** One round of the loop in generateGrid_private (sudoku.cpp:478-494):
        cell i is reset to `empty` and the solutions are counted afresh;
        with exactly one, level - 1 further resets are sought among ps. On
        success `removed` starts with i; on failure cell i is put back. */
    method TryReset(level: int, empty: Cell, ps: seq<int>, i: int) returns (ok: bool, ghost removed: seq<int>)
      requires Valid() && level > 0 && empty <= Full(d.S())
      requires Distinct(ps) && forall q :: 0 <= q < |ps| ==> 0 <= ps[q] < d.N()
      requires 0 <= i < d.N() && i !in ps
      modifies this`grid, this`nsolutions
      decreases |ps|, 1
      ensures Valid()
      ensures !ok ==> grid == old(grid)
      ensures ok ==> |removed| == level && Distinct(removed) && removed[0] == i
      ensures ok ==> forall t :: 0 < t < |removed| ==> removed[t] in ps
      ensures ok ==> grid == Cleared(old(grid), removed, empty)
      ensures ok ==> forall t :: 0 < t <= |removed| ==> |Sols(d, Cleared(old(grid), removed[..t], empty))| == 1
      ensures ok ==> nsolutions == 1
    {
      var w := grid[i];
      grid := grid[i := empty];
      nsolutions := -1;
      nsolutions := NSolutions();
      if nsolutions == 1 {
        ghost var rest;
        ok, rest := GenerateReduce(level - 1, empty, ps);
        if ok {
          removed := [i] + rest;
          ResetKept(d, old(grid), i, rest, ps, empty);
          return;
        }
      }
      ok, removed := false, [];
      grid := grid[i := w];
    }

    /** generateGrid(level) (sudoku.cpp:498-515): a blank board of the same
        dimensions is solved and its grid becomes the seed, then
        GenerateReduce resets level cells of it, drawing from all N
        positions, and its verdict is dropped. The seed is a solution of
        the blank grid, since that grid always has one. */
    method GenerateGrid(level: int) returns (ghost seed: Grid, ghost ok: bool, ghost removed: seq<int>)
      requires Valid() && level >= 0
      modifies this`grid, this`nsolutions
      ensures Valid() && WellFormed(d, seed) && Refines(seed, BlankGrid(d))
      ensures Solved(d, seed) && Values(seed) in Sols(d, BlankGrid(d))
      ensures !ok ==> grid == seed
      ensures ok ==> |removed| == level && Distinct(removed)
      ensures ok ==> forall t :: 0 <= t < |removed| ==> 0 <= removed[t] < d.N()
      ensures ok ==> grid == Cleared(seed, removed, Full(d.S()))
      ensures ok ==> forall t :: 0 < t <= |removed| ==> |Sols(d, Cleared(seed, removed[..t], Full(d.S())))| == 1
      ensures level == 0 ==> ok
      ensures ok ==> nsolutions == if level == 0 then old(nsolutions) else 1
    {
      var sud := new Sudoku.Blank(d);
      assert sud.grid == BlankGrid(d);
      BlankSolvable(d);
      var _ := sud.Solve();
      grid := sud.grid;
      seed := grid;
      var empty := EmptyNode(d.S());
      var positions: seq<int> := [];
      var i := 0;
      while i < d.N()
        invariant 0 <= i <= d.N() && |positions| == i
        invariant forall q :: 0 <= q < i ==> positions[q] == q
      {
        positions := positions + [i];
        i := i + 1;
      }
      ok, removed := GenerateReduce(level, empty, positions);
    }
  }

  /** positions.erase(positions.begin() + j): the sequence without its j-th
      element. */
  function Erase(ps: seq<int>, j: int): (r: seq<int>)
    requires 0 <= j < |ps|
    ensures |r| == |ps| - 1
    ensures forall q :: 0 <= q < |r| ==> r[q] == if q < j then ps[q] else ps[q + 1]
    ensures Distinct(ps) ==> Distinct(r) && ps[j] !in r
    ensures forall x :: x in r ==> x in ps
  {
    ps[..j] + ps[j + 1..]
  }

  /** g with the cells at ps reset to `empty`, one after another in the
      order of ps (positions outside the grid are skipped). */
  function Cleared(g: Grid, ps: seq<int>, empty: Cell): (r: Grid)
    decreases |ps|
  {
    if ps == [] then g
    else if 0 <= ps[0] < |g| then Cleared(g[ps[0] := empty], ps[1..], empty)
    else Cleared(g, ps[1..], empty)
  }

  /** Resetting does not change the size of the grid, resets exactly the
      cells listed and keeps every other cell. */
  lemma {:induction false} ClearedCells(g: Grid, ps: seq<int>, empty: Cell)
    ensures |Cleared(g, ps, empty)| == |g|
    ensures forall p :: 0 <= p < |g| ==> Cleared(g, ps, empty)[p] == if p in ps then empty else g[p]
    decreases |ps|
  {
    if ps != [] {
      var h := if 0 <= ps[0] < |g| then g[ps[0] := empty] else g;
      ClearedCells(h, ps[1..], empty);
      assert Cleared(g, ps, empty) == Cleared(h, ps[1..], empty);
      assert forall p :: p in ps <==> p == ps[0] || p in ps[1..];
    }
  }

  /** A kept reset of cell i followed by the resets rest, all drawn from ps
      which does not hold i: together they are distinct resets where every
      prefix leaves a unique solution. */
  lemma ResetKept(d: Dims, g: Grid, i: int, rest: seq<int>, ps: seq<int>, empty: Cell)
    requires 0 <= i < |g| && i !in ps && |Sols(d, g[i := empty])| == 1
    requires Distinct(rest) && forall t :: 0 <= t < |rest| ==> rest[t] in ps
    requires forall t :: 0 < t <= |rest| ==> |Sols(d, Cleared(g[i := empty], rest[..t], empty))| == 1
    ensures Distinct([i] + rest) && ([i] + rest)[0] == i
    ensures forall t :: 0 < t < |rest| + 1 ==> ([i] + rest)[t] in ps
    ensures Cleared(g, [i] + rest, empty) == Cleared(g[i := empty], rest, empty)
    ensures forall t :: 0 < t <= |rest| + 1 ==> |Sols(d, Cleared(g, ([i] + rest)[..t], empty))| == 1
  {
    ClearedPrefixes(g, i, rest, empty);
  }

  /** The prefixes of [i] + rest, reset in order from g, are g[i := empty]
      and then the prefixes of rest reset from g[i := empty]. */
  lemma ClearedPrefixes(g: Grid, i: int, rest: seq<int>, empty: Cell)
    requires 0 <= i < |g|
    ensures Cleared(g, [i] + rest, empty) == Cleared(g[i := empty], rest, empty)
    ensures Cleared(g, [i], empty) == g[i := empty]
    ensures forall t :: 0 < t <= |rest| + 1 ==> Cleared(g, ([i] + rest)[..t], empty) == Cleared(g[i := empty], rest[..t - 1], empty)
  {
    assert ([i] + rest)[1..] == rest;
    assert [i][1..] == [];
    forall t | 0 < t <= |rest| + 1
      ensures Cleared(g, ([i] + rest)[..t], empty) == Cleared(g[i := empty], rest[..t - 1], empty)
    {
      var pre := ([i] + rest)[..t];
      assert pre[0] == i && pre[1..] == rest[..t - 1];
    }
  }

  /** The cells blamed in one round and those blamed in the later rounds on
      the board without them: together nonzero cells of the board, whose
      emptying leaves it conflict-free. */
  lemma BlameMerge(d: Dims, board: Board, now: set<int>, rest: set<int>)
    requires d.Ok() && |board| == d.N() && now <= NonZero(board)
    requires rest <= NonZero(Zeroed(board, now)) && ConflictFree(d, Zeroed(Zeroed(board, now), rest))
    ensures now + rest <= NonZero(board) && ConflictFree(d, Zeroed(board, now + rest))
  {
    ZeroedTwice(board, now, rest);
    ZeroedNonZero(board, now);
  }

  /** The loop of findBadNodes (sudoku.cpp:114-125) that reads the board off
      a grid cell by cell. */
  method ReadBoard(g: Grid) returns (board: Board)
    ensures board == BoardOf(g)
  {
    board := [];
    var i := 0;
    while i < |g|
      invariant 0 <= i <= |g| && |board| == i
      invariant forall p :: 0 <= p < i ==> board[p] == BoardOf(g)[p]
    {
      if |g[i]| == 1 {
        board := board + [TheValue(g[i])];
      } else {
        board := board + [0];
      }
      i := i + 1;
    }
  }

  /** The board findBadNodes reads off a grid (sudoku.cpp:114-125): a fixed
      cell's value, 0 for any other cell. */
  function BoardOf(g: Grid): (b: Board)
    ensures |b| == |g|
  {
    seq(|g|, p requires 0 <= p < |g| => if |g[p]| == 1 then TheValue(g[p]) else 0)
  }

  /** The board of a well-formed grid has its entries in 0..S. */
  lemma BoardOfRange(d: Dims, g: Grid)
    requires WellFormed(d, g)
    ensures forall p :: 0 <= p < |g| ==> 0 <= BoardOf(g)[p] <= d.S()
  {
    forall p | 0 <= p < |g| && |g[p]| == 1 ensures 1 <= TheValue(g[p]) <= d.S() {
      assert TheValue(g[p]) in g[p];
    }
  }

  /** A solved grid has no conflicts: findBadNodes blames nothing on it. */
  lemma SolvedConflictFree(d: Dims, g: Grid)
    requires Solved(d, g)
    ensures ConflictFree(d, BoardOf(g))
  {
    var b := BoardOf(g);
    forall rcs, n | 0 <= rcs < 3 && 0 <= n < GroupCount(d, rcs) ensures GroupConflictFree(b, Group(d, rcs, n)) {
      var grp := Group(d, rcs, n);
      assert DistinctOn(g, grp);
      forall i, j | 0 <= i < |grp| && 0 <= j < |grp| && i != j && b[grp[i]] != 0 ensures b[grp[i]] != b[grp[j]] {
        assert g[grp[i]] == {b[grp[i]]} && g[grp[j]] == {b[grp[j]]};
      }
    }
  }

  /** The solutions of g with cell k fixed to one of the values 1..i that
      node allows, counted value by value. */
  ghost function SplitSols(d: Dims, g: Grid, k: int, node: Cell, i: nat): nat
    requires 0 <= k < |g|
  {
    if i == 0 then 0 else SplitSols(d, g, k, node, i - 1) + (if i in node then |Sols(d, g[k := {i}])| else 0)
  }

  /** Counted value by value, they are the solutions of g with cell k
      restricted to node's values among 1..i. */
  lemma {:induction false} SplitSolsCount(d: Dims, g: Grid, k: int, node: Cell, i: nat)
    requires 0 <= k < |g|
    ensures SplitSols(d, g, k, node, i) == |Sols(d, g[k := node * Full(i)])|
  {
    if i == 0 {
      EmptyCellNoSols(d, g[k := {}], k);
      assert node * Full(0) == {};
      assert g[k := node * Full(0)] == g[k := {}];
    } else {
      SplitSolsCount(d, g, k, node, i - 1);
      SplitStep(d, g, k, node, i - 1);
    }
  }

  /** With all of 1..S allowed, the split cell is as it was. */
  lemma SplitAll(d: Dims, g: Grid, k: int)
    requires WellFormed(d, g) && 0 <= k < |g|
    ensures g[k := g[k] * Full(d.S())] == g
  {
    assert g[k] * Full(d.S()) == g[k];
  }

  /** One candidate of the split cell: the solutions with cell k among
      node's first i + 1 values are those with it among the first i, plus
      those with it equal to i + 1 when node allows i + 1. */
  lemma SplitStep(d: Dims, g: Grid, k: int, node: Cell, i: nat)
    requires 0 <= k < |g|
    ensures |Sols(d, g[k := node * Full(i + 1)])|
      == |Sols(d, g[k := node * Full(i)])| + (if i + 1 in node then |Sols(d, g[k := {i + 1}])| else 0)
  {
    if i + 1 in node {
      SplitCount(d, g, k, node * Full(i), i + 1);
      assert node * Full(i) + {i + 1} == node * Full(i + 1);
    } else {
      assert node * Full(i) == node * Full(i + 1);
    }
  }

  /** The grid after the first i kinds of the sweep (rows, columns, blocks). */
  function SweepUpTo(d: Dims, g: Grid, i: nat): (r: Grid)
    requires d.Ok() && |g| == d.N() && i <= 3
    ensures |r| == |g|
  {
    if i == 0 then g
    else PassKind(d, SweepUpTo(d, g, i - 1), i - 1, GroupCount(d, i - 1))
  }

  /** All three kinds make one sweep. */
  lemma SweepUpToAll(d: Dims, g: Grid)
    requires d.Ok() && |g| == d.N()
    ensures SweepUpTo(d, g, 3) == Sweep(d, g)
  {
    assert SweepUpTo(d, g, 0) == g;
    assert GroupCount(d, 0) == d.R() && GroupCount(d, 1) == d.C() && GroupCount(d, 2) == d.S();
    var p0 := SweepUpTo(d, g, 1);
    var p1 := SweepUpTo(d, g, 2);
    assert p0 == PassKind(d, SweepUpTo(d, g, 0), 0, GroupCount(d, 0));
    assert p1 == PassKind(d, p0, 1, GroupCount(d, 1));
    assert SweepUpTo(d, g, 3) == PassKind(d, p1, 2, GroupCount(d, 2));
  }

  /** Row n, column n and block n as sudoku.cpp:257-289 build them: S
      distinct cells, namely those whose row number, column number or block
      number is n. */
  lemma GroupViews(d: Dims, rcs: int, n: int)
    requires d.Ok() && 0 <= rcs < 3 && 0 <= n < GroupCount(d, rcs)
    ensures |Group(d, rcs, n)| == d.S() && Distinct(Group(d, rcs, n))
    ensures rcs == 0 ==> Group(d, rcs, n) == RowIndices(d, n)
    ensures rcs == 1 ==> Group(d, rcs, n) == ColumnIndices(d, n)
    ensures rcs == 2 ==> Group(d, rcs, n) == BlockIndices(d, n)
    ensures forall p :: 0 <= p < d.N() ==> (p in Group(d, rcs, n) <==> GroupOf(d, rcs, p) == n)
  {
    forall p | 0 <= p < d.N() ensures p in Group(d, rcs, n) <==> GroupOf(d, rcs, p) == n {
      GroupMembership(d, rcs, n, p);
    }
  }

  /** Offset i of block n, at the row and column SubGrid computes. */
  lemma BlockEntry(d: Dims, n: int, i: int, row: int, col: int)
    requires d.Ok() && 0 <= n < d.S() && 0 <= i < d.S()
    requires row == (n / d.nsh) * d.sr + i / d.sc && col == (n % d.nsh) * d.sc + i % d.sc
    ensures row * d.C() + col == BlockIndices(d, n)[i]
  {}

  /** (x - x % m) / m, as sudoku.cpp writes it, is x / m for x >= 0. */
  lemma RoundDown(x: int, m: int)
    requires x >= 0 && m > 0
    ensures (x - x % m) / m == x / m
  {
    DivModUnique(x - x % m, m, x / m, 0);
  }
}
