/** The constraint propagation of sudoku.cpp: the two loops of `GroupCheck`
    (naked singles, then hidden singles) as functions on grids, the sweep of
    `Solve_private` over every row, column and block, and what they preserve. */
module Propagation {
  import opened Geometry
  import opened Candidates

  /** Every index of grp addresses a cell of a grid of n cells. */
  predicate InRange(grp: seq<int>, n: int)
  {
    forall q :: 0 <= q < |grp| ==> 0 <= grp[q] < n
  }

  // ---------------------------------------------------------------- naked singles

  /** Inner loop of the naked-single pass: the group's cells at positions
      below j, other than position i, lose the value x. */
  function EraseUpTo(g: Grid, grp: seq<int>, i: int, x: int, j: nat): (r: Grid)
    requires j <= |grp| && InRange(grp, |g|)
    ensures |r| == |g|
    decreases j
  {
    if j == 0 then g
    else
      var r := EraseUpTo(g, grp, i, x, j - 1);
      if j - 1 != i then r[grp[j - 1] := r[grp[j - 1]] - {x}] else r
  }

  /** Cell by cell, EraseUpTo removes x from exactly the group cells it passed. */
  lemma {:induction false} EraseUpToCells(g: Grid, grp: seq<int>, i: int, x: int, j: nat, p: int)
    requires j <= |grp| && InRange(grp, |g|) && Distinct(grp) && 0 <= i < |grp| && 0 <= p < |g|
    ensures EraseUpTo(g, grp, i, x, j)[p] == if p in grp[..j] && p != grp[i] then g[p] - {x} else g[p]
    decreases j
  {
    if j > 0 {
      EraseUpToCells(g, grp, i, x, j - 1, p);
      assert grp[..j] == grp[..j - 1] + [grp[j - 1]];
      if j - 1 != i && p == grp[j - 1] {
        assert p !in grp[..j - 1] by {
          forall q | 0 <= q < j - 1 ensures grp[q] != p { }
        }
      }
    }
  }

  /** One iteration of the naked-single loop (sudoku.cpp:328-337): a fixed cell
      at position i removes its value from every other cell of the group. */
  function NakedStep(g: Grid, grp: seq<int>, i: int): (r: Grid)
    requires 0 <= i < |grp| && InRange(grp, |g|)
    ensures |r| == |g|
  {
    if |g[grp[i]]| == 1 then EraseUpTo(g, grp, i, TheValue(g[grp[i]]), |grp|) else g
  }

  /** The naked-single loop run over positions 0..i-1. */
  function NakedUpTo(g: Grid, grp: seq<int>, i: nat): (r: Grid)
    requires i <= |grp| && InRange(grp, |g|)
    ensures |r| == |g|
  {
    if i == 0 then g else NakedStep(NakedUpTo(g, grp, i - 1), grp, i - 1)
  }

  /** The naked-single rule: when the cell at position i is fixed to {x}, every
      other group cell loses x and nothing else changes; otherwise nothing
      changes. */
  lemma NakedStepRule(g: Grid, grp: seq<int>, i: int, p: int)
    requires 0 <= i < |grp| && InRange(grp, |g|) && Distinct(grp) && 0 <= p < |g|
    ensures |g[grp[i]]| == 1 && p in grp && p != grp[i] ==> NakedStep(g, grp, i)[p] == g[p] - g[grp[i]]
    ensures |g[grp[i]]| != 1 || p !in grp || p == grp[i] ==> NakedStep(g, grp, i)[p] == g[p]
  {
    if |g[grp[i]]| == 1 {
      EraseUpToCells(g, grp, i, TheValue(g[grp[i]]), |grp|, p);
      assert grp[..|grp|] == grp;
    }
  }

  // ---------------------------------------------------------------- hidden singles

  /** The number of group positions below n whose cell admits v (the counter c
      of sudoku.cpp:343-351). */
  function Holders(g: Grid, grp: seq<int>, v: int, n: nat): nat
    requires n <= |grp| && InRange(grp, |g|)
  {
    if n == 0 then 0 else Holders(g, grp, v, n - 1) + (if v in g[grp[n - 1]] then 1 else 0)
  }

  /** The last group position below n whose cell admits v, 0 when there is
      none (the index k of sudoku.cpp:343-351). */
  function LastHolder(g: Grid, grp: seq<int>, v: int, n: nat): (k: nat)
    requires n <= |grp| && InRange(grp, |g|)
    ensures n == 0 || k < n
  {
    if n == 0 then 0
    else if v in g[grp[n - 1]] then n - 1
    else LastHolder(g, grp, v, n - 1)
  }

  /** The group positions below n whose cell admits v. */
  function HolderSet(g: Grid, grp: seq<int>, v: int, n: nat): set<int>
    requires n <= |grp| && InRange(grp, |g|)
  {
    set j | 0 <= j < n && v in g[grp[j]]
  }

  /** The counter counts the holders, and when there is exactly one the last
      holder is that one. */
  lemma {:induction false} HoldersCount(g: Grid, grp: seq<int>, v: int, n: nat)
    requires n <= |grp| && InRange(grp, |g|)
    ensures Holders(g, grp, v, n) == |HolderSet(g, grp, v, n)|
    ensures Holders(g, grp, v, n) == 1 ==> HolderSet(g, grp, v, n) == {LastHolder(g, grp, v, n)}
  {
    if n > 0 {
      HoldersCount(g, grp, v, n - 1);
      if v in g[grp[n - 1]] {
        assert HolderSet(g, grp, v, n) == HolderSet(g, grp, v, n - 1) + {n - 1};
        if Holders(g, grp, v, n) == 1 {
          assert HolderSet(g, grp, v, n - 1) == {};
        }
      } else {
        assert HolderSet(g, grp, v, n) == HolderSet(g, grp, v, n - 1);
      }
    }
  }

  /** Position j of the group is the only one whose cell admits v. */
  predicate OnlyHolder(g: Grid, grp: seq<int>, v: int, j: int)
    requires InRange(grp, |g|)
  {
    0 <= j < |grp| && v in g[grp[j]] && forall j' :: 0 <= j' < |grp| && j' != j ==> v !in g[grp[j']]
  }

  /** One iteration of the hidden-single loop (sudoku.cpp:341-358). */
  function HiddenStep(g: Grid, grp: seq<int>, v: int): (r: Grid)
    requires InRange(grp, |g|)
    ensures |r| == |g|
  {
    if Holders(g, grp, v, |grp|) == 1 then g[grp[LastHolder(g, grp, v, |grp|)] := {v}] else g
  }

  /** The hidden-single rule: the cell of the only group position admitting v
      becomes {v}; when no position is the only one, nothing changes. */
  lemma HiddenStepRule(g: Grid, grp: seq<int>, v: int)
    requires InRange(grp, |g|)
    ensures forall j :: OnlyHolder(g, grp, v, j) ==> HiddenStep(g, grp, v) == g[grp[j] := {v}]
    ensures (forall j :: !OnlyHolder(g, grp, v, j)) ==> HiddenStep(g, grp, v) == g
  {
    var n := |grp|;
    HoldersCount(g, grp, v, n);
    var hs := HolderSet(g, grp, v, n);
    forall j | OnlyHolder(g, grp, v, j) ensures HiddenStep(g, grp, v) == g[grp[j] := {v}] {
      assert hs == {j};
    }
    if Holders(g, grp, v, n) == 1 {
      var k := LastHolder(g, grp, v, n);
      assert k in hs;
      assert OnlyHolder(g, grp, v, k) by {
        forall j' | 0 <= j' < n && j' != k ensures v !in g[grp[j']] {
          assert (j' in hs) == (v in g[grp[j']]);
        }
      }
    }
  }

  /** The hidden-single loop run for the values 1..m in turn. */
  function HiddenUpTo(g: Grid, grp: seq<int>, m: nat): (r: Grid)
    requires InRange(grp, |g|)
    ensures |r| == |g|
  {
    if m == 0 then g else HiddenStep(HiddenUpTo(g, grp, m - 1), grp, m)
  }

  /** The counter reads 1 exactly when the last holder is the only one. */
  lemma OnlyHolderCount(g: Grid, grp: seq<int>, v: int, k: int)
    requires InRange(grp, |g|) && k == LastHolder(g, grp, v, |grp|)
    ensures Holders(g, grp, v, |grp|) == 1 <==> OnlyHolder(g, grp, v, k)
  {
    var n := |grp|;
    HoldersCount(g, grp, v, n);
    var hs := HolderSet(g, grp, v, n);
    if OnlyHolder(g, grp, v, k) {
      assert hs == {k} by {
        forall j | j in hs ensures j == k {}
        assert k in hs;
      }
    }
    if Holders(g, grp, v, n) == 1 {
      assert k in hs;
      forall j' | 0 <= j' < n && j' != k ensures v !in g[grp[j']] {
        assert j' !in hs;
      }
    }
  }

  // ---------------------------------------------------------------- GroupCheck

  /** The naked-single pass over grp followed by the hidden-single pass for
      the values 1..s. */
  function CheckGroup(g: Grid, grp: seq<int>, s: nat): (r: Grid)
    requires InRange(grp, |g|)
    ensures |r| == |g|
  {
    HiddenUpTo(NakedUpTo(g, grp, |grp|), grp, s)
  }

  /** What `GroupCheck(n, rcs)` does to the grid (sudoku.cpp:304-360): for a
      row (0), column (1) or block (2), the naked-single pass over the group
      followed by the hidden-single pass for the values 1..S; any other rcs
      leaves the grid alone. */
  function GroupCheckResult(d: Dims, g: Grid, rcs: int, n: int): (r: Grid)
    requires d.Ok() && |g| == d.N()
    requires 0 <= rcs < 3 ==> 0 <= n < GroupCount(d, rcs)
    ensures |r| == |g|
  {
    if 0 <= rcs < 3 then CheckGroup(g, Group(d, rcs, n), d.S()) else g
  }

  /** A grid that only loses candidates inside grp and keeps its solutions. */
  ghost predicate SoundLocal(d: Dims, a: Grid, b: Grid, grp: seq<int>)
  {
    Refines(a, b) && Sols(d, a) == Sols(d, b) && forall p :: 0 <= p < |b| && p !in grp ==> a[p] == b[p]
  }

  lemma SoundLocalTrans(d: Dims, a: Grid, b: Grid, c: Grid, grp: seq<int>)
    requires SoundLocal(d, a, b, grp) && SoundLocal(d, b, c, grp)
    ensures SoundLocal(d, a, c, grp)
  {}

  /** A naked single removes no solution: every solution puts the fixed value
      in the fixed cell and, the group being duplicate-free, nowhere else in it. */
  lemma NakedStepSound(d: Dims, g: Grid, rcs: int, n: int, i: int)
    requires d.Ok() && |g| == d.N() && 0 <= rcs < 3 && 0 <= n < GroupCount(d, rcs)
    requires 0 <= i < |Group(d, rcs, n)|
    ensures SoundLocal(d, NakedStep(g, Group(d, rcs, n), i), g, Group(d, rcs, n))
  {
    var grp := Group(d, rcs, n);
    var r := NakedStep(g, grp, i);
    forall p | 0 <= p < |g| ensures r[p] <= g[p] && (p !in grp ==> r[p] == g[p]) {
      NakedStepRule(g, grp, i, p);
    }
    SolsRefines(d, r, g);
    if |g[grp[i]]| == 1 {
      forall s | s in Sols(d, g) ensures s in Sols(d, r) {
        SolsMember(d, g, s);
        SolsMember(d, r, s);
        assert DistinctOn(s, grp);
        forall p | 0 <= p < |s| ensures s[p] in r[p] {
          NakedStepRule(g, grp, i, p);
          if p in grp && p != grp[i] {
            var q :| 0 <= q < |grp| && grp[q] == p;
            assert s[grp[q]] != s[grp[i]];
          }
        }
      }
    }
  }

  /** A hidden single removes no solution: every solution places v somewhere
      in the group, and only one cell there admits it. */
  lemma HiddenStepSound(d: Dims, g: Grid, rcs: int, n: int, v: int)
    requires d.Ok() && |g| == d.N() && 0 <= rcs < 3 && 0 <= n < GroupCount(d, rcs)
    requires 1 <= v <= d.S()
    ensures SoundLocal(d, HiddenStep(g, Group(d, rcs, n), v), g, Group(d, rcs, n))
  {
    var grp := Group(d, rcs, n);
    var r := HiddenStep(g, grp, v);
    HiddenStepRule(g, grp, v);
    if j :| OnlyHolder(g, grp, v, j) {
      assert r == g[grp[j] := {v}];
      SolsRefines(d, r, g);
      forall s | s in Sols(d, g) ensures s in Sols(d, r) {
        SolsMember(d, g, s);
        SolsMember(d, r, s);
        SolutionCovers(d, s, rcs, n, v);
        var j' :| 0 <= j' < d.S() && s[grp[j']] == v;
        assert v in g[grp[j']];
      }
    }
  }

  lemma {:induction false} NakedUpToSound(d: Dims, g: Grid, rcs: int, n: int, i: nat)
    requires d.Ok() && |g| == d.N() && 0 <= rcs < 3 && 0 <= n < GroupCount(d, rcs)
    requires i <= |Group(d, rcs, n)|
    ensures SoundLocal(d, NakedUpTo(g, Group(d, rcs, n), i), g, Group(d, rcs, n))
  {
    if i > 0 {
      var grp := Group(d, rcs, n);
      NakedUpToSound(d, g, rcs, n, i - 1);
      NakedStepSound(d, NakedUpTo(g, grp, i - 1), rcs, n, i - 1);
      SoundLocalTrans(d, NakedUpTo(g, grp, i), NakedUpTo(g, grp, i - 1), g, grp);
    }
  }

  lemma {:induction false} HiddenUpToSound(d: Dims, g: Grid, rcs: int, n: int, m: nat)
    requires d.Ok() && |g| == d.N() && 0 <= rcs < 3 && 0 <= n < GroupCount(d, rcs)
    requires m <= d.S()
    ensures SoundLocal(d, HiddenUpTo(g, Group(d, rcs, n), m), g, Group(d, rcs, n))
  {
    if m > 0 {
      var grp := Group(d, rcs, n);
      HiddenUpToSound(d, g, rcs, n, m - 1);
      HiddenStepSound(d, HiddenUpTo(g, grp, m - 1), rcs, n, m);
      SoundLocalTrans(d, HiddenUpTo(g, grp, m), HiddenUpTo(g, grp, m - 1), g, grp);
    }
  }

  /** `GroupCheck` only shrinks cells, only cells of its group, and keeps
      every solution. */
  lemma GroupCheckSound(d: Dims, g: Grid, rcs: int, n: int)
    requires d.Ok() && |g| == d.N() && 0 <= rcs < 3 && 0 <= n < GroupCount(d, rcs)
    ensures SoundLocal(d, GroupCheckResult(d, g, rcs, n), g, Group(d, rcs, n))
  {
    var grp := Group(d, rcs, n);
    NakedUpToSound(d, g, rcs, n, |grp|);
    HiddenUpToSound(d, NakedUpTo(g, grp, |grp|), rcs, n, d.S());
    SoundLocalTrans(d, GroupCheckResult(d, g, rcs, n), NakedUpTo(g, grp, |grp|), g, grp);
  }

  /** The two halves of GroupCheckSound that the sweep composes. */
  lemma GroupCheckRefines(d: Dims, g: Grid, rcs: int, n: int)
    requires d.Ok() && |g| == d.N() && 0 <= rcs < 3 && 0 <= n < GroupCount(d, rcs)
    ensures Refines(GroupCheckResult(d, g, rcs, n), g)
  {
    GroupCheckSound(d, g, rcs, n);
  }

  lemma GroupCheckSols(d: Dims, g: Grid, rcs: int, n: int, r: Grid)
    requires d.Ok() && |g| == d.N() && 0 <= rcs < 3 && 0 <= n < GroupCount(d, rcs)
    requires r == GroupCheckResult(d, g, rcs, n)
    ensures Sols(d, r) == Sols(d, g)
  {
    GroupCheckSound(d, g, rcs, n);
  }

  /** No fixed cell of the group shares its value with another group cell. */
  predicate NakedConsistent(g: Grid, grp: seq<int>)
    requires InRange(grp, |g|)
  {
    forall i, j :: 0 <= i < |grp| && 0 <= j < |grp| && i != j && |g[grp[i]]| == 1 ==> g[grp[i]] !! g[grp[j]]
  }

  /** Each naked-single prefix refines the ones before it. */
  lemma {:induction false} NakedUpToChain(g: Grid, grp: seq<int>, i: nat, m: nat)
    requires m <= i <= |grp| && InRange(grp, |g|) && Distinct(grp)
    ensures Refines(NakedUpTo(g, grp, i), NakedUpTo(g, grp, m))
    decreases i
  {
    if i > m {
      NakedUpToChain(g, grp, i - 1, m);
      var a := NakedUpTo(g, grp, i - 1);
      forall p | 0 <= p < |g| ensures NakedUpTo(g, grp, i)[p] <= a[p] {
        NakedStepRule(a, grp, i - 1, p);
      }
    }
  }

  lemma HiddenUpToRefines(g: Grid, grp: seq<int>, m: nat)
    requires InRange(grp, |g|)
    ensures Refines(HiddenUpTo(g, grp, m), g)
  {
    if m > 0 {
      HiddenUpToRefines(g, grp, m - 1);
      HiddenStepRule(HiddenUpTo(g, grp, m - 1), grp, m);
    }
  }

  /** A group on which `GroupCheck` changes nothing is naked-consistent. */
  lemma GroupCheckFixpoint(d: Dims, g: Grid, rcs: int, n: int)
    requires d.Ok() && |g| == d.N() && 0 <= rcs < 3 && 0 <= n < GroupCount(d, rcs)
    requires GroupCheckResult(d, g, rcs, n) == g
    ensures NakedConsistent(g, Group(d, rcs, n))
  {
    var grp := Group(d, rcs, n);
    var h := NakedUpTo(g, grp, |grp|);
    HiddenUpToRefines(h, grp, d.S());
    NakedUpToChain(g, grp, |grp|, 0);
    RefinesSandwich(g, h, g);
    forall i, j | 0 <= i < |grp| && 0 <= j < |grp| && i != j && |g[grp[i]]| == 1
      ensures g[grp[i]] !! g[grp[j]]
    {
      NakedUpToChain(g, grp, |grp|, i);
      NakedUpToChain(g, grp, i, 0);
      RefinesSandwich(g, NakedUpTo(g, grp, i), g);
      assert NakedUpTo(g, grp, i + 1) == NakedStep(g, grp, i);
      NakedUpToChain(g, grp, |grp|, i + 1);
      NakedUpToChain(g, grp, i + 1, 0);
      RefinesSandwich(g, NakedUpTo(g, grp, i + 1), g);
      NakedStepRule(g, grp, i, grp[j]);
    }
  }

  // ---------------------------------------------------------------- the sweep

  /** Every group of the list holds distinct cells of a grid of n cells. */
  predicate GroupsOk(gs: seq<seq<int>>, n: int)
  {
    forall j :: 0 <= j < |gs| ==> InRange(gs[j], n) && Distinct(gs[j])
  }

  /** The groups of kind rcs in the order the sweep visits them. */
  function Groups(d: Dims, rcs: int): (r: seq<seq<int>>)
    requires d.Ok() && 0 <= rcs < 3
    ensures |r| == GroupCount(d, rcs) && GroupsOk(r, d.N())
  {
    seq(GroupCount(d, rcs), n requires 0 <= n < GroupCount(d, rcs) => Group(d, rcs, n))
  }

  /** The group check run on the first m groups of gs in turn. */
  function PassOver(g: Grid, gs: seq<seq<int>>, s: nat, m: nat): (r: Grid)
    requires m <= |gs| && GroupsOk(gs, |g|)
    ensures |r| == |g|
  {
    if m == 0 then g else CheckGroup(PassOver(g, gs, s, m - 1), gs[m - 1], s)
  }

  /** `GroupCheck(j, rcs)` for j = 0..m-1 in turn. */
  function PassKind(d: Dims, g: Grid, rcs: int, m: nat): (r: Grid)
    requires d.Ok() && |g| == d.N() && 0 <= rcs < 3 && m <= GroupCount(d, rcs)
    ensures |r| == |g|
  {
    PassOver(g, Groups(d, rcs), d.S(), m)
  }

  /** One pass of the fixpoint loop (sudoku.cpp:447-450): every row, then
      every column, then every block. */
  function Sweep(d: Dims, g: Grid): (r: Grid)
    requires d.Ok() && |g| == d.N()
    ensures |r| == |g|
  {
    var p0 := PassKind(d, g, 0, d.R());
    var p1 := PassKind(d, p0, 1, d.C());
    PassKind(d, p1, 2, d.S())
  }

  /** Every row, column and block is naked-consistent. */
  predicate Stable(d: Dims, g: Grid)
    requires d.Ok() && |g| == d.N()
  {
    forall rcs, n :: 0 <= rcs < 3 && 0 <= n < GroupCount(d, rcs) ==> NakedConsistent(g, Group(d, rcs, n))
  }

  /** A pass of m + 1 groups is a pass of m followed by `GroupCheck(m, rcs)`. */
  lemma PassKindStep(d: Dims, g: Grid, rcs: int, m: nat)
    requires d.Ok() && |g| == d.N() && 0 <= rcs < 3 && 0 < m <= GroupCount(d, rcs)
    ensures PassKind(d, g, rcs, m) == GroupCheckResult(d, PassKind(d, g, rcs, m - 1), rcs, m - 1)
  {
    assert Groups(d, rcs)[m - 1] == Group(d, rcs, m - 1);
  }

  /** The group check on one group only removes candidates. */
  lemma CheckGroupRefines(g: Grid, grp: seq<int>, s: nat)
    requires InRange(grp, |g|) && Distinct(grp)
    ensures Refines(CheckGroup(g, grp, s), g)
  {
    var h := NakedUpTo(g, grp, |grp|);
    NakedUpToChain(g, grp, |grp|, 0);
    HiddenUpToRefines(h, grp, s);
    RefinesTrans(CheckGroup(g, grp, s), h, g);
  }

  lemma {:induction false} PassOverRefines(g: Grid, gs: seq<seq<int>>, s: nat, m: nat)
    requires m <= |gs| && GroupsOk(gs, |g|)
    ensures Refines(PassOver(g, gs, s, m), g)
  {
    if m > 0 {
      var a := PassOver(g, gs, s, m - 1);
      PassOverRefines(g, gs, s, m - 1);
      CheckGroupRefines(a, gs[m - 1], s);
      RefinesTrans(PassOver(g, gs, s, m), a, g);
    }
  }

  /** The group check on grp keeps the solutions of every grid of d. */
  ghost predicate KeepsSols(d: Dims, grp: seq<int>, s: nat)
  {
    forall a: Grid {:trigger CheckGroup(a, grp, s)} :: |a| == d.N() && InRange(grp, |a|) ==> Sols(d, CheckGroup(a, grp, s)) == Sols(d, a)
  }

  /** Every row, column and block keeps the solutions. */
  lemma GroupKeepsSols(d: Dims, rcs: int, n: int)
    requires d.Ok() && 0 <= rcs < 3 && 0 <= n < GroupCount(d, rcs)
    ensures KeepsSols(d, Group(d, rcs, n), d.S())
  {
    var grp := Group(d, rcs, n);
    forall a: Grid | |a| == d.N() && InRange(grp, |a|) ensures Sols(d, CheckGroup(a, grp, d.S())) == Sols(d, a) {
      GroupCheckSound(d, a, rcs, n);
    }
  }

  lemma {:induction false} PassOverSols(d: Dims, g: Grid, gs: seq<seq<int>>, s: nat, m: nat)
    requires m <= |gs| && GroupsOk(gs, |g|) && |g| == d.N()
    requires forall j :: 0 <= j < |gs| ==> KeepsSols(d, gs[j], s)
    ensures Sols(d, PassOver(g, gs, s, m)) == Sols(d, g)
  {
    if m > 0 {
      var a := PassOver(g, gs, s, m - 1);
      PassOverSols(d, g, gs, s, m - 1);
      assert KeepsSols(d, gs[m - 1], s);
      SolsTrans(d, PassOver(g, gs, s, m), a, g);
    }
  }

  /** A pass only shrinks cells ... */
  lemma PassKindRefines(d: Dims, g: Grid, rcs: int, m: nat)
    requires d.Ok() && |g| == d.N() && 0 <= rcs < 3 && m <= GroupCount(d, rcs)
    ensures Refines(PassKind(d, g, rcs, m), g)
  {
    PassOverRefines(g, Groups(d, rcs), d.S(), m);
  }

  /** ... and keeps every solution. */
  lemma PassKindSound(d: Dims, g: Grid, rcs: int, m: nat)
    requires d.Ok() && |g| == d.N() && 0 <= rcs < 3 && m <= GroupCount(d, rcs)
    ensures Refines(PassKind(d, g, rcs, m), g) && Sols(d, PassKind(d, g, rcs, m)) == Sols(d, g)
  {
    var gs := Groups(d, rcs);
    PassOverRefines(g, gs, d.S(), m);
    forall j | 0 <= j < |gs| ensures KeepsSols(d, gs[j], d.S()) {
      GroupKeepsSols(d, rcs, j);
    }
    PassOverSols(d, g, gs, d.S(), m);
  }

  /** A pass that ends where it began changed nothing at its last group. */
  lemma PassOverLastFixed(g: Grid, gs: seq<seq<int>>, s: nat, m: nat)
    requires 0 < m <= |gs| && GroupsOk(gs, |g|) && PassOver(g, gs, s, m) == g
    ensures PassOver(g, gs, s, m - 1) == g && CheckGroup(g, gs[m - 1], s) == g
  {
    var a := PassOver(g, gs, s, m - 1);
    PassOverRefines(g, gs, s, m - 1);
    CheckGroupRefines(a, gs[m - 1], s);
    RefinesSandwich(CheckGroup(a, gs[m - 1], s), a, g);
  }

  /** A pass that changes nothing changes nothing at any of its groups. */
  lemma {:induction false} PassOverFixpoint(g: Grid, gs: seq<seq<int>>, s: nat, m: nat, n: int)
    requires m <= |gs| && GroupsOk(gs, |g|) && PassOver(g, gs, s, m) == g && 0 <= n < m
    ensures CheckGroup(g, gs[n], s) == g
  {
    PassOverLastFixed(g, gs, s, m);
    if n < m - 1 {
      PassOverFixpoint(g, gs, s, m - 1, n);
    }
  }

  /** A pass that changes nothing leaves every group of its kind
      naked-consistent. */
  lemma PassKindFixpoint(d: Dims, g: Grid, rcs: int, m: nat, n: int)
    requires d.Ok() && |g| == d.N() && 0 <= rcs < 3 && m <= GroupCount(d, rcs)
    requires PassKind(d, g, rcs, m) == g && 0 <= n < m
    ensures NakedConsistent(g, Group(d, rcs, n))
  {
    var gs := Groups(d, rcs);
    PassOverFixpoint(g, gs, d.S(), m, n);
    assert gs[n] == Group(d, rcs, n);
    GroupCheckFixpoint(d, g, rcs, n);
  }

  /** A sweep only removes candidates and keeps every solution. */
  lemma SweepSound(d: Dims, g: Grid)
    requires d.Ok() && |g| == d.N()
    ensures Refines(Sweep(d, g), g) && Sols(d, Sweep(d, g)) == Sols(d, g)
  {
    var p0 := PassKind(d, g, 0, d.R());
    var p1 := PassKind(d, p0, 1, d.C());
    PassKindSound(d, g, 0, d.R());
    PassKindSound(d, p0, 1, d.C());
    PassKindSound(d, p1, 2, d.S());
  }

  /** A sweep that changes nothing has reached a stable grid: the exit test
      `grid == copy` of sudoku.cpp:452. */
  lemma SweepFixpoint(d: Dims, g: Grid)
    requires d.Ok() && |g| == d.N() && Sweep(d, g) == g
    ensures Stable(d, g)
  {
    var p0 := PassKind(d, g, 0, d.R());
    var p1 := PassKind(d, p0, 1, d.C());
    PassKindRefines(d, g, 0, d.R());
    PassKindRefines(d, p0, 1, d.C());
    PassKindRefines(d, p1, 2, d.S());
    RefinesSandwich(PassKind(d, p1, 2, d.S()), p1, g);
    RefinesSandwich(p1, p0, g);
    assert PassKind(d, g, 0, d.R()) == g && PassKind(d, g, 1, d.C()) == g && PassKind(d, g, 2, d.S()) == g;
    forall rcs, n | 0 <= rcs < 3 && 0 <= n < GroupCount(d, rcs)
      ensures NakedConsistent(g, Group(d, rcs, n))
    {
      if rcs == 0 {
        PassKindFixpoint(d, g, 0, d.R(), n);
      } else if rcs == 1 {
        PassKindFixpoint(d, g, 1, d.C(), n);
      } else {
        PassKindFixpoint(d, g, 2, d.S(), n);
      }
    }
  }

  /** A sweep that changes something strictly lowers the candidate total:
      the fixpoint loop terminates. */
  lemma SweepProgress(d: Dims, g: Grid)
    requires d.Ok() && |g| == d.N()
    ensures Total(Sweep(d, g)) <= Total(g)
    ensures Sweep(d, g) != g ==> Total(Sweep(d, g)) < Total(g)
  {
    SweepSound(d, g);
    RefinesTotal(Sweep(d, g), g);
  }

  /** The grid the fixpoint loop of sudoku.cpp:443-457 stops at: sweeps
      repeated until one of them changes nothing. */
  function Propagated(d: Dims, g: Grid): (r: Grid)
    requires d.Ok() && |g| == d.N()
    ensures |r| == |g| && Sweep(d, r) == r
    decreases Total(g)
  {
    SweepProgress(d, g);
    if Sweep(d, g) == g then g else Propagated(d, Sweep(d, g))
  }

  /** Propagation to the fixpoint only removes candidates, keeps every
      solution and ends on a stable grid. */
  lemma {:induction false} PropagatedSound(d: Dims, g: Grid)
    requires d.Ok() && |g| == d.N()
    ensures Refines(Propagated(d, g), g) && Sols(d, Propagated(d, g)) == Sols(d, g)
    ensures Stable(d, Propagated(d, g))
    decreases Total(g)
  {
    SweepProgress(d, g);
    SweepSound(d, g);
    if Sweep(d, g) != g {
      var h := Sweep(d, g);
      PropagatedSound(d, h);
      RefinesTrans(Propagated(d, h), h, g);
    }
    SweepFixpoint(d, Propagated(d, g));
  }

  /** A stable grid of fixed cells is solved: no value repeats in any group. */
  lemma StableSolved(d: Dims, g: Grid)
    requires d.Ok() && WellFormed(d, g) && Stable(d, g)
    requires forall p :: 0 <= p < |g| ==> |g[p]| == 1
    ensures Solved(d, g)
  {
    forall rcs, n | 0 <= rcs < 3 && 0 <= n < GroupCount(d, rcs) ensures DistinctOn(g, Group(d, rcs, n)) {
      var grp := Group(d, rcs, n);
      assert NakedConsistent(g, grp);
      forall i, j | 0 <= i < |grp| && 0 <= j < |grp| && i != j ensures g[grp[i]] != g[grp[j]] {
        assert g[grp[i]] !! g[grp[j]];
      }
    }
  }
}
