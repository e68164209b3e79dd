/** Conflict detection of sudoku.cpp (`findBadNodes_private`, lines 129-250):
    a board of plain entries (0 for an empty cell), the number of conflicts of
    each cell, the loops that count them pair by pair, and the choice of the
    cell to blame for each value. */
module Conflicts {
  import opened Geometry

  /** One entry per cell, 0 meaning empty. */
  type Board = seq<int>

  /** Cell q of the board repeats the nonzero entry of another cell p. */
  predicate Clash(b: Board, p: int, q: int)
    requires 0 <= p < |b| && 0 <= q < |b|
  {
    q != p && b[p] != 0 && b[q] == b[p]
  }

  /** The cells grp[lo..hi) that clash with cell p. */
  function MatchesBetween(b: Board, grp: seq<int>, p: int, lo: nat, hi: nat): nat
    requires lo <= hi <= |grp| && 0 <= p < |b|
    requires forall t :: 0 <= t < |grp| ==> 0 <= grp[t] < |b|
    decreases hi
  {
    if hi == lo then 0
    else MatchesBetween(b, grp, p, lo, hi - 1) + (if Clash(b, p, grp[hi - 1]) then 1 else 0)
  }

  /** Counting over [lo, hi) is counting over [lo, mid) and then [mid, hi). */
  lemma {:induction false} MatchesSplit(b: Board, grp: seq<int>, p: int, lo: nat, mid: nat, hi: nat)
    requires lo <= mid <= hi <= |grp| && 0 <= p < |b|
    requires forall t :: 0 <= t < |grp| ==> 0 <= grp[t] < |b|
    ensures MatchesBetween(b, grp, p, lo, hi) == MatchesBetween(b, grp, p, lo, mid) + MatchesBetween(b, grp, p, mid, hi)
    decreases hi
  {
    if hi > mid {
      MatchesSplit(b, grp, p, lo, mid, hi - 1);
    }
  }

  /** The count is zero exactly when no cell of the range clashes with p. */
  lemma {:induction false} MatchesZero(b: Board, grp: seq<int>, p: int, lo: nat, hi: nat)
    requires lo <= hi <= |grp| && 0 <= p < |b|
    requires forall t :: 0 <= t < |grp| ==> 0 <= grp[t] < |b|
    ensures MatchesBetween(b, grp, p, lo, hi) == 0 <==> forall t :: lo <= t < hi ==> !Clash(b, p, grp[t])
    decreases hi
  {
    if hi > lo {
      MatchesZero(b, grp, p, lo, hi - 1);
    }
  }

  /** The conflicts cell p has within the group of kind rcs that contains it:
      the other cells there holding p's nonzero entry. */
  ghost function KindConflicts(d: Dims, b: Board, rcs: int, p: int): nat
    requires d.Ok() && |b| == d.N() && 0 <= rcs < 3 && 0 <= p < |b|
  {
    GroupWitness(d, rcs, p);
    var n :| 0 <= n < GroupCount(d, rcs) && p in Group(d, rcs, n);
    MatchesBetween(b, Group(d, rcs, n), p, 0, d.S())
  }

  /** The conflicts of p in its group of kind rcs, read off any group that
      contains p. */
  lemma KindConflictsAt(d: Dims, b: Board, rcs: int, n: int, p: int)
    requires d.Ok() && |b| == d.N() && 0 <= rcs < 3 && 0 <= n < GroupCount(d, rcs) && 0 <= p < |b|
    requires p in Group(d, rcs, n)
    ensures KindConflicts(d, b, rcs, p) == MatchesBetween(b, Group(d, rcs, n), p, 0, d.S())
  {
    GroupWitness(d, rcs, p);
    var n' :| 0 <= n' < GroupCount(d, rcs) && p in Group(d, rcs, n') && KindConflicts(d, b, rcs, p) == MatchesBetween(b, Group(d, rcs, n'), p, 0, d.S());
    GroupUnique(d, rcs, n, n', p);
  }

  /** The value `countConflicts[p]` reaches (sudoku.cpp:144-210): conflicts in
      p's column, row and block. A pair of equal entries counts once for each
      of its two cells. */
  ghost function ConflictCount(d: Dims, b: Board, p: int): nat
    requires d.Ok() && |b| == d.N() && 0 <= p < |b|
  {
    KindConflicts(d, b, 1, p) + KindConflicts(d, b, 0, p) + KindConflicts(d, b, 2, p)
  }

  /** No two cells of grp hold the same nonzero entry. */
  predicate GroupConflictFree(b: Board, grp: seq<int>)
    requires forall t :: 0 <= t < |grp| ==> 0 <= grp[t] < |b|
  {
    forall i, j :: 0 <= i < |grp| && 0 <= j < |grp| && i != j && b[grp[i]] != 0 ==> b[grp[i]] != b[grp[j]]
  }

  /** No row, column or block holds two equal nonzero entries: the condition
      under which the blame rounds stop. */
  predicate ConflictFree(d: Dims, b: Board)
    requires d.Ok() && |b| == d.N()
  {
    forall rcs, n :: 0 <= rcs < 3 && 0 <= n < GroupCount(d, rcs) ==> GroupConflictFree(b, Group(d, rcs, n))
  }

  /** The cells with a nonzero entry. */
  function NonZero(b: Board): set<int>
  {
    set p | 0 <= p < |b| && b[p] != 0
  }

  /** The board with the cells of X emptied. */
  function Zeroed(b: Board, X: set<int>): (r: Board)
    ensures |r| == |b|
  {
    seq(|b|, p requires 0 <= p < |b| => if p in X then 0 else b[p])
  }

  lemma ZeroedNone(b: Board)
    ensures Zeroed(b, {}) == b
  {
    assert forall p :: 0 <= p < |b| ==> Zeroed(b, {})[p] == b[p];
  }

  /** Emptying one more cell. */
  lemma ZeroedAdd(b: Board, X: set<int>, p: int)
    requires 0 <= p < |b|
    ensures Zeroed(b, X + {p}) == Zeroed(b, X)[p := 0]
  {
    assert forall q :: 0 <= q < |b| ==> Zeroed(b, X + {p})[q] == Zeroed(b, X)[p := 0][q];
  }

  /** Emptying cells keeps the entries within 0..s. */
  lemma ZeroedRange(b: Board, X: set<int>, s: int)
    requires forall p :: 0 <= p < |b| ==> 0 <= b[p] <= s
    ensures forall p :: 0 <= p < |b| ==> 0 <= Zeroed(b, X)[p] <= s
  {
  }

  /** Emptying the cells of X leaves the filled cells outside X. */
  lemma ZeroedNonZero(b: Board, X: set<int>)
    ensures NonZero(Zeroed(b, X)) == NonZero(b) - X
  {
  }

  lemma ZeroedTwice(b: Board, X: set<int>, Y: set<int>)
    ensures Zeroed(Zeroed(b, X), Y) == Zeroed(b, X + Y)
  {}

  /** Emptying nonzero cells strictly lowers the number of nonzero cells: the
      blame rounds terminate. */
  lemma ZeroedShrinks(b: Board, X: set<int>)
    requires X != {} && X <= NonZero(b)
    ensures |NonZero(Zeroed(b, X))| < |NonZero(b)|
  {
    var z := NonZero(Zeroed(b, X));
    ZeroedNonZero(b, X);
    var x :| x in X;
    assert z < NonZero(b) by { assert x in NonZero(b) && x !in z; }
  }

  /** A board is conflict-free exactly when every cell's conflict count is 0. */
  lemma ConflictFreeIffZero(d: Dims, b: Board)
    requires d.Ok() && |b| == d.N()
    ensures ConflictFree(d, b) <==> forall p :: 0 <= p < |b| ==> ConflictCount(d, b, p) == 0
  {
    if ConflictFree(d, b) {
      forall p | 0 <= p < |b| ensures ConflictCount(d, b, p) == 0 {
        forall rcs | 0 <= rcs < 3 ensures KindConflicts(d, b, rcs, p) == 0 {
          FreeGroupNoConflicts(d, b, rcs, p);
        }
      }
    }
    if forall p :: 0 <= p < |b| ==> ConflictCount(d, b, p) == 0 {
      forall rcs, n | 0 <= rcs < 3 && 0 <= n < GroupCount(d, rcs) ensures GroupConflictFree(b, Group(d, rcs, n)) {
        var grp := Group(d, rcs, n);
        forall i, j | 0 <= i < |grp| && 0 <= j < |grp| && i != j && b[grp[i]] != 0
          ensures b[grp[i]] != b[grp[j]]
        {
          NoConflictsNoClash(d, b, rcs, n, i, j);
        }
      }
    }
  }

  /** An empty cell has no conflicts. */
  lemma EmptyCellNoConflicts(d: Dims, b: Board, p: int)
    requires d.Ok() && |b| == d.N() && 0 <= p < |b| && b[p] == 0
    ensures ConflictCount(d, b, p) == 0
  {
    forall rcs | 0 <= rcs < 3 ensures KindConflicts(d, b, rcs, p) == 0 {
      GroupWitness(d, rcs, p);
      var n :| 0 <= n < GroupCount(d, rcs) && p in Group(d, rcs, n);
      KindConflictsAt(d, b, rcs, n, p);
      MatchesZero(b, Group(d, rcs, n), p, 0, d.S());
    }
  }

  /** A board is conflict-free exactly when no filled cell has a conflict. */
  lemma ConflictFreeIffFilledZero(d: Dims, b: Board)
    requires d.Ok() && |b| == d.N()
    ensures ConflictFree(d, b) <==> forall p :: 0 <= p < |b| && b[p] != 0 ==> ConflictCount(d, b, p) == 0
  {
    ConflictFreeIffZero(d, b);
    forall p | 0 <= p < |b| && b[p] == 0 ensures ConflictCount(d, b, p) == 0 {
      EmptyCellNoConflicts(d, b, p);
    }
  }

  /** In a conflict-free board no cell conflicts within its group of kind rcs. */
  lemma FreeGroupNoConflicts(d: Dims, b: Board, rcs: int, p: int)
    requires d.Ok() && |b| == d.N() && 0 <= rcs < 3 && 0 <= p < |b| && ConflictFree(d, b)
    ensures KindConflicts(d, b, rcs, p) == 0
  {
    GroupWitness(d, rcs, p);
    var n :| 0 <= n < GroupCount(d, rcs) && p in Group(d, rcs, n);
    var grp := Group(d, rcs, n);
    KindConflictsAt(d, b, rcs, n, p);
    MatchesZero(b, grp, p, 0, d.S());
    var i :| 0 <= i < |grp| && grp[i] == p;
    assert GroupConflictFree(b, grp);
    forall t | 0 <= t < d.S() ensures !Clash(b, p, grp[t]) {
      if t != i {
        assert grp[t] != grp[i];
      }
    }
  }

  /** A cell with count 0 clashes with no other cell of its groups. */
  lemma NoConflictsNoClash(d: Dims, b: Board, rcs: int, n: int, i: int, j: int)
    requires d.Ok() && |b| == d.N() && 0 <= rcs < 3 && 0 <= n < GroupCount(d, rcs)
    requires 0 <= i < d.S() && 0 <= j < d.S() && i != j
    requires ConflictCount(d, b, Group(d, rcs, n)[i]) == 0
    ensures !Clash(b, Group(d, rcs, n)[i], Group(d, rcs, n)[j])
  {
    var grp := Group(d, rcs, n);
    var p := grp[i];
    KindConflictsAt(d, b, rcs, n, p);
    MatchesZero(b, grp, p, 0, d.S());
  }

  // ---------------------------------------------------------------- the counting loops

  /** What the pair loop over one group has added to cell grp[q] once its
      outer index has passed j: the clashes with later cells for every q
      below j, and the clashes with earlier cells below both q and j. */
  function Done(b: Board, grp: seq<int>, q: nat, j: nat): nat
    requires q < |grp| && j <= |grp| && forall t :: 0 <= t < |grp| ==> 0 <= grp[t] < |b|
  {
    (if q < j then MatchesBetween(b, grp, grp[q], q + 1, |grp|) else 0)
    + MatchesBetween(b, grp, grp[q], 0, if q < j then q else j)
  }

  /** The pair loops of one group (sudoku.cpp:149-160, 168-179, 194-209): for
      every pair j < k of equal nonzero entries, both cells' counts go up by
      one. Each cell of the group ends up with its clashes in the group added. */
  method AddGroupPairs(cc: array<int>, b: Board, grp: seq<int>)
    requires cc.Length == |b| && Distinct(grp) && forall t :: 0 <= t < |grp| ==> 0 <= grp[t] < |b|
    modifies cc
    ensures forall q :: 0 <= q < |grp| ==> cc[grp[q]] == old(cc[grp[q]]) + MatchesBetween(b, grp, grp[q], 0, |grp|)
    ensures forall p :: 0 <= p < cc.Length && p !in grp ==> cc[p] == old(cc[p])
  {
    var L := |grp|;
    var j := 0;
    while j < L
      invariant 0 <= j <= L
      invariant forall q :: 0 <= q < L ==> cc[grp[q]] == old(cc[grp[q]]) + Done(b, grp, q, j)
      invariant forall p :: 0 <= p < cc.Length && p !in grp ==> cc[p] == old(cc[p])
    {
      AddRound(cc, b, grp, j);
      forall q | 0 <= q < L ensures Done(b, grp, q, j) + Round(b, grp, q, j, L) == Done(b, grp, q, j + 1) {
        DoneStep(b, grp, q, j);
      }
      j := j + 1;
    }
    forall q | 0 <= q < L ensures Done(b, grp, q, L) == MatchesBetween(b, grp, grp[q], 0, L) {
      DoneEnd(b, grp, q);
    }
  }

  /** What round j of the outer pair loop adds to cell grp[q] once the inner
      index has reached k: the clashes of grp[j] with grp[j+1..k), and one for
      each later cell below k that clashes with grp[j]. */
  function Round(b: Board, grp: seq<int>, q: nat, j: nat, k: nat): nat
    requires q < |grp| && j < |grp| && j + 1 <= k <= |grp| && forall t :: 0 <= t < |grp| ==> 0 <= grp[t] < |b|
  {
    if q == j then MatchesBetween(b, grp, grp[j], j + 1, k)
    else if j < q < k && Clash(b, grp[q], grp[j]) then 1 else 0
  }

  /** The inner pair loop of round j (sudoku.cpp:151-159 and the like). */
  method AddRound(cc: array<int>, b: Board, grp: seq<int>, j: nat)
    requires cc.Length == |b| && Distinct(grp) && forall t :: 0 <= t < |grp| ==> 0 <= grp[t] < |b|
    requires j < |grp|
    modifies cc
    ensures forall q :: 0 <= q < |grp| ==> cc[grp[q]] == old(cc[grp[q]]) + Round(b, grp, q, j, |grp|)
    ensures forall p :: 0 <= p < cc.Length && p !in grp ==> cc[p] == old(cc[p])
  {
    var L := |grp|;
    var k := j + 1;
    while k < L
      invariant j + 1 <= k <= L
      invariant forall q :: 0 <= q < L ==> cc[grp[q]] == old(cc[grp[q]]) + Round(b, grp, q, j, k)
      invariant forall p :: 0 <= p < cc.Length && p !in grp ==> cc[p] == old(cc[p])
    {
      ghost var before := cc[..];
      ghost var inc := if Clash(b, grp[j], grp[k]) then 1 else 0;
      assert grp[j] != grp[k];
      if b[grp[j]] != 0 && b[grp[k]] != 0 {
        if b[grp[j]] == b[grp[k]] {
          cc[grp[j]] := cc[grp[j]] + 1;
          cc[grp[k]] := cc[grp[k]] + 1;
        }
      }
      forall q | 0 <= q < L
        ensures cc[grp[q]] == before[grp[q]] + (if q == j || q == k then inc else 0)
      {
        if q != j { assert grp[q] != grp[j]; }
        if q != k { assert grp[q] != grp[k]; }
      }
      forall q | 0 <= q < L
        ensures Round(b, grp, q, j, k + 1) == Round(b, grp, q, j, k) + (if q == j || q == k then inc else 0)
      {
        RoundStep(b, grp, q, j, k);
      }
      k := k + 1;
    }
  }

  /** One step of the inner pair loop: the pair (j, k) adds one to both of
      its cells when they clash. */
  lemma RoundStep(b: Board, grp: seq<int>, q: nat, j: nat, k: nat)
    requires q < |grp| && j < k < |grp| && Distinct(grp) && forall t :: 0 <= t < |grp| ==> 0 <= grp[t] < |b|
    ensures Round(b, grp, q, j, k + 1)
      == Round(b, grp, q, j, k) + (if q == j || q == k then (if Clash(b, grp[j], grp[k]) then 1 else 0) else 0)
  {
    assert grp[j] != grp[k];
  }

  /** One round of the outer pair loop moves Done from j to j + 1. */
  lemma DoneStep(b: Board, grp: seq<int>, q: nat, j: nat)
    requires q < |grp| && j < |grp| && Distinct(grp) && forall t :: 0 <= t < |grp| ==> 0 <= grp[t] < |b|
    ensures Done(b, grp, q, j) + Round(b, grp, q, j, |grp|) == Done(b, grp, q, j + 1)
  {
    if q > j {
      assert MatchesBetween(b, grp, grp[q], 0, j + 1)
        == MatchesBetween(b, grp, grp[q], 0, j) + (if Clash(b, grp[q], grp[j]) then 1 else 0);
    }
  }

  /** After the last round each cell has its clashes with every other cell. */
  lemma DoneEnd(b: Board, grp: seq<int>, q: nat)
    requires q < |grp| && Distinct(grp) && forall t :: 0 <= t < |grp| ==> 0 <= grp[t] < |b|
    ensures Done(b, grp, q, |grp|) == MatchesBetween(b, grp, grp[q], 0, |grp|)
  {
    MatchesSplit(b, grp, grp[q], 0, q, |grp|);
    MatchesSplit(b, grp, grp[q], q, q + 1, |grp|);
    assert !Clash(b, grp[q], grp[q]);
    assert MatchesBetween(b, grp, grp[q], q, q + 1) == 0;
  }

  /** The pair loops over every group of kind rcs (the loop over i in
      sudoku.cpp:144, 163 and 183): each cell gains its conflicts within its
      group of that kind. */
  method AddKind(d: Dims, cc: array<int>, b: Board, rcs: int, count: int)
    requires d.Ok() && |b| == d.N() && cc.Length == |b| && 0 <= rcs < 3 && count == GroupCount(d, rcs)
    modifies cc
    ensures forall p :: 0 <= p < cc.Length ==> cc[p] == old(cc[p]) + KindConflicts(d, b, rcs, p)
  {
    var i := 0;
    while i < count
      invariant 0 <= i <= count
      invariant forall p :: 0 <= p < cc.Length ==>
        cc[p] == old(cc[p]) + (if InFirstGroups(d, rcs, p, i) then KindConflicts(d, b, rcs, p) else 0)
    {
      var grp := Group(d, rcs, i);
      AddGroupPairs(cc, b, grp);
      forall p | 0 <= p < cc.Length
        ensures cc[p] == old(cc[p]) + (if InFirstGroups(d, rcs, p, i + 1) then KindConflicts(d, b, rcs, p) else 0)
      {
        if p in grp {
          InFirstGroupsIff(d, rcs, p, i, i);
          KindConflictsAt(d, b, rcs, i, p);
        }
      }
      i := i + 1;
    }
    forall p | 0 <= p < cc.Length ensures InFirstGroups(d, rcs, p, count) {
      GroupWitness(d, rcs, p);
      var n :| 0 <= n < GroupCount(d, rcs) && p in Group(d, rcs, n);
      InFirstGroupsIff(d, rcs, p, count, n);
    }
  }

  /** counts[p] is the number of conflicts of cell p. Facts quantified over
      cells are stated through this predicate, and used where a proof names
      it for a given cell. */
  ghost predicate CountOk(d: Dims, b: Board, counts: seq<int>, p: int)
    requires d.Ok() && |b| == d.N() && |counts| == |b| && 0 <= p < |b|
  {
    counts[p] == ConflictCount(d, b, p)
  }

  /** With the conflict counts in hand, the counts are nonnegative, and the
      board is conflict-free exactly when every filled cell counts 0. */
  lemma CountsZeroIffFree(d: Dims, b: Board, counts: seq<int>)
    requires d.Ok() && |b| == d.N() && |counts| == |b|
    requires forall p {:trigger CountOk(d, b, counts, p)} :: 0 <= p < |b| ==> CountOk(d, b, counts, p)
    ensures forall p :: 0 <= p < |b| ==> counts[p] >= 0
    ensures ConflictFree(d, b) <==> forall j :: 0 <= j < |b| && b[j] != 0 ==> counts[j] == 0
  {
    forall p | 0 <= p < |b| ensures counts[p] == ConflictCount(d, b, p) {
      assert CountOk(d, b, counts, p);
    }
    ConflictFreeIffFilledZero(d, b);
  }

  /** The conflict counts of a whole board (sudoku.cpp:132-134, 144-210):
      columns, then rows, then the NSH*NSV blocks. */
  method CountConflicts(d: Dims, b: Board) returns (counts: seq<int>)
    requires d.Ok() && |b| == d.N()
    ensures |counts| == |b|
    ensures forall p {:trigger CountOk(d, b, counts, p)} :: 0 <= p < |b| ==> CountOk(d, b, counts, p)
  {
    SquareShape(d);
    var cc := new int[|b|](_ => 0);
    AddKind(d, cc, b, 1, d.C());
    AddKind(d, cc, b, 0, d.R());
    AddKind(d, cc, b, 2, d.nsh * d.nsv);
    counts := cc[..];
  }

  // ---------------------------------------------------------------- the blame rule

  /** Cell p is a cell the blame rule may pick for its entry: its count is
      positive and the largest among the cells with that entry, and it lies
      outside given whenever a cell outside given ties with it. */
  predicate BlameOk(b: Board, counts: seq<int>, given: set<int>, p: int)
    requires |counts| == |b|
  {
    0 <= p < |b| && counts[p] > 0
    && (forall j :: 0 <= j < |b| && b[j] == b[p] ==> counts[j] <= counts[p])
    && ((exists j :: 0 <= j < |b| && b[j] == b[p] && counts[j] == counts[p] && j !in given) ==> p !in given)
  }

  /** The cell blamed for value v (sudoku.cpp:216-234): among the cells
      holding v, one with the largest positive count, a cell outside given
      winning any tie it takes part in after the first maximum; -1 when every
      cell holding v has count 0. */
  method PickBlame(b: Board, counts: seq<int>, given: set<int>, v: int) returns (pos: int)
    requires |counts| == |b| && forall p :: 0 <= p < |counts| ==> counts[p] >= 0
    ensures pos == -1 <==> forall j :: 0 <= j < |b| && b[j] == v ==> counts[j] == 0
    ensures pos != -1 ==> 0 <= pos < |b| && b[pos] == v && counts[pos] > 0
    ensures pos != -1 ==> forall j :: 0 <= j < |b| && b[j] == v ==> counts[j] <= counts[pos]
    ensures pos != -1 && (exists j :: 0 <= j < |b| && b[j] == v && counts[j] == counts[pos] && j !in given)
      ==> pos !in given
  {
    var min, j := 0, 0;
    pos := -1;
    while j < |b|
      invariant 0 <= j <= |b|
      invariant pos == -1 ==> min == 0 && forall j' :: 0 <= j' < j && b[j'] == v ==> counts[j'] == 0
      invariant pos != -1 ==> 0 <= pos < j && b[pos] == v && counts[pos] == min > 0
      invariant forall j' :: 0 <= j' < j && b[j'] == v ==> counts[j'] <= min
      invariant pos != -1 && (exists j' :: 0 <= j' < j && b[j'] == v && counts[j'] == min && j' !in given)
        ==> pos !in given
    {
      if b[j] == v {
        if counts[j] > min {
          min := counts[j];
          pos := j;
        } else if counts[j] == min && min > 0 {
          if j !in given {
            pos := j;
          }
        }
      }
      j := j + 1;
    }
  }

  /** The cells a blame loop has picked, given what it picked for each
      value in turn (-1 for none). */
  function Picked(who: seq<int>): set<int>
    decreases |who|
  {
    if who == [] then {}
    else if who[|who| - 1] == -1 then Picked(who[..|who| - 1])
    else Picked(who[..|who| - 1]) + {who[|who| - 1]}
  }

  /** The picked cells are the entries of who other than -1. */
  lemma {:induction false} PickedMember(who: seq<int>, p: int)
    ensures p in Picked(who) <==> p != -1 && exists v :: 0 <= v < |who| && who[v] == p
    decreases |who|
  {
    if who != [] {
      var w := who[..|who| - 1];
      PickedMember(w, p);
      if p != -1 && exists v :: 0 <= v < |who| && who[v] == p {
        var v :| 0 <= v < |who| && who[v] == p;
        if v < |w| {
          assert w[v] == p;
        }
      }
      if p != -1 && exists v :: 0 <= v < |w| && w[v] == p {
        var v :| 0 <= v < |w| && w[v] == p;
        assert who[v] == p;
      }
    }
  }

  /** What the blame loop records for value v: -1 exactly when every cell
      holding v has count 0, else a cell holding v that the rule allows. */
  predicate Blamed(b: Board, counts: seq<int>, given: set<int>, v: int, pos: int)
    requires |counts| == |b|
  {
    (pos == -1 <==> forall j :: 0 <= j < |b| && b[j] == v ==> counts[j] == 0)
    && (pos != -1 ==> 0 <= pos < |b| && b[pos] == v && BlameOk(b, counts, given, pos))
  }

  /** Once every value 1..s has a record, with the entries in 0..s: the
      picked cells are filled cells the rule allows, at most one per entry,
      every entry held by a conflicting cell has one, and nothing is picked
      exactly when no filled cell has a conflict. */
  lemma BlamedFacts(b: Board, counts: seq<int>, given: set<int>, who: seq<int>, s: int)
    requires |counts| == |b| && |who| == s && forall p :: 0 <= p < |b| ==> 0 <= b[p] <= s
    requires forall v :: 0 <= v < s ==> Blamed(b, counts, given, v + 1, who[v])
    ensures Picked(who) <= NonZero(b)
    ensures forall p :: p in Picked(who) ==> BlameOk(b, counts, given, p)
    ensures forall p, q :: p in Picked(who) && q in Picked(who) && b[p] == b[q] ==> p == q
    ensures forall j :: 0 <= j < |b| && b[j] != 0 && counts[j] > 0 ==> exists p :: p in Picked(who) && b[p] == b[j]
    ensures Picked(who) == {} <==> forall j :: 0 <= j < |b| && b[j] != 0 ==> counts[j] == 0
  {
    PickedCells(b, counts, given, who, s);
    PickedCover(b, counts, given, who, s);
    if forall j :: 0 <= j < |b| && b[j] != 0 ==> counts[j] == 0 {
      assert forall p :: p !in Picked(who);
    }
    if Picked(who) == {} {
      forall j | 0 <= j < |b| && b[j] != 0
        ensures counts[j] == 0
      {
        if counts[j] != 0 {
          var v := b[j] - 1;
          assert Blamed(b, counts, given, v + 1, who[v]);
          PickedMember(who, who[v]);
        }
      }
    }
  }

  /** Each picked cell is a filled cell the rule allows, and the record for
      its own entry. */
  lemma PickedCells(b: Board, counts: seq<int>, given: set<int>, who: seq<int>, s: int)
    requires |counts| == |b| && |who| == s
    requires forall v :: 0 <= v < s ==> Blamed(b, counts, given, v + 1, who[v])
    ensures forall p :: p in Picked(who) ==>
      (0 <= p < |b| && 1 <= b[p] <= s && who[b[p] - 1] == p && BlameOk(b, counts, given, p))
  {
    forall p | p in Picked(who)
      ensures 0 <= p < |b| && 1 <= b[p] <= s && who[b[p] - 1] == p && BlameOk(b, counts, given, p)
    {
      PickedMember(who, p);
      var v :| 0 <= v < |who| && who[v] == p;
      assert Blamed(b, counts, given, v + 1, who[v]);
    }
  }

  /** Every entry held by a conflicting cell has a picked cell holding it. */
  lemma PickedCover(b: Board, counts: seq<int>, given: set<int>, who: seq<int>, s: int)
    requires |counts| == |b| && |who| == s && forall p :: 0 <= p < |b| ==> 0 <= b[p] <= s
    requires forall v :: 0 <= v < s ==> Blamed(b, counts, given, v + 1, who[v])
    ensures forall j :: 0 <= j < |b| && b[j] != 0 && counts[j] > 0 ==>
      (0 <= who[b[j] - 1] < |b| && who[b[j] - 1] in Picked(who) && b[who[b[j] - 1]] == b[j])
  {
    forall j | 0 <= j < |b| && b[j] != 0 && counts[j] > 0
      ensures 0 <= who[b[j] - 1] < |b| && who[b[j] - 1] in Picked(who) && b[who[b[j] - 1]] == b[j]
    {
      var v := b[j] - 1;
      assert Blamed(b, counts, given, v + 1, who[v]);
      PickedMember(who, who[v]);
    }
  }
  // ---------------------------------------------------------------- the rounds

  /** One round of findBadNodes_private on board b: counts holds every
      cell's conflict count, and the cells blamed are filled cells the blame
      rule allows, at most one per entry, with one for every entry held by a
      conflicting cell. */
  ghost predicate RoundOk(d: Dims, b: Board, given: set<int>, now: set<int>, counts: seq<int>)
    requires d.Ok() && |b| == d.N()
  {
    |counts| == |b| && now <= NonZero(b)
    && (forall p {:trigger CountOk(d, b, counts, p)} :: 0 <= p < |b| ==> CountOk(d, b, counts, p))
    && (forall p {:trigger BlameOk(b, counts, given, p)} :: p in now ==> BlameOk(b, counts, given, p))
    && (forall p, q :: p in now && q in now && b[p] == b[q] ==> p == q)
    && (forall j :: 0 <= j < |b| && b[j] != 0 && counts[j] > 0 ==> exists p :: p in now && b[p] == b[j])
  }

  /** The rounds of findBadNodes_private from board b, with the counts each
      round measured: while the board has a conflict, a round blames a
      nonempty set of cells by RoundOk and the next round works on the board
      with those cells emptied; after the last round the board is
      conflict-free. */
  ghost predicate BlameChain(d: Dims, b: Board, given: set<int>, rounds: seq<set<int>>, counts: seq<seq<int>>)
    requires d.Ok() && |b| == d.N()
    decreases |rounds|
  {
    |counts| == |rounds| &&
    if rounds == [] then ConflictFree(d, b)
    else
      rounds[0] != {} && !ConflictFree(d, b) && RoundOk(d, b, given, rounds[0], counts[0])
      && BlameChain(d, Zeroed(b, rounds[0]), given, rounds[1..], counts[1..])
  }

  /** Every cell blamed over the rounds. */
  function Union(rounds: seq<set<int>>): set<int>
  {
    if rounds == [] then {} else rounds[0] + Union(rounds[1..])
  }

  /** A round on a board with a conflict, followed by the rounds on the board
      without the cells it blamed, is a chain of rounds from that board. */
  lemma ChainCons(d: Dims, b: Board, given: set<int>, now: set<int>, cnt: seq<int>,
                  later: seq<set<int>>, laterCounts: seq<seq<int>>)
    requires d.Ok() && |b| == d.N() && now != {} && !ConflictFree(d, b)
    requires RoundOk(d, b, given, now, cnt) && BlameChain(d, Zeroed(b, now), given, later, laterCounts)
    ensures BlameChain(d, b, given, [now] + later, [cnt] + laterCounts)
    ensures Union([now] + later) == now + Union(later)
  {
    assert ([now] + later)[1..] == later && ([cnt] + laterCounts)[1..] == laterCounts;
  }

  /** A board with at most one filled cell has no conflict. */
  lemma SingleFilledFree(d: Dims, b: Board, p: int)
    requires d.Ok() && |b| == d.N() && NonZero(b) <= {p}
    ensures ConflictFree(d, b)
  {
    forall rcs, n | 0 <= rcs < 3 && 0 <= n < GroupCount(d, rcs) ensures GroupConflictFree(b, Group(d, rcs, n)) {
      var grp := Group(d, rcs, n);
      forall i, j | 0 <= i < |grp| && 0 <= j < |grp| && i != j && b[grp[i]] != 0 ensures b[grp[i]] != b[grp[j]] {
        assert grp[i] in NonZero(b) && grp[i] != grp[j];
        assert grp[j] !in NonZero(b);
      }
    }
  }

  /** Two filled cells p and q of one column with the same entry clash. */
  lemma ColumnPairClash(d: Dims, b: Board, p: int, q: int)
    requires d.Ok() && |b| == d.N() && 0 <= p < |b| && 0 <= q < |b| && p != q
    requires b[p] != 0 && b[p] == b[q] && p % d.C() == q % d.C()
    ensures !ConflictFree(d, b)
  {
    SquareShape(d);
    var n := p % d.C();
    GroupMembership(d, 1, n, p);
    GroupMembership(d, 1, n, q);
    var grp := Group(d, 1, n);
    var i :| 0 <= i < |grp| && grp[i] == p;
    var j :| 0 <= j < |grp| && grp[j] == q;
    assert !GroupConflictFree(b, grp);
  }

  /** Two cells of one column holding the same value, and no other filled
      cell: the rounds blame exactly one of the two, whichever the tie scan
      lands on, in a single round. */
  lemma ColumnPairBlame(d: Dims, b: Board, given: set<int>, rounds: seq<set<int>>, counts: seq<seq<int>>, p: int, q: int)
    requires d.Ok() && |b| == d.N() && 0 <= p < |b| && 0 <= q < |b| && p != q
    requires NonZero(b) == {p, q} && b[p] == b[q] && p % d.C() == q % d.C()
    requires BlameChain(d, b, given, rounds, counts)
    ensures |rounds| == 1 && (Union(rounds) == {p} || Union(rounds) == {q})
  {
    assert p in NonZero(b);
    ColumnPairClash(d, b, p, q);
    var now := rounds[0];
    assert now == {p} || now == {q} by {
      assert RoundOk(d, b, given, now, counts[0]);
      var x :| x in now;
      if x == p { assert q !in now; } else { assert x == q && p !in now; }
    }
    var z := Zeroed(b, now);
    ZeroedNonZero(b, now);
    SingleFilledFree(d, z, if now == {p} then q else p);
    assert rounds[1..] == [] by {
      assert BlameChain(d, z, given, rounds[1..], counts[1..]);
    }
    assert Union(rounds) == now + Union(rounds[1..]);
  }
}
