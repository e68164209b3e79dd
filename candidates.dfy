/** Cells as candidate sets, grids as sequences of cells (the `Node` and `Grid`
    typedefs of sudoku.h:6-7), refinement between grids, the measure that
    bounds the search, and the set of solutions a grid admits. */
module Candidates {
  import opened Geometry

  /** A cell: the symbols still possible there. Size 1 means fixed. */
  type Cell = set<int>

  /** The cells of a board in flat index order. */
  type Grid = seq<Cell>

  /** {1..s}: the candidate set of an empty cell, as the constructors build
      it from the numbers 1..S. */
  function Full(s: nat): (r: set<int>)
    ensures forall v :: v in r <==> 1 <= v <= s
    ensures |r| == s
  {
    if s == 0 then {}
    else
      var f := Full(s - 1);
      assert s !in f;
      f + {s}
  }

  /** The value of a fixed cell (what `*node.begin()` reads off a singleton). */
  function TheValue(c: Cell): (r: int)
    requires |c| == 1
    ensures c == {r}
  {
    HasElement(c);
    var x :| x in c;
    assert c - {x} == {} by { assert |c - {x}| == 0; }
    x
  }

  lemma HasElement(c: Cell)
    requires |c| == 1
    ensures exists x :: x in c
  {
    if forall x :: x !in c { assert false; }
  }

  lemma SubsetCard(a: set<int>, b: set<int>)
    requires a <= b
    ensures |a| <= |b|
  {
    assert b == a + (b - a);
    assert a * (b - a) == {};
  }

  /** A cell drawn from {1..s} has at most s candidates. */
  lemma CellBound(c: Cell, s: nat)
    requires c <= Full(s)
    ensures |c| <= s
  {
    SubsetCard(c, Full(s));
  }

  /** N cells, each drawn from {1..S}. */
  predicate WellFormed(d: Dims, g: Grid)
  {
    |g| == d.N() && forall p :: 0 <= p < |g| ==> g[p] <= Full(d.S())
  }

  /** Grid a is grid b with some candidates removed. */
  predicate Refines(a: Grid, b: Grid)
  {
    |a| == |b| && forall p :: 0 <= p < |a| ==> a[p] <= b[p]
  }

  /** If a refines b and b refines c, a refines c. */
  lemma RefinesTrans(a: Grid, b: Grid, c: Grid)
    requires Refines(a, b) && Refines(b, c)
    ensures Refines(a, c)
  {}

  /** a <= b <= a forces b == a: a sweep that ends where it began changed nothing in between. */
  lemma RefinesSandwich(a: Grid, b: Grid, c: Grid)
    requires Refines(a, b) && Refines(b, c) && a == c
    ensures b == c
  {
    assert |b| == |c|;
    forall p | 0 <= p < |b| ensures b[p] == c[p] { }
  }

  /** The total number of candidates: the search's termination measure. */
  function Total(g: Grid): nat
  {
    if g == [] then 0 else |g[0]| + Total(g[1..])
  }

  /** Refinement never increases the total, and a proper refinement decreases it. */
  lemma {:induction false} RefinesTotal(a: Grid, b: Grid)
    requires Refines(a, b)
    ensures Total(a) <= Total(b)
    ensures a != b ==> Total(a) < Total(b)
  {
    if a != [] {
      SubsetCard(a[0], b[0]);
      assert Refines(a[1..], b[1..]);
      RefinesTotal(a[1..], b[1..]);
      if a[0] != b[0] {
        assert a[0] < b[0];
        SubsetCard(b[0] - a[0], b[0]);
        assert b[0] == a[0] + (b[0] - a[0]);
        assert |b[0] - a[0]| > 0;
      } else if a != b {
        assert a == [a[0]] + a[1..];
        assert b == [b[0]] + b[1..];
        assert a[1..] != b[1..];
      }
    }
  }

  /** Replacing one cell changes the total by the difference in its size. */
  lemma {:induction false} TotalUpdate(g: Grid, k: int, c: Cell)
    requires 0 <= k < |g|
    ensures Total(g[k := c]) == Total(g) - |g[k]| + |c|
  {
    if k == 0 {
      assert g[k := c][1..] == g[1..];
    } else {
      assert g[k := c][1..] == g[1..][k - 1 := c];
      TotalUpdate(g[1..], k - 1, c);
    }
  }

  // ---------------------------------------------------------------- solutions

  /** Every way of picking one candidate per cell. */
  ghost function Assignments(g: Grid): set<seq<int>>
    decreases |g|
  {
    if g == [] then {[]}
    else set x, t | x in g[0] && t in Assignments(g[1..]) :: [x] + t
  }

  /** s is an assignment of g iff it picks, cell by cell, one of g's candidates. */
  lemma {:induction false} AssignmentsMember(g: Grid, s: seq<int>)
    ensures s in Assignments(g) <==> |s| == |g| && forall p :: 0 <= p < |s| ==> s[p] in g[p]
    decreases |g|
  {
    if g != [] && s != [] {
      AssignmentsMember(g[1..], s[1..]);
      if s in Assignments(g) {
        var x, t :| x in g[0] && t in Assignments(g[1..]) && s == [x] + t;
        assert t == s[1..];
      }
      if |s| == |g| && forall p :: 0 <= p < |s| ==> s[p] in g[p] {
        assert forall p :: 0 <= p < |s[1..]| ==> s[1..][p] in g[1..][p] by {
          forall p | 0 <= p < |s[1..]| ensures s[1..][p] in g[1..][p] {
            assert s[1..][p] == s[p + 1];
          }
        }
        var x, t := s[0], s[1..];
        assert x in g[0] && t in Assignments(g[1..]) && [x] + t == s;
      }
    }
  }

  /** No two cells of group g carry equal entries in s. */
  predicate DistinctOn<T(==)>(s: seq<T>, g: seq<int>)
  {
    forall i, j :: 0 <= i < |g| && 0 <= j < |g| && i != j && 0 <= g[i] < |s| && 0 <= g[j] < |s|
      ==> s[g[i]] != s[g[j]]
  }

  /** A completed board: one symbol of {1..S} per cell, no symbol twice in a
      row, column or block. */
  ghost predicate IsSolution(d: Dims, s: seq<int>)
  {
    d.Ok() && |s| == d.N() && (forall p :: 0 <= p < |s| ==> 1 <= s[p] <= d.S())
    && forall rcs, n :: 0 <= rcs < 3 && 0 <= n < GroupCount(d, rcs) ==> DistinctOn(s, Group(d, rcs, n))
  }

  /** The solutions consistent with the candidates of g. */
  ghost function Sols(d: Dims, g: Grid): set<seq<int>>
  {
    set s | s in Assignments(g) && IsSolution(d, s)
  }

  /** A grid of singletons with no value twice in any group. */
  predicate Solved(d: Dims, g: Grid)
  {
    d.Ok() && WellFormed(d, g) && (forall p :: 0 <= p < |g| ==> |g[p]| == 1)
    && forall rcs, n :: 0 <= rcs < 3 && 0 <= n < GroupCount(d, rcs) ==> DistinctOn(g, Group(d, rcs, n))
  }

  /** The values of a grid of singletons. */
  function Values(g: Grid): (s: seq<int>)
    requires forall p :: 0 <= p < |g| ==> |g[p]| == 1
    ensures |s| == |g| && forall p :: 0 <= p < |g| ==> g[p] == {s[p]}
  {
    seq(|g|, p requires 0 <= p < |g| => TheValue(g[p]))
  }

  /** A solved grid describes exactly one solution: its own values. */
  lemma SolvedSols(d: Dims, g: Grid)
    requires Solved(d, g)
    ensures Sols(d, g) == {Values(g)}
  {
    var v := Values(g);
    AssignmentsMember(g, v);
    forall rcs, n | 0 <= rcs < 3 && 0 <= n < GroupCount(d, rcs)
      ensures DistinctOn(v, Group(d, rcs, n))
    {
      assert DistinctOn(g, Group(d, rcs, n));
    }
    forall p | 0 <= p < |v| ensures 1 <= v[p] <= d.S() {
      assert v[p] in g[p];
    }
    assert IsSolution(d, v);
    forall s | s in Sols(d, g) ensures s == v {
      AssignmentsMember(g, s);
      assert forall p :: 0 <= p < |s| ==> s[p] == v[p];
    }
  }

  /** A solved refinement of b names a solution of b. */
  lemma SolvedWitness(d: Dims, a: Grid, b: Grid)
    requires Solved(d, a) && Refines(a, b)
    ensures Values(a) in Sols(d, b)
  {
    SolvedSols(d, a);
    SolsRefines(d, a, b);
  }

  lemma SolsTrans(d: Dims, a: Grid, b: Grid, c: Grid)
    requires Sols(d, a) == Sols(d, b) && Sols(d, b) == Sols(d, c)
    ensures Sols(d, a) == Sols(d, c)
  {}

  /** Removing candidates can only remove solutions. */
  lemma SolsRefines(d: Dims, a: Grid, b: Grid)
    requires Refines(a, b)
    ensures Sols(d, a) <= Sols(d, b)
  {
    forall s | s in Sols(d, a) ensures s in Sols(d, b) {
      AssignmentsMember(a, s);
      AssignmentsMember(b, s);
    }
  }

  /** A grid with an empty cell has no solution. */
  lemma EmptyCellNoSols(d: Dims, g: Grid, k: int)
    requires 0 <= k < |g| && g[k] == {}
    ensures Sols(d, g) == {}
  {
    forall s | s in Sols(d, g) ensures false {
      AssignmentsMember(g, s);
    }
  }

  /** Membership in Sols, cell by cell. */
  lemma SolsMember(d: Dims, g: Grid, s: seq<int>)
    ensures s in Sols(d, g) <==> IsSolution(d, s) && |s| == |g| && forall p :: 0 <= p < |s| ==> s[p] in g[p]
  {
    AssignmentsMember(g, s);
  }

  /** One assignment s, with cell k drawn from A + B, A or B. */
  lemma SplitOne(d: Dims, g: Grid, k: int, A: Cell, B: Cell, s: seq<int>)
    requires 0 <= k < |g|
    ensures s in Sols(d, g[k := A + B]) <==> s in Sols(d, g[k := A]) || s in Sols(d, g[k := B])
    ensures s in Sols(d, g[k := A]) && s in Sols(d, g[k := B]) ==> k < |s| && s[k] in A * B
  {
    SolsMember(d, g[k := A + B], s);
    SolsMember(d, g[k := A], s);
    SolsMember(d, g[k := B], s);
  }

  /** The solutions of g with cell k drawn from A + B are those with it drawn
      from A together with those with it drawn from B; disjoint A and B give
      disjoint solution sets. */
  lemma SplitCell(d: Dims, g: Grid, k: int, A: Cell, B: Cell)
    requires 0 <= k < |g|
    ensures Sols(d, g[k := A + B]) == Sols(d, g[k := A]) + Sols(d, g[k := B])
    ensures A !! B ==> Sols(d, g[k := A]) !! Sols(d, g[k := B])
  {
    var su, sa, sb := Sols(d, g[k := A + B]), Sols(d, g[k := A]), Sols(d, g[k := B]);
    forall s | s in su + sa + sb ensures s in su <==> s in sa + sb {
      SplitOne(d, g, k, A, B, s);
    }
    if A !! B {
      forall s | s in sa ensures s !in sb {
        SplitOne(d, g, k, A, B, s);
      }
    }
  }

  /** Counting form of SplitCell: adding a fresh candidate v to cell k adds
      the solutions that put v there. */
  lemma SplitCount(d: Dims, g: Grid, k: int, A: Cell, v: int)
    requires 0 <= k < |g| && v !in A
    ensures |Sols(d, g[k := A + {v}])| == |Sols(d, g[k := A])| + |Sols(d, g[k := {v}])|
  {
    SplitCell(d, g, k, A, {v});
  }

  // ---------------------------------------------------------------- pigeonhole

  /** A sequence without repetitions has as many distinct elements as entries. */
  lemma {:induction false} DistinctCard(vals: seq<int>)
    requires Distinct(vals)
    ensures |set x | x in vals| == |vals|
  {
    if vals != [] {
      var init := vals[..|vals| - 1];
      var last := vals[|vals| - 1];
      assert Distinct(init);
      DistinctCard(init);
      assert (set x | x in vals) == (set x | x in init) + {last};
      assert last !in init;
    }
  }

  /** S distinct symbols of {1..S} use every symbol. */
  lemma Pigeonhole(vals: seq<int>, S: nat, v: int)
    requires |vals| == S && Distinct(vals) && forall j :: 0 <= j < |vals| ==> 1 <= vals[j] <= S
    requires 1 <= v <= S
    ensures v in vals
  {
    var used := set x | x in vals;
    DistinctCard(vals);
    assert used <= Full(S);
    SubsetCard(Full(S) - used, Full(S));
    assert Full(S) == used + (Full(S) - used);
    assert v in Full(S);
  }

  /** In a solution every symbol occurs in every group. */
  lemma SolutionCovers(d: Dims, s: seq<int>, rcs: int, n: int, v: int)
    requires IsSolution(d, s) && 0 <= rcs < 3 && 0 <= n < GroupCount(d, rcs)
    requires 1 <= v <= d.S()
    ensures exists j :: 0 <= j < d.S() && s[Group(d, rcs, n)[j]] == v
  {
    var g := Group(d, rcs, n);
    var vals := seq(|g|, j requires 0 <= j < |g| => s[g[j]]);
    assert DistinctOn(s, g);
    assert Distinct(vals);
    Pigeonhole(vals, d.S(), v);
    var j :| 0 <= j < |vals| && vals[j] == v;
    assert s[g[j]] == v;
  }
}
