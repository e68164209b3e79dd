/** Board dimensions and the three group views of the grid: rows, columns and
    blocks, as sequences of flat cell indices (index = row * C + column). */
module Geometry {

  /** The four block dimensions of a board: sr rows per block (dim1), sc
      columns per block (dim2), nsv blocks stacked vertically (dim3) and nsh
      blocks across (dim4). */
  datatype Dims = Dims(sr: nat, sc: nat, nsv: nat, nsh: nat)
  {
    /** Number of symbols, and number of cells in one block. */
    function S(): nat { sr * sc }
    /** Number of grid rows. */
    function R(): nat { sr * nsv }
    /** Number of grid columns. */
    function C(): nat { sc * nsh }
    /** Number of cells, computed as the constructors do. */
    function N(): nat { sr * sc * nsv * nsh }

    /** Positive dimensions and a square grid: with nsv == sc and nsh == sr,
        R == C == S, so every row, column and block holds S cells and a
        solution puts each of 1..S once in each of them. */
    predicate Ok() { sr > 0 && sc > 0 && nsv == sc && nsh == sr }
  }

  /** No index occurs twice. */
  predicate Distinct(r: seq<int>)
  {
    forall i, j :: 0 <= i < |r| && 0 <= j < |r| && i != j ==> r[i] != r[j]
  }

  // ---------------------------------------------------------------- arithmetic

  lemma MulNonneg(a: int, m: int)
    requires a >= 0 && m >= 0
    ensures a * m >= 0
  {}

  /** a < b implies a*m + m <= b*m. */
  lemma MulMono(a: int, b: int, m: int)
    requires m > 0 && a < b
    ensures a * m + m <= b * m
  {
    MulNonneg(b - a - 1, m);
    assert (b - a - 1) * m == b * m - a * m - m;
  }

  /** x is its quotient times m plus its remainder. */
  lemma DivMod(x: int, m: int)
    requires m > 0
    ensures x == (x / m) * m + x % m && 0 <= x % m < m
  {
  }

  /** Euclidean division is unique. */
  lemma DivModUnique(x: int, m: int, q: int, r: int)
    requires m > 0 && 0 <= r < m && x == q * m + r
    ensures x / m == q && x % m == r
  {
    var q', r' := x / m, x % m;
    assert x == q' * m + r';
    if q < q' { MulMono(q, q', m); assert false; }
    if q' < q { MulMono(q', q, m); assert false; }
  }

  /** A number below k*m has quotient below k. */
  lemma DivBound(x: int, m: int, k: int)
    requires m > 0 && 0 <= x < k * m
    ensures 0 <= x / m < k
  {
    assert x == (x / m) * m + x % m;
    if x / m >= k {
      if x / m > k { MulMono(k, x / m, m); }
      assert false;
    }
    if x / m < 0 { MulMono(x / m, 0, m); assert false; }
  }

  /** row * C + col with col < C determines row and col. */
  lemma IndexUnique(row: int, col: int, row': int, col': int, c: int)
    requires c > 0 && 0 <= col < c && 0 <= col' < c
    requires row * c + col == row' * c + col'
    ensures row == row' && col == col'
  {
    DivModUnique(row * c + col, c, row, col);
    DivModUnique(row' * c + col', c, row', col');
  }

  /** A cell index built from a row below R and a column below C is below N. */
  lemma IndexBound(d: Dims, row: int, col: int)
    requires d.Ok() && 0 <= row < d.R() && 0 <= col < d.C()
    ensures 0 <= row * d.C() + col < d.N()
  {
    SquareShape(d);
    MulNonneg(row, d.C());
    MulMono(row, d.R(), d.C());
  }

  /** Under the square precondition every group has S cells and N == S*S. */
  lemma SquareShape(d: Dims)
    requires d.Ok()
    ensures d.R() == d.S() && d.C() == d.S() && d.S() > 0
    ensures d.N() == d.R() * d.C() && d.N() == d.S() * d.S()
  {
    assert d.S() == d.sr * d.sc;
    MulMono(0, d.sc, d.sr);
    assert d.N() == (d.sr * d.sc) * (d.sc * d.sr);
  }

  // ---------------------------------------------------------------- views

  /** Row n: cells n*C + i for i < C (sudoku.cpp:257-265). */
  function RowIndices(d: Dims, n: int): (r: seq<int>)
    requires d.Ok() && 0 <= n < d.R()
    ensures |r| == d.C()
  {
    seq(d.C(), i => n * d.C() + i)
  }

  /** Column n: cells i*C + n for i < R (sudoku.cpp:267-275). */
  function ColumnIndices(d: Dims, n: int): (r: seq<int>)
    requires d.Ok() && 0 <= n < d.C()
    ensures |r| == d.R()
  {
    seq(d.R(), i => i * d.C() + n)
  }

  /** Block n: the sr-by-sc block whose top-left cell is at row (n / nsh)*sr
      and column (n % nsh)*sc, read row by row (sudoku.cpp:277-289). */
  function BlockIndices(d: Dims, n: int): (r: seq<int>)
    requires d.Ok() && 0 <= n < d.S()
    ensures |r| == d.S()
  {
    seq(d.S(), i => ((n / d.nsh) * d.sr + i / d.sc) * d.C() + (n % d.nsh) * d.sc + i % d.sc)
  }

  /** The row, column and block counts the sweep at sudoku.cpp:447-450 uses
      for its three kinds: rcs 0 = rows (R), 1 = columns (C), 2 = blocks (S). */
  function GroupCount(d: Dims, rcs: int): nat
    requires 0 <= rcs < 3
  {
    if rcs == 0 then d.R() else if rcs == 1 then d.C() else d.S()
  }

  /** The group of kind rcs and number n, as GroupCheck selects it
      (sudoku.cpp:308-324): S distinct indices, all cells of the grid. */
  function Group(d: Dims, rcs: int, n: int): (r: seq<int>)
    requires d.Ok() && 0 <= rcs < 3 && 0 <= n < GroupCount(d, rcs)
    ensures |r| == d.S()
    ensures forall i :: 0 <= i < |r| ==> 0 <= r[i] < d.N()
    ensures Distinct(r)
  {
    SquareShape(d);
    if rcs == 0 then RowShape(d, n); RowIndices(d, n)
    else if rcs == 1 then ColumnShape(d, n); ColumnIndices(d, n)
    else BlockShape(d, n); BlockIndices(d, n)
  }

  /** Row n holds C distinct cells of the grid. */
  lemma RowShape(d: Dims, n: int)
    requires d.Ok() && 0 <= n < d.R()
    ensures forall i :: 0 <= i < d.C() ==> 0 <= RowIndices(d, n)[i] < d.N()
    ensures Distinct(RowIndices(d, n))
  {
    forall i | 0 <= i < d.C() ensures 0 <= RowIndices(d, n)[i] < d.N() {
      IndexBound(d, n, i);
    }
  }

  /** Column n holds R distinct cells of the grid. */
  lemma ColumnShape(d: Dims, n: int)
    requires d.Ok() && 0 <= n < d.C()
    ensures forall i :: 0 <= i < d.R() ==> 0 <= ColumnIndices(d, n)[i] < d.N()
    ensures Distinct(ColumnIndices(d, n))
  {
    var r := ColumnIndices(d, n);
    forall i | 0 <= i < d.R() ensures 0 <= r[i] < d.N() {
      IndexBound(d, i, n);
    }
    forall i, j | 0 <= i < |r| && 0 <= j < |r| && i != j ensures r[i] != r[j] {
      if r[i] == r[j] { IndexUnique(i, n, j, n, d.C()); }
    }
  }

  /** The block row and block column of offset i inside block n. */
  lemma BlockCell(d: Dims, n: int, i: int)
    requires d.Ok() && 0 <= n < d.S() && 0 <= i < d.S()
    ensures 0 <= (n / d.nsh) * d.sr + i / d.sc < d.R()
    ensures 0 <= (n % d.nsh) * d.sc + i % d.sc < d.C()
  {
    SquareShape(d);
    DivBound(n, d.nsh, d.nsv);
    DivBound(i, d.sc, d.sr);
    MulNonneg(n / d.nsh, d.sr);
    MulMono(n / d.nsh, d.nsv, d.sr);
    MulNonneg(n % d.nsh, d.sc);
    MulMono(n % d.nsh, d.nsh, d.sc);
  }

  /** Block n holds S distinct cells of the grid. */
  lemma BlockShape(d: Dims, n: int)
    requires d.Ok() && 0 <= n < d.S()
    ensures forall i :: 0 <= i < d.S() ==> 0 <= BlockIndices(d, n)[i] < d.N()
    ensures Distinct(BlockIndices(d, n))
  {
    var r := BlockIndices(d, n);
    var a, b := (n / d.nsh) * d.sr, (n % d.nsh) * d.sc;
    forall i | 0 <= i < d.S() ensures 0 <= r[i] < d.N() {
      BlockCell(d, n, i);
      IndexBound(d, a + i / d.sc, b + i % d.sc);
    }
    forall i, j | 0 <= i < |r| && 0 <= j < |r| && i != j ensures r[i] != r[j] {
      BlockCellsDiffer(d, n, i, j);
    }
  }

  /** Two different offsets of block n name different cells. */
  lemma BlockCellsDiffer(d: Dims, n: int, i: int, j: int)
    requires d.Ok() && 0 <= n < d.S() && 0 <= i < d.S() && 0 <= j < d.S() && i != j
    ensures BlockIndices(d, n)[i] != BlockIndices(d, n)[j]
  {
    var a, b, C := (n / d.nsh) * d.sr, (n % d.nsh) * d.sc, d.C();
    var ri, ci, rj, cj := a + i / d.sc, b + i % d.sc, a + j / d.sc, b + j % d.sc;
    assert BlockIndices(d, n)[i] == ri * C + ci;
    assert BlockIndices(d, n)[j] == rj * C + cj;
    BlockCell(d, n, i);
    BlockCell(d, n, j);
    if ri * C + ci == rj * C + cj {
      IndexUnique(ri, ci, rj, cj, C);
      assert false;
    }
  }

  // ---------------------------------------------------------------- membership

  /** The block holding the cell at grid row r and grid column c. */
  function BlockOf(d: Dims, r: int, c: int): int
    requires d.Ok()
  {
    (r / d.sr) * d.nsh + c / d.sc
  }

  /** The number of the row, column or block (by rcs) that holds cell p. */
  function GroupOf(d: Dims, rcs: int, p: int): int
    requires d.Ok() && 0 <= rcs < 3
  {
    if rcs == 0 then p / d.C() else if rcs == 1 then p % d.C() else BlockOf(d, p / d.C(), p % d.C())
  }

  /** Every cell lies in some group of each kind ... */
  lemma GroupOfRange(d: Dims, rcs: int, p: int)
    requires d.Ok() && 0 <= rcs < 3 && 0 <= p < d.N()
    ensures 0 <= GroupOf(d, rcs, p) < GroupCount(d, rcs)
  {
    SquareShape(d);
    var r, c := p / d.C(), p % d.C();
    DivBound(p, d.C(), d.R());
    if rcs == 2 {
      DivBound(r, d.sr, d.nsv);
      DivBound(c, d.sc, d.nsh);
      MulNonneg(r / d.sr, d.nsh);
      MulMono(r / d.sr, d.nsv, d.nsh);
    }
  }

  /** Some group of each kind holds p. */
  lemma GroupWitness(d: Dims, rcs: int, p: int)
    requires d.Ok() && 0 <= rcs < 3 && 0 <= p < d.N()
    ensures exists n :: 0 <= n < GroupCount(d, rcs) && p in Group(d, rcs, n)
  {
    var n := GroupOf(d, rcs, p);
    GroupOfRange(d, rcs, p);
    GroupMembership(d, rcs, n, p);
  }

  /** Cell p lies in one of the first i groups of kind rcs. */
  predicate InFirstGroups(d: Dims, rcs: int, p: int, i: int)
    requires d.Ok() && 0 <= rcs < 3 && 0 <= i <= GroupCount(d, rcs)
    decreases i
  {
    i > 0 && (p in Group(d, rcs, i - 1) || InFirstGroups(d, rcs, p, i - 1))
  }

  /** InFirstGroups holds exactly when one of the first i groups holds p. */
  lemma {:induction false} InFirstGroupsIff(d: Dims, rcs: int, p: int, i: int, n: int)
    requires d.Ok() && 0 <= rcs < 3 && 0 <= i <= GroupCount(d, rcs) && 0 <= p < d.N()
    requires 0 <= n < GroupCount(d, rcs) && p in Group(d, rcs, n)
    ensures InFirstGroups(d, rcs, p, i) <==> n < i
    decreases i
  {
    if i > 0 {
      InFirstGroupsIff(d, rcs, p, i - 1, n);
      if p in Group(d, rcs, i - 1) {
        GroupUnique(d, rcs, n, i - 1, p);
      }
    }
  }

  /** Two groups of one kind that share a cell are the same group. */
  lemma GroupUnique(d: Dims, rcs: int, n: int, n': int, p: int)
    requires d.Ok() && 0 <= rcs < 3 && 0 <= n < GroupCount(d, rcs) && 0 <= n' < GroupCount(d, rcs)
    requires 0 <= p < d.N() && p in Group(d, rcs, n) && p in Group(d, rcs, n')
    ensures n == n'
  {
    GroupMembership(d, rcs, n, p);
    GroupMembership(d, rcs, n', p);
  }

  /** ... and in exactly one: p belongs to group (rcs, n) iff n is its group number. */
  lemma GroupMembership(d: Dims, rcs: int, n: int, p: int)
    requires d.Ok() && 0 <= rcs < 3 && 0 <= n < GroupCount(d, rcs) && 0 <= p < d.N()
    ensures p in Group(d, rcs, n) <==> n == GroupOf(d, rcs, p)
  {
    SquareShape(d);
    var g := Group(d, rcs, n);
    var C := d.C();
    var r, c := p / C, p % C;
    assert p == r * C + c;
    DivBound(p, C, d.R());
    if rcs == 0 {
      if p in g {
        var i :| 0 <= i < |g| && g[i] == p;
        DivModUnique(p, C, n, i);
      }
      if n == r { assert g[c] == p; }
    } else if rcs == 1 {
      if p in g {
        var i :| 0 <= i < |g| && g[i] == p;
        DivModUnique(p, C, i, n);
      }
      if n == c { assert g[r] == p; }
    } else {
      if p in g {
        var i :| 0 <= i < |g| && g[i] == p;
        BlockMember(d, n, i, p);
      }
      if n == BlockOf(d, r, c) {
        BlockWitness(d, n, p);
      }
    }
  }

  /** Cell i of block n has block number n. */
  lemma BlockMember(d: Dims, n: int, i: int, p: int)
    requires d.Ok() && 0 <= n < d.S() && 0 <= i < d.S()
    requires p == BlockIndices(d, n)[i]
    ensures BlockOf(d, p / d.C(), p % d.C()) == n
  {
    BlockCell(d, n, i);
    BlockNumber(n, i, d.sr, d.sc, d.nsh, d.C(), p);
  }

  /** The arithmetic of BlockMember on plain integers. */
  lemma BlockNumber(n: int, i: int, sr: int, sc: int, nsh: int, C: int, p: int)
    requires sr > 0 && sc > 0 && nsh > 0 && 0 <= n && 0 <= i < sr * sc
    requires 0 <= (n % nsh) * sc + i % sc < C
    requires p == ((n / nsh) * sr + i / sc) * C + (n % nsh) * sc + i % sc
    ensures ((p / C) / sr) * nsh + (p % C) / sc == n
  {
    var row, col := (n / nsh) * sr + i / sc, (n % nsh) * sc + i % sc;
    DivModUnique(p, C, row, col);
    DivBound(i, sc, sr);
    DivModUnique(row, sr, n / nsh, i / sc);
    DivModUnique(col, sc, n % nsh, i % sc);
    DivMod(n, nsh);
  }

  /** A cell whose block number is n occurs in block n. */
  lemma BlockWitness(d: Dims, n: int, p: int)
    requires d.Ok() && 0 <= n < d.S() && 0 <= p < d.N()
    requires n == BlockOf(d, p / d.C(), p % d.C())
    ensures p in BlockIndices(d, n)
  {
    SquareShape(d);
    var C := d.C();
    var i := (p / C % d.sr) * d.sc + p % C % d.sc;
    WitnessOffset(n, p, d.sr, d.sc, d.nsh, C);
    assert BlockIndices(d, n)[i] == p;
  }

  /** The arithmetic of BlockWitness on plain integers: the offset of cell p
      inside its block is in range and leads back to p. */
  lemma WitnessOffset(n: int, p: int, sr: int, sc: int, nsh: int, C: int)
    requires sr > 0 && sc > 0 && nsh > 0 && C == sc * nsh && p >= 0
    requires n == ((p / C) / sr) * nsh + (p % C) / sc
    ensures 0 <= ((p / C) % sr) * sc + (p % C) % sc < sr * sc
    ensures var i := ((p / C) % sr) * sc + (p % C) % sc;
      ((n / nsh) * sr + i / sc) * C + (n % nsh) * sc + i % sc == p
  {
    var r, c := p / C, p % C;
    var i := (r % sr) * sc + c % sc;
    OffsetInBlock(r, c, sr, sc);
    DivBound(c, sc, nsh);
    DivModUnique(n, nsh, r / sr, c / sc);
    Recompose(n, i, r, c, C, sr, sc, nsh);
    DivMod(p, C);
  }

  /** The offset of grid cell (r, c) inside its block, and back. */
  lemma OffsetInBlock(r: int, c: int, sr: int, sc: int)
    requires sr > 0 && sc > 0 && r >= 0 && c >= 0
    ensures 0 <= (r % sr) * sc + c % sc < sr * sc
    ensures ((r % sr) * sc + c % sc) / sc == r % sr
    ensures ((r % sr) * sc + c % sc) % sc == c % sc
  {
    MulNonneg(r % sr, sc);
    MulMono(r % sr, sr, sc);
    DivModUnique((r % sr) * sc + c % sc, sc, r % sr, c % sc);
  }

  /** Block start plus offset gives back the cell (r, c). */
  lemma Recompose(n: int, i: int, r: int, c: int, C: int, sr: int, sc: int, nsh: int)
    requires sr > 0 && sc > 0 && nsh > 0
    requires n / nsh == r / sr && n % nsh == c / sc
    requires i / sc == r % sr && i % sc == c % sc
    ensures ((n / nsh) * sr + i / sc) * C + (n % nsh) * sc + i % sc == r * C + c
  {
    assert r == (r / sr) * sr + r % sr;
    assert c == (c / sc) * sc + c % sc;
  }
}
