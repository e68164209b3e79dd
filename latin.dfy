/** The blank board always has a solution: generateGrid solves the empty
    grid to get its seed (sudoku.cpp:500-502), and the cyclic pattern below
    is one solution of it, so that solve cannot fail. */
module Latin {
  import opened Geometry
  import opened Candidates

  /** The grid the blank constructor builds: every cell holds every value. */
  function BlankGrid(d: Dims): (g: Grid)
    ensures |g| == d.N() && forall p :: 0 <= p < |g| ==> g[p] == Full(d.S())
  {
    seq(d.N(), p => Full(d.S()))
  }

  /** The symbol the pattern puts at grid row r, column c: row r is the
      cycle 1..S shifted by (r % sr) * sc + r / sr. */
  function Pattern(d: Dims, r: int, c: int): int
    requires d.Ok()
  {
    ((r % d.sr) * d.sc + r / d.sr + c) % d.S() + 1
  }

  /** The pattern laid out as a board, cell p at row p / C, column p % C. */
  function LatinBoard(d: Dims): (s: seq<int>)
    requires d.Ok()
    ensures |s| == d.N()
  {
    seq(d.N(), p => Pattern(d, p / d.C(), p % d.C()))
  }

  /** Shifting two different residues by the same amount keeps them apart. */
  lemma ShiftDistinct(k: int, x: int, y: int, m: int)
    requires m > 0 && 0 <= x < m && 0 <= y < m && x != y
    ensures (k + x) % m != (k + y) % m
  {
    var q1, q2 := (k + x) / m, (k + y) / m;
    if (k + x) % m == (k + y) % m {
      if q1 < q2 {
        MulMono(q1, q2, m);
      } else if q2 < q1 {
        MulMono(q2, q1, m);
      }
      assert false;
    }
  }

  /** The board holds the pattern at every (row, column). */
  lemma LatinCell(d: Dims, r: int, c: int)
    requires d.Ok() && 0 <= r < d.R() && 0 <= c < d.C()
    ensures 0 <= r * d.C() + c < d.N()
    ensures LatinBoard(d)[r * d.C() + c] == Pattern(d, r, c)
  {
    SquareShape(d);
    IndexBound(d, r, c);
    DivModUnique(r * d.C() + c, d.C(), r, c);
  }

  /** Row n holds the cycle shifted by one amount: all different. */
  lemma LatinRow(d: Dims, n: int)
    requires d.Ok() && 0 <= n < d.R()
    ensures DistinctOn(LatinBoard(d), RowIndices(d, n))
  {
    SquareShape(d);
    RowShape(d, n);
    var g := RowIndices(d, n);
    forall i, j | 0 <= i < |g| && 0 <= j < |g| && i != j
      ensures LatinBoard(d)[g[i]] != LatinBoard(d)[g[j]]
    {
      LatinCell(d, n, i);
      LatinCell(d, n, j);
      ShiftDistinct((n % d.sr) * d.sc + n / d.sr, i, j, d.S());
    }
  }

  /** The shift of row i: a different number below S for every row. */
  lemma RowShift(d: Dims, i: int, j: int)
    requires d.Ok() && 0 <= i < d.R() && 0 <= j < d.R()
    ensures 0 <= (i % d.sr) * d.sc + i / d.sr < d.S()
    ensures i != j ==> (i % d.sr) * d.sc + i / d.sr != (j % d.sr) * d.sc + j / d.sr
  {
    DivBound(i, d.sr, d.nsv);
    DivBound(j, d.sr, d.nsv);
    MulNonneg(i % d.sr, d.sc);
    MulMono(i % d.sr, d.sr, d.sc);
    if i != j && (i % d.sr) * d.sc + i / d.sr == (j % d.sr) * d.sc + j / d.sr {
      IndexUnique(i % d.sr, i / d.sr, j % d.sr, j / d.sr, d.sc);
      assert false;
    }
  }

  /** Column n meets every row shift once: all different. */
  lemma LatinColumn(d: Dims, n: int)
    requires d.Ok() && 0 <= n < d.C()
    ensures DistinctOn(LatinBoard(d), ColumnIndices(d, n))
  {
    SquareShape(d);
    ColumnShape(d, n);
    var g := ColumnIndices(d, n);
    forall i, j | 0 <= i < |g| && 0 <= j < |g| && i != j
      ensures LatinBoard(d)[g[i]] != LatinBoard(d)[g[j]]
    {
      LatinCell(d, i, n);
      LatinCell(d, j, n);
      RowShift(d, i, j);
      RowShift(d, j, i);
      ShiftDistinct(n, (i % d.sr) * d.sc + i / d.sr, (j % d.sr) * d.sc + j / d.sr, d.S());
    }
  }

  /** Offset i of block n holds the cycle shifted by an amount of the block. */
  lemma BlockValue(d: Dims, n: int, i: int)
    requires d.Ok() && 0 <= n < d.S() && 0 <= i < d.S()
    ensures 0 <= BlockIndices(d, n)[i] < d.N()
    ensures LatinBoard(d)[BlockIndices(d, n)[i]] == (n / d.nsh + (n % d.nsh) * d.sc + i) % d.S() + 1
  {
    BlockShape(d, n);
    var row, col := (n / d.nsh) * d.sr + i / d.sc, (n % d.nsh) * d.sc + i % d.sc;
    assert BlockIndices(d, n)[i] == row * d.C() + col;
    BlockCell(d, n, i);
    LatinCell(d, row, col);
    DivBound(i, d.sc, d.sr);
    DivModUnique(row, d.sr, n / d.nsh, i / d.sc);
    DivMod(i, d.sc);
  }

  /** Block n holds the cycle shifted by one amount: all different. */
  lemma LatinBlock(d: Dims, n: int)
    requires d.Ok() && 0 <= n < d.S()
    ensures DistinctOn(LatinBoard(d), BlockIndices(d, n))
  {
    BlockShape(d, n);
    var g := BlockIndices(d, n);
    forall i, j | 0 <= i < |g| && 0 <= j < |g| && i != j
      ensures LatinBoard(d)[g[i]] != LatinBoard(d)[g[j]]
    {
      BlockValue(d, n, i);
      BlockValue(d, n, j);
      ShiftDistinct(n / d.nsh + (n % d.nsh) * d.sc, i, j, d.S());
    }
  }

  /** The pattern is a solution: symbols 1..S, none twice in a group. */
  lemma LatinSolution(d: Dims)
    requires d.Ok()
    ensures IsSolution(d, LatinBoard(d))
  {
    SquareShape(d);
    forall rcs, n | 0 <= rcs < 3 && 0 <= n < GroupCount(d, rcs)
      ensures DistinctOn(LatinBoard(d), Group(d, rcs, n))
    {
      if rcs == 0 {
        LatinRow(d, n);
      } else if rcs == 1 {
        LatinColumn(d, n);
      } else {
        LatinBlock(d, n);
      }
    }
  }

  /** The blank grid of any square dimensions has a solution. */
  lemma BlankSolvable(d: Dims)
    requires d.Ok()
    ensures LatinBoard(d) in Sols(d, BlankGrid(d))
  {
    LatinSolution(d);
    AssignmentsMember(BlankGrid(d), LatinBoard(d));
  }
}
