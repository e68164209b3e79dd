/** The nodes the constructors build: the full candidate set of an empty
    cell and the cell a board entry stands for (sudoku.cpp:25-66, 84-110). */
module Nodes {
  import opened Candidates

  /** The candidate set {1, ..., s}, built as the constructors build their
      `empty` node (sudoku.cpp:36-40, 98-104, 503-507). */
  method EmptyNode(s: nat) returns (node: Cell)
    ensures forall v :: v in node <==> 1 <= v <= s
    ensures node == Full(s)
  {
    node := {};
    var i := 0;
    while i < s
      invariant 0 <= i <= s && node == Full(i)
    {
      node := node + {i + 1};
      i := i + 1;
    }
  }

  /** The cell a board entry stands for: every candidate for 0, else the
      single value |x|. */
  function EntryCell(x: int, s: nat): Cell
  {
    if x == 0 then Full(s) else if x < 0 then {-x} else {x}
  }

  /** Entries from -s..s stand for cells drawn from 1..s. */
  lemma EntriesRange(board: seq<int>, s: nat, g: Grid)
    requires |g| == |board| && forall p :: 0 <= p < |board| ==> board[p] <= s && -board[p] <= s
    requires forall p :: 0 <= p < |board| ==> g[p] == EntryCell(board[p], s)
    ensures forall p :: 0 <= p < |board| ==> g[p] <= Full(s)
  {
  }

  /** The cells of the first i board entries. */
  function Cells(board: seq<int>, s: nat, i: nat): (g: Grid)
    requires i <= |board|
  {
    if i == 0 then [] else Cells(board, s, i - 1) + [EntryCell(board[i - 1], s)]
  }

  /** The positions among the first i board entries that are negative. */
  function Givens(board: seq<int>, i: nat): (gv: set<int>)
    requires i <= |board|
  {
    if i == 0 then {}
    else if board[i - 1] < 0 then Givens(board, i - 1) + {i - 1}
    else Givens(board, i - 1)
  }

  /** Cell p of the first i is the cell of entry p. */
  lemma {:induction false} CellsAt(board: seq<int>, s: nat, i: nat)
    requires i <= |board|
    ensures |Cells(board, s, i)| == i
    ensures forall p :: 0 <= p < i ==> Cells(board, s, i)[p] == EntryCell(board[p], s)
  {
    if i > 0 {
      CellsAt(board, s, i - 1);
    }
  }

  /** The given positions are exactly the negative entries. */
  lemma {:induction false} GivensAt(board: seq<int>, i: nat)
    requires i <= |board|
    ensures forall p :: p in Givens(board, i) <==> 0 <= p < i && board[p] < 0
  {
    if i > 0 {
      GivensAt(board, i - 1);
    }
  }

  /** All entries read: each cell is the entry's cell, drawn from 1..s, and
      the given positions are the negative entries. */
  lemma BoardCells(board: seq<int>, s: nat)
    requires forall i :: 0 <= i < |board| ==> board[i] <= s && -board[i] <= s
    ensures |Cells(board, s, |board|)| == |board|
    ensures forall p :: 0 <= p < |board| ==> Cells(board, s, |board|)[p] == EntryCell(board[p], s) && Cells(board, s, |board|)[p] <= Full(s)
    ensures forall p :: p in Givens(board, |board|) <==> 0 <= p < |board| && board[p] < 0
  {
    CellsAt(board, s, |board|);
    GivensAt(board, |board|);
    EntriesRange(board, s, Cells(board, s, |board|));
  }

  /** The grid and the given cells the board constructor builds
      (sudoku.cpp:42-65). */
  method BuildGrid(board: seq<int>, s: nat) returns (g: Grid, gv: set<int>)
    requires forall i :: 0 <= i < |board| ==> board[i] <= s && -board[i] <= s
    ensures |g| == |board|
    ensures forall p :: 0 <= p < |board| ==> g[p] == EntryCell(board[p], s) && g[p] <= Full(s)
    ensures forall p :: p in gv <==> 0 <= p < |board| && board[p] < 0
  {
    var empty := EmptyNode(s);
    g, gv := [], {};
    var i := 0;
    while i < |board|
      invariant 0 <= i <= |board| && g == Cells(board, s, i) && gv == Givens(board, i)
    {
      var w := EntryNode(board[i], s, empty);
      if board[i] < 0 {
        gv := gv + {i};
      }
      g := g + [w];
      i := i + 1;
    }
    BoardCells(board, s);
  }

  /** The node the board constructor stores for entry x (sudoku.cpp:46-62):
      the shared empty node for 0, else the singleton of |x|. */
  method EntryNode(x: int, s: nat, empty: Cell) returns (w: Cell)
    requires empty == Full(s)
    ensures w == EntryCell(x, s)
    ensures x != 0 ==> |w| == 1 && w == {if x < 0 then -x else x}
  {
    if x == 0 {
      w := empty;
    } else if x < 0 {
      w := {-x};
    } else {
      w := {x};
    }
  }
}
