/**
 * The 3x3 board of the game and the pure questions asked about it:
 * does some line win, does a given mark own a line, is the board full,
 * and which boards follow from it when one more mark is placed.
 *
 * A board is stored row-major: cell (row, col) is at index row * 3 + col.
 * A cell holds the empty string "" or a player's mark.
 */
module Grid {

  type Mark = string

  const Blank: Mark := ""

  type Board = b: seq<Mark> | |b| == 9 witness ["", "", "", "", "", "", "", "", ""]

  const EmptyBoard: Board := ["", "", "", "", "", "", "", "", ""]

  /** Cells p, q and r hold the same value. */
  predicate Same(b: Board, p: nat, q: nat, r: nat)
    requires p < 9 && q < 9 && r < 9
  {
    b[p] == b[q] && b[p] == b[r]
  }

  // ---------------------------------------------------------------------
  // checkAnyWin: rows and columns for i = 0, 1, 2, then the two diagonals.
  // ---------------------------------------------------------------------

  /** The row/column part of checkAnyWin, from loop index i on. */
  predicate AnyWinFrom(b: Board, i: nat)
    requires i <= 3
    decreases 3 - i
  {
    i < 3 &&
    ((Same(b, 3 * i, 3 * i + 1, 3 * i + 2) && b[3 * i] != Blank) ||
     (Same(b, i, 3 + i, 6 + i) && b[i] != Blank) ||
     AnyWinFrom(b, i + 1))
  }

  predicate CheckAnyWin(b: Board)
  {
    AnyWinFrom(b, 0) ||
    (Same(b, 0, 4, 8) && b[0] != Blank) ||
    (Same(b, 2, 4, 6) && b[2] != Blank)
  }

  // ---------------------------------------------------------------------
  // checkMarkedWin: the same scan, but the line must hold `mark`.
  // ---------------------------------------------------------------------

  predicate MarkedWinFrom(b: Board, mark: Mark, i: nat)
    requires i <= 3
    decreases 3 - i
  {
    i < 3 &&
    ((Same(b, 3 * i, 3 * i + 1, 3 * i + 2) && b[3 * i] == mark) ||
     (Same(b, i, 3 + i, 6 + i) && b[i] == mark) ||
     MarkedWinFrom(b, mark, i + 1))
  }

  predicate CheckMarkedWin(b: Board, mark: Mark)
  {
    MarkedWinFrom(b, mark, 0) ||
    (Same(b, 0, 4, 8) && b[0] == mark) ||
    (Same(b, 2, 4, 6) && b[2] == mark)
  }

  /** checkTie: every cell is taken. */
  predicate CheckTie(b: Board)
  {
    forall i :: 0 <= i < 9 ==> b[i] != Blank
  }

  // ---------------------------------------------------------------------
  // The eight lines, as an independent description of a win.
  // ---------------------------------------------------------------------

  const Lines: seq<(nat, nat, nat)> :=
    [(0, 1, 2), (3, 4, 5), (6, 7, 8),   // rows
     (0, 3, 6), (1, 4, 7), (2, 5, 8),   // columns
     (0, 4, 8), (2, 4, 6)]              // diagonals

  /** All three cells of `line` hold `mark`. */
  predicate Owns(b: Board, line: (nat, nat, nat), mark: Mark)
    requires line.0 < 9 && line.1 < 9 && line.2 < 9
  {
    b[line.0] == mark && b[line.1] == mark && b[line.2] == mark
  }

  predicate LineOwnedBy(b: Board, k: nat, mark: Mark)
    requires k < 8
  {
    Owns(b, Lines[k], mark)
  }

  /** checkMarkedWin holds exactly when one of the eight lines is all `mark`. */
  lemma MarkedWinIsLine(b: Board, mark: Mark)
    ensures CheckMarkedWin(b, mark) <==> exists k :: 0 <= k < 8 && LineOwnedBy(b, k, mark)
  {
    assert MarkedWinFrom(b, mark, 0) <==>
      LineOwnedBy(b, 0, mark) || LineOwnedBy(b, 3, mark) ||
      LineOwnedBy(b, 1, mark) || LineOwnedBy(b, 4, mark) ||
      LineOwnedBy(b, 2, mark) || LineOwnedBy(b, 5, mark);
    if CheckMarkedWin(b, mark) {
      if LineOwnedBy(b, 6, mark) || LineOwnedBy(b, 7, mark) {
      } else {
        assert MarkedWinFrom(b, mark, 0);
      }
    }
  }

  /** checkAnyWin holds exactly when one of the eight lines holds three equal non-empty marks. */
  lemma AnyWinIsLine(b: Board)
    ensures CheckAnyWin(b) <==> exists k :: 0 <= k < 8 && b[Lines[k].0] != Blank && LineOwnedBy(b, k, b[Lines[k].0])
  {
    assert AnyWinFrom(b, 0) <==>
      (b[0] != Blank && LineOwnedBy(b, 0, b[0])) || (b[0] != Blank && LineOwnedBy(b, 3, b[0])) ||
      (b[3] != Blank && LineOwnedBy(b, 1, b[3])) || (b[1] != Blank && LineOwnedBy(b, 4, b[1])) ||
      (b[6] != Blank && LineOwnedBy(b, 2, b[6])) || (b[2] != Blank && LineOwnedBy(b, 5, b[2]));
    if CheckAnyWin(b) {
      if (b[0] != Blank && LineOwnedBy(b, 6, b[0])) || (b[2] != Blank && LineOwnedBy(b, 7, b[2])) {
      } else {
        assert AnyWinFrom(b, 0);
      }
    }
  }

  /**
   * A win by a real (non-empty) mark is a win, and every win is a win by
   * the mark that fills the line.
   */
  lemma MarkedWinIsAnyWin(b: Board, mark: Mark)
    ensures mark != Blank && CheckMarkedWin(b, mark) ==> CheckAnyWin(b)
    ensures CheckAnyWin(b) <==> exists m :: m != Blank && CheckMarkedWin(b, m)
  {
    MarkedWinIsLine(b, mark);
    AnyWinIsLine(b);
    if CheckAnyWin(b) {
      var k :| 0 <= k < 8 && b[Lines[k].0] != Blank && LineOwnedBy(b, k, b[Lines[k].0]);
      MarkedWinIsLine(b, b[Lines[k].0]);
    }
    forall m | m != Blank && CheckMarkedWin(b, m)
      ensures CheckAnyWin(b)
    {
      MarkedWinIsLine(b, m);
    }
  }

  // ---------------------------------------------------------------------
  // getChildren: one copy per empty cell, in row-major order.
  // ---------------------------------------------------------------------

  /** The indices of the empty cells among the first n, in increasing order. */
  function EmptyUpTo(b: Board, n: nat): seq<nat>
    requires n <= 9
  {
    if n == 0 then []
    else EmptyUpTo(b, n - 1) + (if b[n - 1] == Blank then [n - 1] else [])
  }

  function EmptyCells(b: Board): seq<nat>
  {
    EmptyUpTo(b, 9)
  }

  /** The children built by the row-major scan, after the first n cells. */
  function ChildrenUpTo(b: Board, mark: Mark, n: nat): seq<Board>
    requires n <= 9
  {
    if n == 0 then []
    else ChildrenUpTo(b, mark, n - 1) + (if b[n - 1] == Blank then [b[n - 1 := mark]] else [])
  }

  function Children(b: Board, mark: Mark): seq<Board>
  {
    ChildrenUpTo(b, mark, 9)
  }

  lemma {:induction false} EmptyUpToSpec(b: Board, n: nat)
    requires n <= 9
    ensures forall j :: 0 <= j < |EmptyUpTo(b, n)| ==> EmptyUpTo(b, n)[j] < n
    ensures forall j, k :: 0 <= j < k < |EmptyUpTo(b, n)| ==> EmptyUpTo(b, n)[j] < EmptyUpTo(b, n)[k]
    ensures forall i :: 0 <= i < n ==> (i in EmptyUpTo(b, n) <==> b[i] == Blank)
  {
    if n > 0 {
      EmptyUpToSpec(b, n - 1);
    }
  }

  /**
   * EmptyCells lists exactly the empty cells, each once, in increasing
   * (row-major) order.
   */
  lemma EmptyCellsSpec(b: Board)
    ensures forall j :: 0 <= j < |EmptyCells(b)| ==> EmptyCells(b)[j] < 9
    ensures forall j, k :: 0 <= j < k < |EmptyCells(b)| ==> EmptyCells(b)[j] < EmptyCells(b)[k]
    ensures forall i :: 0 <= i < 9 ==> (i in EmptyCells(b) <==> b[i] == Blank)
  {
    EmptyUpToSpec(b, 9);
  }

  lemma {:induction false} ChildrenUpToSpec(b: Board, mark: Mark, n: nat)
    requires n <= 9
    ensures |ChildrenUpTo(b, mark, n)| == |EmptyUpTo(b, n)|
    ensures forall k :: 0 <= k < |EmptyUpTo(b, n)| ==>
              EmptyUpTo(b, n)[k] < 9 && ChildrenUpTo(b, mark, n)[k] == b[EmptyUpTo(b, n)[k] := mark]
  {
    if n > 0 {
      ChildrenUpToSpec(b, mark, n - 1);
      EmptyUpToSpec(b, n);
    }
  }

  /**
   * The k-th child is the board with the k-th empty cell (row-major) set
   * to `mark`; there is exactly one child per empty cell.
   */
  lemma ChildrenSpec(b: Board, mark: Mark)
    ensures |Children(b, mark)| == |EmptyCells(b)|
    ensures forall k :: 0 <= k < |EmptyCells(b)| ==>
              EmptyCells(b)[k] < 9 && Children(b, mark)[k] == b[EmptyCells(b)[k] := mark]
  {
    ChildrenUpToSpec(b, mark, 9);
  }

  /** The board is full exactly when it has no empty cell, hence no child. */
  lemma TieIffNoChildren(b: Board, mark: Mark)
    ensures CheckTie(b) <==> EmptyCells(b) == []
    ensures CheckTie(b) <==> Children(b, mark) == []
  {
    EmptyCellsSpec(b);
    ChildrenSpec(b, mark);
    if !CheckTie(b) {
      var i :| 0 <= i < 9 && b[i] == Blank;
      assert i in EmptyCells(b);
    }
    if EmptyCells(b) != [] {
      var i := EmptyCells(b)[0];
      assert i in EmptyCells(b);
    }
  }

  lemma {:induction false} PlaceUpTo(b: Board, i: nat, mark: Mark, n: nat)
    requires i < 9 && n <= 9 && b[i] == Blank && mark != Blank
    ensures |EmptyUpTo(b[i := mark], n)| == |EmptyUpTo(b, n)| - (if i < n then 1 else 0)
  {
    if n > 0 {
      PlaceUpTo(b, i, mark, n - 1);
    }
  }

  /** Marking an empty cell removes exactly one empty cell. */
  lemma PlaceShrinks(b: Board, i: nat, mark: Mark)
    requires i < 9 && b[i] == Blank && mark != Blank
    ensures |EmptyCells(b[i := mark])| == |EmptyCells(b)| - 1
  {
    PlaceUpTo(b, i, mark, 9);
  }

  /**
   * getChildren, as the source builds it: a row-major scan that pushes a
   * copy of `node` with the empty cell set to `symbol`. What the result
   * holds is stated by ChildrenSpec.
   */
  method GetChildren(node: Board, symbol: Mark) returns (children: seq<Board>)
    ensures children == Children(node, symbol)
  {
    children := [];
    for i := 0 to 9
      invariant children == ChildrenUpTo(node, symbol, i)
    {
      if node[i] == Blank {
        var child := node[i := symbol];
        children := children + [child];
      }
    }
  }
}
