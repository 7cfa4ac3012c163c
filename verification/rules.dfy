/** Board cells, the eight winning lines, and the read-only queries
    `check_win` and `is_board_full` of the game engine.

    The 3x3 board is kept row-major in nine cells: cell (row, col) is at
    index 3 * row + col.  A cell holds EMPTY (0), HUMAN (1) or AI (2). */
module Rules {

  const EMPTY := 0
  const HUMAN := 1
  const AI := 2

  const BOARD_ROWS := 3
  const BOARD_COLS := 3
  const CELLS := 9

  /** The index of cell (row, col) in the row-major board. */
  function Idx(row: int, col: int): int { BOARD_COLS * row + col }

  predicate IsCell(v: int) { v == EMPTY || v == HUMAN || v == AI }

  predicate IsPlayer(p: int) { p == HUMAN || p == AI }

  /** A board as the engine keeps it: nine cells, each 0, 1 or 2. */
  predicate ValidBoard(b: seq<int>) {
    |b| == CELLS && forall i :: 0 <= i < |b| ==> IsCell(b[i])
  }

  /** The k-th winning line, in the order check_win tries them:
      the three columns, the three rows, the main diagonal, the anti-diagonal. */
  function Line(k: int): (int, int, int)
    requires 0 <= k < 8
  {
    if k < 3 then (k, k + 3, k + 6)
    else if k < 6 then (3 * (k - 3), 3 * (k - 3) + 1, 3 * (k - 3) + 2)
    else if k == 6 then (0, 4, 8)
    else (2, 4, 6)
  }

  /** All three cells of `line` hold `p`. */
  predicate Owns(b: seq<int>, line: (int, int, int), p: int)
    requires |b| == CELLS
    requires 0 <= line.0 < CELLS && 0 <= line.1 < CELLS && 0 <= line.2 < CELLS
  {
    b[line.0] == p && b[line.1] == p && b[line.2] == p
  }

  /** Player `p` has a complete line somewhere on the board. */
  predicate Wins(b: seq<int>, p: int)
    requires |b| == CELLS
  {
    exists k :: 0 <= k < 8 && Owns(b, Line(k), p)
  }

  /** No cell is empty. */
  predicate Full(b: seq<int>)
    requires |b| == CELLS
  {
    forall i :: 0 <= i < CELLS ==> b[i] != EMPTY
  }

  /** The number of empty cells; every tentative mark lowers it by one. */
  function EmptyCount(b: seq<int>): nat {
    multiset(b)[EMPTY]
  }

  /** Marking an empty cell with a player's mark leaves one empty cell fewer,
      which is what makes the game-tree search terminate. */
  lemma MarkLowersEmptyCount(b: seq<int>, i: int, p: int)
    requires 0 <= i < |b| && b[i] == EMPTY && IsPlayer(p)
    ensures EmptyCount(b[i := p]) == EmptyCount(b) - 1
  {
    assert b == b[..i] + [b[i]] + b[i + 1..];
    assert b[i := p] == b[..i] + [p] + b[i + 1..];
  }

  /** A board with an empty cell is not full, and a board that is not full
      has an empty cell left to play. */
  lemma {:induction false} FullIffNoEmpty(b: seq<int>)
    requires ValidBoard(b)
    ensures Full(b) <==> EmptyCount(b) == 0
  {
    if !Full(b) {
      var i :| 0 <= i < CELLS && b[i] == EMPTY;
      assert b == b[..i] + [b[i]] + b[i + 1..];
    } else {
      assert EMPTY !in multiset(b);
    }
  }

  /** A mark of one player cannot complete a line of another: every line of
      `q` after the mark was already there before it. */
  lemma MarkKeepsOtherLines(b: seq<int>, k: int, p: int, q: int)
    requires |b| == CELLS && 0 <= k < CELLS && p != q
    ensures Wins(b[k := p], q) ==> Wins(b, q)
  {
    if Wins(b[k := p], q) {
      var j :| 0 <= j < 8 && Owns(b[k := p], Line(j), q);
      assert Owns(b, Line(j), q);
    }
  }

  /** `check_win(player, check_board)`: tries the three columns, then the
      three rows, then both diagonals, and answers true at the first line
      that `p` owns. */
  method CheckWin(a: array<int>, p: int) returns (won: bool)
    requires a.Length == CELLS
    ensures won <==> Wins(a[..], p)
  {
    for col := 0 to BOARD_COLS
      invariant forall k :: 0 <= k < col ==> !Owns(a[..], Line(k), p)
    {
      if a[col] == p && a[3 + col] == p && a[6 + col] == p {
        assert Owns(a[..], Line(col), p);
        return true;
      }
    }
    for row := 0 to BOARD_ROWS
      invariant forall k :: 0 <= k < 3 + row ==> !Owns(a[..], Line(k), p)
    {
      if a[3 * row] == p && a[3 * row + 1] == p && a[3 * row + 2] == p {
        assert Owns(a[..], Line(3 + row), p);
        return true;
      }
    }
    if a[0] == p && a[4] == p && a[8] == p {
      assert Owns(a[..], Line(6), p);
      return true;
    }
    if a[2] == p && a[4] == p && a[6] == p {
      assert Owns(a[..], Line(7), p);
      return true;
    }
    return false;
  }

  /** `is_board_full(check_board)`: scans the cells row by row and answers
      false at the first empty one.  It only reads the board. */
  method IsBoardFull(a: array<int>) returns (full: bool)
    requires a.Length == CELLS
    ensures full <==> Full(a[..])
  {
    for row := 0 to BOARD_ROWS
      invariant forall i :: 0 <= i < Idx(row, 0) ==> a[i] != EMPTY
    {
      for col := 0 to BOARD_COLS
        invariant forall i :: 0 <= i < Idx(row, col) ==> a[i] != EMPTY
      {
        if a[Idx(row, col)] == EMPTY {
          return false;
        }
      }
    }
    return true;
  }
}
