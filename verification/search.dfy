/** The minimax game-tree search and the AI's choice of move, as pure
    functions over a row-major board, with the in-place `minimax` that
    marks, recurses and unmarks on a shared array. */
module Search {
  import opened Rules
  import opened Wrappers

  /** The infinite scores are used only as ordered sentinels; any pair of
      integers below and above the +-1000 starting bounds keeps every
      comparison the search makes. */
  const POS_INF := 1_000_000
  const NEG_INF := -1_000_000

  /** The scores a search can return: the two sentinels, a draw, and the
      starting bound of a player none of whose moves improved on it. */
  predicate IsScore(v: int) {
    v == NEG_INF || v == -1000 || v == 0 || v == 1000 || v == POS_INF
  }

  /** The mark placed by the player to move. */
  function Mark(isMaximizing: bool): int { if isMaximizing then AI else HUMAN }

  /** The bound the running best score starts from. */
  function Start(isMaximizing: bool): int { if isMaximizing then -1000 else 1000 }

  /** The maximizing player keeps the larger score, the minimizing one the smaller. */
  function Better(isMaximizing: bool, best: int, score: int): int {
    if isMaximizing then (if best >= score then best else score)
    else (if score <= best then score else best)
  }

  /** Some player has a line or no cell is empty: the search stops at such boards. */
  predicate Terminal(b: seq<int>)
    requires |b| == CELLS
  {
    Wins(b, AI) || Wins(b, HUMAN) || Full(b)
  }

  /** The value `minimax` computes for board `b` with the given player to move. */
  function MinimaxValue(b: seq<int>, isMaximizing: bool): (r: int)
    requires ValidBoard(b)
    ensures IsScore(r)
    decreases EmptyCount(b), 1, 0
  {
    if Wins(b, AI) then POS_INF
    else if Wins(b, HUMAN) then NEG_INF
    else if Full(b) then 0
    else Fold(b, isMaximizing, CELLS)
  }

  /** The score of playing the empty cell `i` for the player to move. */
  function ChildValue(b: seq<int>, isMaximizing: bool, i: int): (r: int)
    requires ValidBoard(b) && 0 <= i < CELLS && b[i] == EMPTY
    ensures IsScore(r)
    decreases EmptyCount(b), 0, 0
  {
    MarkLowersEmptyCount(b, i, Mark(isMaximizing));
    MinimaxValue(b[i := Mark(isMaximizing)], !isMaximizing)
  }

  /** The running best score after the row-major scan has visited the first
      `n` cells, starting from the player's bound. */
  function Fold(b: seq<int>, isMaximizing: bool, n: int): (r: int)
    requires ValidBoard(b) && 0 <= n <= CELLS
    ensures IsScore(r)
    decreases EmptyCount(b), 0, n + 1
  {
    if n == 0 then Start(isMaximizing)
    else if b[n - 1] != EMPTY then Fold(b, isMaximizing, n - 1)
    else Better(isMaximizing, Fold(b, isMaximizing, n - 1), ChildValue(b, isMaximizing, n - 1))
  }

  /** The terminal cases are tested in order: an AI line, then a human line,
      then a full board. */
  lemma MinimaxTerminal(b: seq<int>, isMaximizing: bool)
    requires ValidBoard(b)
    ensures Wins(b, AI) ==> MinimaxValue(b, isMaximizing) == POS_INF
    ensures !Wins(b, AI) && Wins(b, HUMAN) ==> MinimaxValue(b, isMaximizing) == NEG_INF
    ensures !Wins(b, AI) && !Wins(b, HUMAN) && Full(b) ==> MinimaxValue(b, isMaximizing) == 0
  {
  }

  /** The fold over the first `n` cells is the best of the starting bound
      and the scores of the empty cells among them: no such score beats it,
      and it is either the bound or one of those scores. */
  lemma {:induction false} FoldIsBest(b: seq<int>, isMaximizing: bool, n: int)
    requires ValidBoard(b) && 0 <= n <= CELLS
    ensures var r := Fold(b, isMaximizing, n);
      && (isMaximizing ==> r >= -1000 && forall i :: 0 <= i < n && b[i] == EMPTY ==> r >= ChildValue(b, true, i))
      && (!isMaximizing ==> r <= 1000 && forall i :: 0 <= i < n && b[i] == EMPTY ==> r <= ChildValue(b, false, i))
      && (r == Start(isMaximizing) || exists i :: 0 <= i < n && b[i] == EMPTY && r == ChildValue(b, isMaximizing, i))
  {
    if n > 0 {
      FoldIsBest(b, isMaximizing, n - 1);
      var r := Fold(b, isMaximizing, n);
      var prev := Fold(b, isMaximizing, n - 1);
      if r != Start(isMaximizing) && b[n - 1] == EMPTY && r != prev {
        assert r == ChildValue(b, isMaximizing, n - 1);
      }
    }
  }

  /** On a board that is not terminal, `minimax` returns the maximum (when
      maximizing) or the minimum (when minimizing) of the scores of all
      empty cells, taken together with the starting bound of -1000 or 1000. */
  lemma MinimaxAggregates(b: seq<int>, isMaximizing: bool)
    requires ValidBoard(b) && !Terminal(b)
    ensures var r := MinimaxValue(b, isMaximizing);
      && (isMaximizing ==> r >= -1000 && forall i :: 0 <= i < CELLS && b[i] == EMPTY ==> r >= ChildValue(b, true, i))
      && (!isMaximizing ==> r <= 1000 && forall i :: 0 <= i < CELLS && b[i] == EMPTY ==> r <= ChildValue(b, false, i))
      && (r == Start(isMaximizing) || exists i :: 0 <= i < CELLS && b[i] == EMPTY && r == ChildValue(b, isMaximizing, i))
  {
    FoldIsBest(b, isMaximizing, CELLS);
  }

  /** With the human to move and no AI line on the board, the score is at
      most 1000: only an AI line already made scores POS_INF. */
  lemma MinimizingAtMost1000(b: seq<int>)
    requires ValidBoard(b) && !Wins(b, AI)
    ensures MinimaxValue(b, false) <= 1000
  {
    if !Terminal(b) {
      FoldIsBest(b, false, CELLS);
    }
  }

  /** `minimax(minimax_board, depth, is_maximizing)`: the board is marked,
      searched and unmarked in place.  It returns the pure value of the
      board and leaves every cell as it found it.  The unread `depth`
      parameter is not modelled. */
  method Minimax(a: array<int>, isMaximizing: bool) returns (score: int)
    requires ValidBoard(a[..])
    modifies a
    ensures a[..] == old(a[..])
    ensures score == MinimaxValue(old(a[..]), isMaximizing)
    decreases EmptyCount(a[..])
  {
    var aiWins := CheckWin(a, AI);
    if aiWins {
      return POS_INF;
    }
    var humanWins := CheckWin(a, HUMAN);
    if humanWins {
      return NEG_INF;
    }
    var full := IsBoardFull(a);
    if full {
      return 0;
    }
    // The two branches of the source differ only in the mark placed, the
    // starting bound and whether max or min keeps the running best.
    ghost var b := a[..];
    var mark := Mark(isMaximizing);
    var best := Start(isMaximizing);
    for row := 0 to BOARD_ROWS
      invariant a[..] == b
      invariant best == Fold(b, isMaximizing, Idx(row, 0))
    {
      for col := 0 to BOARD_COLS
        invariant a[..] == b
        invariant best == Fold(b, isMaximizing, Idx(row, col))
      {
        var i := Idx(row, col);
        if a[i] == EMPTY {
          a[i] := mark;
          MarkLowersEmptyCount(b, i, mark);
          var s := Minimax(a, !isMaximizing);
          a[i] := EMPTY;
          assert a[..] == b[i := mark][i := EMPTY];
          best := Better(isMaximizing, best, s);
        }
      }
    }
    return best;
  }

  /** The state of `best_move`'s scan: the best score so far and the cell
      that reached it, or None while no cell has beaten -1000. */
  datatype Choice = Choice(score: int, move: Option<int>)

  /** The score `best_move` gives the empty cell `i`: the AI takes it and the
      human is to move. */
  function MoveScore(b: seq<int>, i: int): (r: int)
    requires ValidBoard(b) && 0 <= i < CELLS && b[i] == EMPTY
    ensures IsScore(r)
  {
    ChildValue(b, true, i)
  }

  /** The scan of `best_move` over the first `n` cells in row-major order:
      a cell replaces the current choice only when its score is strictly
      greater. */
  function BestFrom(b: seq<int>, n: int): (c: Choice)
    requires ValidBoard(b) && 0 <= n <= CELLS
    ensures c.move == None ==> c.score == -1000
    ensures c.move.Some? ==>
      && 0 <= c.move.value < n && b[c.move.value] == EMPTY
      && c.score == MoveScore(b, c.move.value) && c.score > -1000
  {
    if n == 0 then Choice(-1000, None)
    else
      var c := BestFrom(b, n - 1);
      if b[n - 1] == EMPTY && MoveScore(b, n - 1) > c.score then Choice(MoveScore(b, n - 1), Some(n - 1))
      else c
  }

  /** The cell `best_move` marks for the AI, or None when it finds no move. */
  function BestMoveSpec(b: seq<int>): (r: Option<int>)
    requires ValidBoard(b)
    ensures r.Some? ==> 0 <= r.value < CELLS && b[r.value] == EMPTY
  {
    BestFromChoice(b, CELLS);
    BestFrom(b, CELLS).move
  }

  /** The scan over the first `n` cells either has found nothing, and then no
      empty cell among them scores above -1000, or has found the first
      empty cell among them with the greatest score, which is above -1000. */
  lemma {:induction false} BestFromChoice(b: seq<int>, n: int)
    requires ValidBoard(b) && 0 <= n <= CELLS
    ensures var c := BestFrom(b, n);
      && (c.move == None <==> forall i :: 0 <= i < n && b[i] == EMPTY ==> MoveScore(b, i) <= -1000)
      && (c.move == None ==> c.score == -1000)
      && (c.move.Some? ==>
            var k := c.move.value;
            && 0 <= k < n && b[k] == EMPTY && c.score == MoveScore(b, k) && c.score > -1000
            && (forall i :: 0 <= i < n && b[i] == EMPTY ==> MoveScore(b, i) <= c.score)
            && (forall i :: 0 <= i < k && b[i] == EMPTY ==> MoveScore(b, i) < c.score))
  {
    if n > 0 {
      BestFromChoice(b, n - 1);
    }
  }

  /** `best_move` marks a cell exactly when some empty cell scores above
      -1000, and then it is the first empty cell in row-major order with
      the greatest score; on a full board it finds nothing. */
  lemma BestMoveChoice(b: seq<int>)
    requires ValidBoard(b)
    ensures BestMoveSpec(b) == None <==> forall i :: 0 <= i < CELLS && b[i] == EMPTY ==> MoveScore(b, i) <= -1000
    ensures Full(b) ==> BestMoveSpec(b) == None
    ensures BestMoveSpec(b).Some? ==>
      var k := BestMoveSpec(b).value;
      && 0 <= k < CELLS && b[k] == EMPTY && MoveScore(b, k) > -1000
      && (forall i :: 0 <= i < CELLS && b[i] == EMPTY ==> MoveScore(b, i) <= MoveScore(b, k))
      && (forall i :: 0 <= i < k && b[i] == EMPTY ==> MoveScore(b, i) < MoveScore(b, k))
  {
    BestFromChoice(b, CELLS);
  }

  /** When exactly one empty cell completes an AI line, `best_move` takes it:
      that cell scores POS_INF and every other cell at most 1000. */
  lemma ImmediateWinChosen(b: seq<int>, k: int)
    requires ValidBoard(b) && 0 <= k < CELLS && b[k] == EMPTY
    requires Wins(b[k := AI], AI)
    requires forall i :: 0 <= i < CELLS && i != k && b[i] == EMPTY ==> !Wins(b[i := AI], AI)
    ensures BestMoveSpec(b) == Some(k)
  {
    assert MoveScore(b, k) == POS_INF by {
      assert ChildValue(b, true, k) == MinimaxValue(b[k := AI], false);
    }
    forall i | 0 <= i < CELLS && i != k && b[i] == EMPTY
      ensures MoveScore(b, i) < MoveScore(b, k)
    {
      MinimizingAtMost1000(b[i := AI]);
      assert ChildValue(b, true, i) == MinimaxValue(b[i := AI], false);
    }
    BestMoveChoice(b);
  }

  /** In the lost position below, the AI's mark on cell `k` (2 or 6) leaves
      the human the other empty cell `j`, which completes a human line. */
  lemma LostAfterAiMove(k: int, j: int, line: int)
    requires (k, j, line) == (2, 6, 0) || (k, j, line) == (6, 2, 3)
    ensures var b := [1, 1, 0, 1, 2, 2, 0, 2, 1][k := AI];
      ValidBoard(b) && MinimaxValue(b, false) == NEG_INF
  {
    var b := [1, 1, 0, 1, 2, 2, 0, 2, 1][k := AI];
    assert !Wins(b, AI) && !Wins(b, HUMAN) by {
      forall n | 0 <= n < 8 ensures !Owns(b, Line(n), AI) && !Owns(b, Line(n), HUMAN) { }
    }
    assert Owns(b[j := HUMAN], Line(line), HUMAN);
    assert ChildValue(b, false, j) == NEG_INF;
    FoldIsBest(b, false, CELLS);
  }

  /** A board where every AI move lets the human complete a line: the AI's
      score is the starting bound -1000, not NEG_INF, and `best_move`
      finds no move although two cells are empty.

        1 1 .
        1 2 2
        . 2 1                                                            */
  lemma LostPositionHasNoMove()
    ensures var b := [1, 1, 0, 1, 2, 2, 0, 2, 1];
      && ValidBoard(b) && !Full(b)
      && MinimaxValue(b, true) == -1000
      && BestMoveSpec(b) == None
  {
    var b := [1, 1, 0, 1, 2, 2, 0, 2, 1];
    assert !Wins(b, AI) && !Wins(b, HUMAN) by {
      forall n | 0 <= n < 8 ensures !Owns(b, Line(n), AI) && !Owns(b, Line(n), HUMAN) { }
    }
    LostAfterAiMove(2, 6, 0);
    LostAfterAiMove(6, 2, 3);
    assert MoveScore(b, 2) == NEG_INF;
    assert MoveScore(b, 6) == NEG_INF;
    FoldIsBest(b, true, CELLS);
    BestMoveChoice(b);
  }
}
