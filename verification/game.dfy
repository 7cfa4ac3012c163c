/** The game state and one mouse click of the event loop: the human's mark,
    the win check, the AI's reply and the draw check.  Each finished game
    appends one record, which stands for the row `save_game_result` inserts
    into the results table. */
module Game {
  import opened Rules
  import opened Wrappers
  import opened Search
  import opened Snapshot

  const WIDTH := 300
  const HEIGHT := 300
  const SQUARE_SIZE := WIDTH / BOARD_COLS

  /** A saved result: the board snapshot and the outcome label. */
  datatype Record = Record(board: string, winner: string)

  /** `'Player ' + str(player)`: the outcome label naming the player by
      number. */
  function PlayerLabel(p: int): (r: string)
    requires IsPlayer(p)
    ensures IsOutcome(r) && r != "AI" && r != "Draw"
    ensures |r| == 8 && r[..7] == "Player " && r[7] as int - '0' as int == p
  {
    if p == HUMAN then "Player 1" else "Player 2"
  }

  predicate IsOutcome(w: string) {
    w == "Player 1" || w == "Player 2" || w == "AI" || w == "Draw"
  }

  /** `player % 2 + 1`: hands the turn to the other player. */
  function NextPlayer(p: int): (q: int)
    requires IsPlayer(p)
    ensures IsPlayer(q) && q != p
  {
    p % 2 + 1
  }

  /** Everything one click can change. */
  datatype GameState = GameState(board: seq<int>, player: int, gameOver: bool, log: seq<Record>)

  predicate ValidState(s: GameState) {
    ValidBoard(s.board) && IsPlayer(s.player)
  }

  /** The board's cell for pixel (x, y): `x // SQUARE_SIZE` is the column and
      `y // SQUARE_SIZE` the row. */
  function CellOfPixel(x: int, y: int): (cell: (int, int))
    requires 0 <= x < WIDTH && 0 <= y < HEIGHT
    ensures 0 <= cell.0 < BOARD_ROWS && 0 <= cell.1 < BOARD_COLS
    ensures cell.0 * SQUARE_SIZE <= y < (cell.0 + 1) * SQUARE_SIZE
    ensures cell.1 * SQUARE_SIZE <= x < (cell.1 + 1) * SQUARE_SIZE
  {
    assert SQUARE_SIZE == 100;
    (y / SQUARE_SIZE, x / SQUARE_SIZE)
  }

  /** Saves the result with the current board and ends the game. */
  function Finish(s: GameState, winner: string): (t: GameState)
    requires ValidBoard(s.board)
    ensures t.gameOver && t.board == s.board && t.player == s.player
    ensures |t.log| == |s.log| + 1 && t.log[..|s.log|] == s.log
    ensures t.log[|s.log|] == Record(BoardToString(s.board), winner)
  {
    s.(log := s.log + [Record(BoardToString(s.board), winner)], gameOver := true)
  }

  /** The AI's reply: `best_move`, then the AI win check, then the turn
      passes on.  When `best_move` finds nothing, nothing changes. */
  function AiTurn(s: GameState): (t: GameState)
    requires ValidState(s)
    ensures ValidState(t)
  {
    match BestMoveSpec(s.board)
    case None => s
    case Some(k) =>
      var moved := s.(board := s.board[k := AI]);
      var ended := if Wins(moved.board, AI) then Finish(moved, "AI") else moved;
      ended.(player := NextPlayer(ended.player))
  }

  /** The human's mark on an empty cell, the check for a line of the
      player who moved, and the hand-over of the turn. */
  function HumanMove(s: GameState, row: int, col: int): (t: GameState)
    requires ValidState(s) && 0 <= row < BOARD_ROWS && 0 <= col < BOARD_COLS
    ensures ValidState(t)
  {
    var marked := s.(board := s.board[Idx(row, col) := s.player]);
    var ended := if Wins(marked.board, s.player) then Finish(marked, PlayerLabel(s.player)) else marked;
    ended.(player := NextPlayer(ended.player))
  }

  /** The AI replies only while the game is still on. */
  function AiReply(s: GameState): (t: GameState)
    requires ValidState(s)
    ensures ValidState(t)
  {
    if s.gameOver then s else AiTurn(s)
  }

  /** A full board with the game still on is saved as a draw. */
  function DrawCheck(s: GameState): (t: GameState)
    requires ValidState(s)
    ensures ValidState(t)
  {
    if !s.gameOver && Full(s.board) then Finish(s, "Draw") else s
  }

  /** One click on cell (row, col), as the event loop handles it: ignored
      once the game is over or when the cell is taken; otherwise the human's
      move, the AI's reply and the draw check, in that order. */
  function ClickSpec(s: GameState, row: int, col: int): (t: GameState)
    requires ValidState(s) && 0 <= row < BOARD_ROWS && 0 <= col < BOARD_COLS
    ensures ValidState(t)
  {
    if s.gameOver || s.board[Idx(row, col)] != EMPTY then s
    else DrawCheck(AiReply(HumanMove(s, row, col)))
  }

  /** A click while the game is over, or on an occupied cell, changes nothing. */
  lemma ClickIgnored(s: GameState, row: int, col: int)
    requires ValidState(s) && 0 <= row < BOARD_ROWS && 0 <= col < BOARD_COLS
    requires s.gameOver || s.board[Idx(row, col)] != EMPTY
    ensures ClickSpec(s, row, col) == s
  {
  }

  /** An accepted click puts the player's mark on the clicked cell, and adds
      at most one AI mark on another cell that was empty; no other cell
      changes. */
  lemma ClickMarks(s: GameState, row: int, col: int)
    requires ValidState(s) && 0 <= row < BOARD_ROWS && 0 <= col < BOARD_COLS
    requires !s.gameOver && s.board[Idx(row, col)] == EMPTY
    ensures var t := ClickSpec(s, row, col);
      var marked := s.board[Idx(row, col) := s.player];
      || t.board == marked
      || exists k :: 0 <= k < CELLS && k != Idx(row, col) && s.board[k] == EMPTY && t.board == marked[k := AI]
  {
    var marked := s.board[Idx(row, col) := s.player];
    if !Wins(marked, s.player) {
      var handed := s.(board := marked, player := NextPlayer(s.player));
      match BestMoveSpec(marked)
      case None =>
      case Some(k) =>
        assert AiTurn(handed).board == marked[k := AI];
    }
  }

  /** Once the game is over it stays over.  A click that ends the game logs
      exactly one result, with the final board and an outcome that matches
      it: the mover's label exactly when the mover's mark completes a line,
      'AI' only on an AI line, and, from a consistent state, 'Draw' exactly
      when the final board is full with no line.  Any other click logs
      nothing. */
  lemma ClickLogsOutcome(s: GameState, row: int, col: int)
    requires ValidState(s) && 0 <= row < BOARD_ROWS && 0 <= col < BOARD_COLS
    ensures var t := ClickSpec(s, row, col);
      && (s.gameOver ==> t.gameOver)
      && (t.gameOver == s.gameOver ==> t.log == s.log)
      && (t.gameOver && !s.gameOver ==>
            && |t.log| == |s.log| + 1 && t.log[..|s.log|] == s.log
            && var w := t.log[|s.log|].winner;
            && t.log[|s.log|].board == BoardToString(t.board)
            && IsOutcome(w)
            && (w == PlayerLabel(s.player) || w == "AI" || w == "Draw")
            && (w == PlayerLabel(s.player) <==> Wins(s.board[Idx(row, col) := s.player], s.player))
            && (w == PlayerLabel(s.player) ==> Wins(t.board, s.player))
            && (w == "AI" ==> Wins(t.board, AI))
            && (w == "Draw" ==> Full(t.board) && !Wins(t.board, s.player))
            && (Consistent(s) && w == "Draw" ==> !Wins(t.board, HUMAN) && !Wins(t.board, AI))
            && (Consistent(s) && Full(t.board) && !Wins(t.board, HUMAN) && !Wins(t.board, AI) ==> w == "Draw"))
  {
    var t := ClickSpec(s, row, col);
    if !s.gameOver && s.board[Idx(row, col)] == EMPTY {
      var marked := s.board[Idx(row, col) := s.player];
      if !Wins(marked, s.player) {
        var handed := s.(board := marked, player := NextPlayer(s.player));
        match BestMoveSpec(marked)
        case None =>
        case Some(k) =>
          MarkKeepsOtherLines(marked, k, AI, HUMAN);
      }
      MarkKeepsOtherLines(s.board, Idx(row, col), s.player, NextPlayer(s.player));
    }
  }

  /** What every state reached by play satisfies: the game is over exactly
      when some player has a line or the board is full, and never do both
      players have a line. */
  predicate Consistent(s: GameState) {
    && ValidState(s)
    && (s.gameOver <==> Terminal(s.board))
    && !(Wins(s.board, HUMAN) && Wins(s.board, AI))
  }

  /** A click keeps the state consistent: a line or a full board ends the
      game in the same click that makes it, and a mark never completes a
      line of the other player. */
  lemma ClickKeepsConsistent(s: GameState, row: int, col: int)
    requires ValidState(s) && 0 <= row < BOARD_ROWS && 0 <= col < BOARD_COLS
    requires Consistent(s)
    ensures Consistent(ClickSpec(s, row, col))
  {
    if !s.gameOver && s.board[Idx(row, col)] == EMPTY {
      var p := s.player;
      var marked := s.board[Idx(row, col) := p];
      MarkKeepsOtherLines(s.board, Idx(row, col), p, NextPlayer(p));
      var h := HumanMove(s, row, col);
      if !Wins(marked, p) {
        assert !Wins(marked, HUMAN) && !Wins(marked, AI);
        match BestMoveSpec(marked)
        case None =>
          assert AiReply(h).board == marked;
        case Some(k) =>
          MarkKeepsOtherLines(marked, k, AI, HUMAN);
          assert AiReply(h).board == marked[k := AI];
      }
    }
  }

  /** Only cells of the 3x3 board are clicked. */
  predicate OnBoard(c: (int, int)) {
    0 <= c.0 < BOARD_ROWS && 0 <= c.1 < BOARD_COLS
  }

  /** The state after a sequence of clicks. */
  function Play(s: GameState, clicks: seq<(int, int)>): (t: GameState)
    requires ValidState(s) && forall j :: 0 <= j < |clicks| ==> OnBoard(clicks[j])
    ensures ValidState(t)
    ensures s.gameOver ==> t == s
    decreases |clicks|
  {
    if |clicks| == 0 then s
    else
      assert OnBoard(clicks[0]);
      Play(ClickSpec(s, clicks[0].0, clicks[0].1), clicks[1..])
  }

  /** Every state reached from the opening by clicks is consistent: no board
      of a game has a line of both players, and the game is over exactly when
      there is a line or no empty cell. */
  lemma {:induction false} PlayKeepsConsistent(s: GameState, clicks: seq<(int, int)>)
    requires Consistent(s) && forall j :: 0 <= j < |clicks| ==> OnBoard(clicks[j])
    ensures Consistent(Play(s, clicks))
    decreases |clicks|
  {
    if |clicks| > 0 {
      assert OnBoard(clicks[0]);
      ClickKeepsConsistent(s, clicks[0].0, clicks[0].1);
      PlayKeepsConsistent(ClickSpec(s, clicks[0].0, clicks[0].1), clicks[1..]);
    }
  }

  /** A draw saved in any game reached from the opening has no line of
      either player on its board. */
  lemma ReachableDrawHasNoLine(clicks: seq<(int, int)>, row: int, col: int)
    requires forall j :: 0 <= j < |clicks| ==> OnBoard(clicks[j])
    requires 0 <= row < BOARD_ROWS && 0 <= col < BOARD_COLS
    ensures var s := Play(InitialState(), clicks);
      var t := ClickSpec(s, row, col);
      t.gameOver && !s.gameOver && t.log[|s.log|].winner == "Draw" ==>
        Full(t.board) && !Wins(t.board, HUMAN) && !Wins(t.board, AI)
  {
    PlayKeepsConsistent(InitialState(), clicks);
    ClickLogsOutcome(Play(InitialState(), clicks), row, col);
  }

  /** The opening of a game: an empty board, the human to move, nothing
      saved; it is consistent, since an empty board has no line and is not
      full. */
  function InitialState(): (s: GameState)
    ensures ValidState(s) && EmptyCount(s.board) == CELLS && !s.gameOver
    ensures s.player == HUMAN && s.log == []
    ensures Consistent(s)
  {
    var s := GameState(seq(CELLS, _ => EMPTY), HUMAN, false, []);
    assert s.board == [EMPTY, EMPTY, EMPTY, EMPTY, EMPTY, EMPTY, EMPTY, EMPTY, EMPTY];
    FullIffNoEmpty(s.board);
    assert !Wins(s.board, HUMAN) && !Wins(s.board, AI) by {
      forall k | 0 <= k < 8 ensures !Owns(s.board, Line(k), HUMAN) && !Owns(s.board, Line(k), AI) { }
    }
    s
  }

  /** The human completes the top row: the game ends at once with
      "Player 1", and no AI move is searched for.

        1 1 .        1 1 1
        2 2 .   ->   2 2 .
        . . .        . . .                                              */
  lemma HumanWinEndsGame()
    ensures var s := GameState([1, 1, 0, 2, 2, 0, 0, 0, 0], HUMAN, false, []);
      var t := ClickSpec(s, 0, 2);
      && t.board == [1, 1, 1, 2, 2, 0, 0, 0, 0]
      && t.gameOver && t.player == AI
      && t.log == [Record(BoardToString(t.board), "Player 1")]
  {
    var s := GameState([1, 1, 0, 2, 2, 0, 0, 0, 0], HUMAN, false, []);
    var b := [1, 1, 1, 2, 2, 0, 0, 0, 0];
    assert s.board[Idx(0, 2) := HUMAN] == b;
    assert Owns(b, Line(3), HUMAN);
  }

  /** The human fills the last cell without a line: `best_move` finds no move
      on the full board and the game is saved as a draw.

        1 2 1        1 2 1
        1 2 2   ->   1 2 2
        2 1 .        2 1 1                                              */
  lemma LastCellDraw()
    ensures var s := GameState([1, 2, 1, 1, 2, 2, 2, 1, 0], HUMAN, false, []);
      var t := ClickSpec(s, 2, 2);
      && t.gameOver && t.player == AI
      && |t.log| == 1 && t.log[0].winner == "Draw"
  {
    var s := GameState([1, 2, 1, 1, 2, 2, 2, 1, 0], HUMAN, false, []);
    var b := [1, 2, 1, 1, 2, 2, 2, 1, 1];
    assert s.board[Idx(2, 2) := HUMAN] == b;
    assert !Wins(b, HUMAN) by {
      forall k | 0 <= k < 8 ensures !Owns(b, Line(k), HUMAN) { }
    }
    assert Full(b);
    BestMoveChoice(b);
    var handed := s.(board := b, player := AI);
    assert AiTurn(handed) == handed;
    var t := ClickSpec(s, 2, 2);
    assert t == Finish(handed, "Draw");
  }

  /** The game as the event loop keeps it in globals: the board (a 3x3 grid
      stored row-major), whose turn it is, whether the game is over, and the
      results saved so far. */
  class TicTacToe {
    var board: array<int>
    var player: int
    var gameOver: bool
    ghost var log: seq<Record>

    ghost predicate Valid()
      reads this, board
    {
      ValidBoard(board[..]) && IsPlayer(player)
    }

    ghost function State(): GameState
      reads this, board
    {
      GameState(board[..], player, gameOver, log)
    }

    constructor ()
      ensures Valid() && fresh(board)
      ensures State() == InitialState()
    {
      board := new int[CELLS](_ => EMPTY);
      player := HUMAN;
      gameOver := false;
      log := [];
    }

    /** `mark_square(row, col, player)`: writes one cell, whatever it held. */
    method MarkSquare(row: int, col: int, p: int)
      requires Valid() && 0 <= row < BOARD_ROWS && 0 <= col < BOARD_COLS && IsPlayer(p)
      modifies board
      ensures Valid()
      ensures board[..] == old(board[..])[Idx(row, col) := p]
      ensures !AvailableSquare(row, col)
    {
      board[Idx(row, col)] := p;
    }

    /** `available_square(row, col)`: the cell is empty, so the board is not
      full yet. */
    predicate AvailableSquare(row: int, col: int)
      requires board.Length == CELLS && 0 <= row < BOARD_ROWS && 0 <= col < BOARD_COLS
      reads this, board
      ensures AvailableSquare(row, col) <==> board[..][Idx(row, col)] == EMPTY
      ensures AvailableSquare(row, col) ==> !Full(board[..])
    {
      board[Idx(row, col)] == EMPTY
    }

    /** `save_game_result(winner)`: one record with the current snapshot. */
    ghost method SaveGameResult(winner: string)
      requires Valid()
      modifies this`log
      ensures log == old(log) + [Record(BoardToString(board[..]), winner)]
    {
      log := log + [Record(BoardToString(board[..]), winner)];
    }

    /** `best_move()`: tries every empty cell in row-major order with a
      tentative AI mark, scores it with the human to move, takes back the
      mark, and keeps the first cell whose score is strictly above the best
      so far (starting from -1000).  If a cell was kept it is marked for the
      AI and the answer is true; otherwise the board is left as it was. */
    method BestMove() returns (moved: bool)
      requires Valid()
      modifies board
      ensures Valid()
      ensures moved <==> BestMoveSpec(old(board[..])).Some?
      ensures board[..] == match BestMoveSpec(old(board[..]))
        case Some(k) => old(board[..])[k := AI]
        case None => old(board[..])
    {
      ghost var b := board[..];
      var bestScore := -1000;
      var moveRow, moveCol := -1, -1;
      for row := 0 to BOARD_ROWS
        invariant board[..] == b
        invariant (moveRow, moveCol) == (-1, -1) || (0 <= moveRow < BOARD_ROWS && 0 <= moveCol < BOARD_COLS)
        invariant BestFrom(b, Idx(row, 0)) ==
          Choice(bestScore, if (moveRow, moveCol) == (-1, -1) then None else Some(Idx(moveRow, moveCol)))
      {
        for col := 0 to BOARD_COLS
          invariant board[..] == b
          invariant (moveRow, moveCol) == (-1, -1) || (0 <= moveRow < BOARD_ROWS && 0 <= moveCol < BOARD_COLS)
          invariant BestFrom(b, Idx(row, col)) ==
            Choice(bestScore, if (moveRow, moveCol) == (-1, -1) then None else Some(Idx(moveRow, moveCol)))
        {
          var i := Idx(row, col);
          if board[i] == EMPTY {
            board[i] := AI;
            var score := Minimax(board, false);
            board[i] := EMPTY;
            assert board[..] == b[i := AI][i := EMPTY];
            assert score == MoveScore(b, i);
            if score > bestScore {
              bestScore := score;
              moveRow, moveCol := row, col;
            }
          }
        }
      }
      if (moveRow, moveCol) != (-1, -1) {
        MarkSquare(moveRow, moveCol, AI);
        return true;
      }
      return false;
    }

    /** The human's move on an empty cell: the mark, the check for a line
      of the player who moved (saved as 'Player n'), and the hand-over of
      the turn. */
    method PlayHuman(row: int, col: int)
      requires Valid() && 0 <= row < BOARD_ROWS && 0 <= col < BOARD_COLS
      modifies this`player, this`gameOver, this`log, board
      ensures Valid()
      ensures State() == HumanMove(old(State()), row, col)
    {
      MarkSquare(row, col, player);
      var won := CheckWin(board, player);
      if won {
        SaveGameResult(PlayerLabel(player));
        gameOver := true;
      }
      player := NextPlayer(player);
    }

    /** While the game is on, the AI moves with `best_move`; if it moved,
      its line is checked (saved as 'AI') and the turn passes back. */
    method ReplyAi()
      requires Valid()
      modifies this`player, this`gameOver, this`log, board
      ensures Valid()
      ensures State() == AiReply(old(State()))
    {
      if !gameOver {
        var moved := BestMove();
        if moved {
          var aiWon := CheckWin(board, AI);
          if aiWon {
            SaveGameResult("AI");
            gameOver := true;
          }
          player := NextPlayer(player);
        }
      }
    }

    /** While the game is on, a full board is saved as a draw. */
    method CheckDraw()
      requires Valid()
      modifies this`gameOver, this`log
      ensures Valid()
      ensures State() == DrawCheck(old(State()))
    {
      if !gameOver {
        var full := IsBoardFull(board);
        if full {
          SaveGameResult("Draw");
          gameOver := true;
        }
      }
    }

    /** One mouse click at pixel (x, y) while the event loop runs; the pixel
      is inside the 300x300 window.  Ignored once the game is over or when
      the cell is taken. */
    method Click(x: int, y: int)
      requires Valid() && 0 <= x < WIDTH && 0 <= y < HEIGHT
      modifies this`player, this`gameOver, this`log, board
      ensures Valid()
      ensures State() == ClickSpec(old(State()), CellOfPixel(x, y).0, CellOfPixel(x, y).1)
      ensures Consistent(old(State())) ==> Consistent(State())
    {
      ghost var s := State();
      if Consistent(s) {
        ClickKeepsConsistent(s, CellOfPixel(x, y).0, CellOfPixel(x, y).1);
      }
      if !gameOver {
        var mouseX := x / SQUARE_SIZE;
        var mouseY := y / SQUARE_SIZE;
        if AvailableSquare(mouseY, mouseX) {
          PlayHuman(mouseY, mouseX);
          ReplyAi();
          CheckDraw();
        }
      }
    }
  }
}
