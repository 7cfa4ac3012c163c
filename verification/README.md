# Tic-tac-toe engine with minimax AI — a Dafny model

This project models the game engine of a human-versus-AI tic-tac-toe game
(`CSEG_Prelim_LabExam/main.py`). The engine has these parts:

- the 3x3 board of cell codes 0 (empty), 1 (human) and 2 (AI);
- the board primitives `mark_square`, `available_square` and `is_board_full`;
- `check_win`, which tries the 3 columns, the 3 rows and the 2 diagonals;
- `minimax`, an exhaustive game-tree search that marks, recurses and
  unmarks on one shared board;
- `best_move`, which picks the AI's reply;
- `board_to_string`, the board snapshot saved with each finished game;
- the per-click turn logic of the event loop.

Modules:

- `Rules` (`rules.dfy`): the board as a row-major `seq<int>` of nine cells.
  Cell (row, col) is at index `3 * row + col`. The module also holds the
  eight winning lines, and `CheckWin` and `IsBoardFull` as loop methods
  over an `array<int>`. Each method is proved against the pure predicates
  `Wins` and `Full`.
- `Search` (`search.dfy`): `MinimaxValue` is the value of the search as a
  pure function. `Minimax` is the in-place recursive method, proved equal
  to that function and proved to leave the array as it found it. The
  module also holds the specification of `best_move` (`BestMoveSpec`) and
  its characterisation. The search terminates because every tentative
  mark lowers the number of empty cells.
- `Snapshot` (`snapshot.dfy`): `board_to_string` and a parser for its
  output. The round trip through both is proved.
- `Game` (`game.dfy`): the class `TicTacToe` holds the globals `board`,
  `player` and `game_over`, and a ghost `log`. Each record in the log
  stands for one row inserted by `save_game_result`. `Click` handles one
  mouse click and is proved equal to the pure `ClickSpec`. The lemmas
  about `ClickSpec` state what a click may change. A state is
  `Consistent` when the game is over exactly when some player has a line
  or the board is full, and never do both players have a line. The
  opening is consistent, every click keeps it so, and hence so is every
  state that play reaches (`PlayKeepsConsistent`).

Scores. The source uses `float('inf')` and `float('-inf')` only as ordered
sentinels. Here they are the integers `POS_INF` and `NEG_INF`, chosen so
that `NEG_INF < -1000 < 0 < 1000 < POS_INF`. Every comparison the search
makes gives the same answer.

A search can return five values: `NEG_INF`, -1000, 0, 1000 and `POS_INF`.
The running best starts at -1000 for the AI and at 1000 for the human. If
every move of the player to move is worse than that bound, the bound is
returned: `max(-1000, -inf)` is -1000. `best_move` keeps only a cell whose
score is strictly above -1000. So when every AI move loses, it marks
nothing even though cells are still empty. `LostPositionHasNoMove` proves
this on a concrete board with two empty cells. The click handler then
keeps `player` at 2, so the human's next click places a 2. Whether such a
board can be reached when the AI plays by `best_move` from the opening is
not proved here; the model states the behaviour on every board.

## Model

| member | source | states |
|---|---|---|
| `Rules.CheckWin` | CSEG_Prelim_LabExam/main.py:106-122 | answers true exactly when `p` owns one of the 8 lines (3 columns, 3 rows, 2 diagonals); reads the board only |
| `Rules.IsBoardFull` | CSEG_Prelim_LabExam/main.py:97-103 | answers true exactly when no cell is 0; reads the board only |
| `Rules.MarkLowersEmptyCount` | CSEG_Prelim_LabExam/main.py:138-140 | a tentative mark on an empty cell leaves one empty cell fewer, which bounds the recursion |
| `Rules.FullIffNoEmpty` | CSEG_Prelim_LabExam/main.py:97-103 | a board is full exactly when it has no empty cell left |
| `Rules.MarkKeepsOtherLines` | CSEG_Prelim_LabExam/main.py:201-215 | a mark of one player cannot complete a line of another player, so every line after the mark either is the mover's or was already there |
| `Search.MinimaxValue` | CSEG_Prelim_LabExam/main.py:125-153 | the value of the search is always NEG_INF, -1000, 0, 1000 or POS_INF |
| `Search.ChildValue` | CSEG_Prelim_LabExam/main.py:138-141 | the score of one tentative move is again one of the five scores |
| `Search.Fold` | CSEG_Prelim_LabExam/main.py:134-153 | the running best of the row-major scan stays one of the five scores |
| `Search.MinimaxTerminal` | CSEG_Prelim_LabExam/main.py:127-132 | the base cases in order: an AI line gives POS_INF, otherwise a human line gives NEG_INF, otherwise a full board gives 0 |
| `Search.FoldIsBest` | CSEG_Prelim_LabExam/main.py:134-153 | after n cells the running best is the max (AI) or min (human) of the starting bound and the scores of the empty cells seen, and equals one of them |
| `Search.MinimaxAggregates` | CSEG_Prelim_LabExam/main.py:134-153 | on a board with no line and an empty cell, the value is the max or min over all empty cells' scores together with the bound -1000 or 1000 |
| `Search.MinimizingAtMost1000` | CSEG_Prelim_LabExam/main.py:144-153 | with the human to move and no AI line, the value is at most 1000 |
| `Search.Minimax` | CSEG_Prelim_LabExam/main.py:125-153 | the in-place search returns `MinimaxValue` of the board and restores every cell it marked |
| `Search.MoveScore` | CSEG_Prelim_LabExam/main.py:162-165 | the score `best_move` gives an empty cell is one of the five scores |
| `Search.BestFrom` | CSEG_Prelim_LabExam/main.py:158-168 | after scanning the first n cells, the kept choice is either nothing with the starting score -1000, or an empty cell among them whose own score is strictly above -1000 and is the kept score |
| `Search.BestMoveSpec` | CSEG_Prelim_LabExam/main.py:156-172 | a chosen cell is on the board and empty |
| `Search.BestFromChoice` | CSEG_Prelim_LabExam/main.py:158-168 | after n cells the scan holds nothing (score -1000) exactly when no empty cell seen scores above -1000; otherwise it holds the first empty cell with the greatest score |
| `Search.BestMoveChoice` | CSEG_Prelim_LabExam/main.py:156-172 | no move exactly when no empty cell scores above -1000 (in particular on a full board); otherwise the first empty cell in row-major order with the maximal score, which is above -1000 |
| `Search.ImmediateWinChosen` | CSEG_Prelim_LabExam/main.py:156-172 | when exactly one empty cell completes an AI line, `best_move` picks that cell |
| `Search.LostAfterAiMove` | CSEG_Prelim_LabExam/main.py:144-153 | on the lost board, each AI move leaves the human a winning reply, so its score is NEG_INF |
| `Search.LostPositionHasNoMove` | CSEG_Prelim_LabExam/main.py:158-172 | on a board where every AI move loses, the AI's value is -1000 and `best_move` finds no move although cells are empty |
| `Snapshot.BoardToString` | CSEG_Prelim_LabExam/main.py:49-51 | the snapshot is 35 characters: the text of cell i ("0.0", "1.0" or "2.0") at positions 4i to 4i+2, and a comma at exactly the positions 3, 7, ..., 31 |
| `Snapshot.JoinLayout` | CSEG_Prelim_LabExam/main.py:51 | joining three-character tokens without commas puts token i at positions 4i to 4i+2 and a comma at exactly every fourth position |
| `Snapshot.BoardToStringTokens` | CSEG_Prelim_LabExam/main.py:49-51 | the snapshot has exactly 9 comma-separated tokens; token i is the text of cell (i / 3, i % 3) and is "0.0", "1.0" or "2.0" |
| `Snapshot.BoardToStringRoundTrip` | CSEG_Prelim_LabExam/main.py:49-51 | parsing the snapshot gives back the same nine cells |
| `Snapshot.SplitJoin` | CSEG_Prelim_LabExam/main.py:51 | splitting a comma-joined list of comma-free tokens gives the tokens back |
| `Game.PlayerLabel` | CSEG_Prelim_LabExam/main.py:204 | the label is 'Player ' followed by the player's digit, an outcome label distinct from 'AI' and 'Draw' |
| `Game.Finish` | CSEG_Prelim_LabExam/main.py:203-206 | saving a result ends the game and appends exactly one record, the current snapshot with the winner label, after the earlier records; board and turn are unchanged |
| `Game.NextPlayer` | CSEG_Prelim_LabExam/main.py:207 | `player % 2 + 1` hands the turn to the other player |
| `Game.CellOfPixel` | CSEG_Prelim_LabExam/main.py:198-199 | a pixel in the 300x300 window falls in the cell whose 100-pixel square contains it |
| `Game.HumanMove` | CSEG_Prelim_LabExam/main.py:201-207 | the human's move keeps the board's cells in {0,1,2} and the player in {1,2} |
| `Game.AiTurn` | CSEG_Prelim_LabExam/main.py:210-215 | the AI's reply keeps the board's cells in {0,1,2} and the player in {1,2} |
| `Game.AiReply` | CSEG_Prelim_LabExam/main.py:209-215 | the AI replies only while the game is on, and keeps the state well-formed |
| `Game.DrawCheck` | CSEG_Prelim_LabExam/main.py:217-221 | the draw check keeps the state well-formed |
| `Game.ClickSpec` | CSEG_Prelim_LabExam/main.py:197-221 | one click keeps the board's cells in {0,1,2} and the player in {1,2} |
| `Game.ClickIgnored` | CSEG_Prelim_LabExam/main.py:197-201 | a click while the game is over, or on an occupied cell, changes nothing |
| `Game.ClickMarks` | CSEG_Prelim_LabExam/main.py:201-215 | an accepted click puts the player's mark on the clicked cell and at most one AI mark on another empty cell; no other cell changes |
| `Game.ClickLogsOutcome` | CSEG_Prelim_LabExam/main.py:203-221 | once set, `game_over` stays set; the click that sets it logs exactly one record with the final snapshot, labelled 'Player n' (n the mover), 'AI' or 'Draw'; the mover's label is saved exactly when the mover's mark completes a line, 'AI' only on an AI line; from a consistent state 'Draw' is saved exactly when the final board is full with no line of either player; any other click logs nothing |
| `Game.ClickKeepsConsistent` | CSEG_Prelim_LabExam/main.py:197-221 | a click from a consistent state (game over exactly when there is a line or a full board, never lines of both players) leads to a consistent state |
| `Game.Play` | CSEG_Prelim_LabExam/main.py:192-221 | a run of clicks keeps the state well-formed, and once the game is over further clicks change nothing |
| `Game.PlayKeepsConsistent` | CSEG_Prelim_LabExam/main.py:192-221 | every state reached by clicks from a consistent state is consistent |
| `Game.ReachableDrawHasNoLine` | CSEG_Prelim_LabExam/main.py:189-221 | in any game played from the opening, a click that saves 'Draw' leaves a full board with no line of either player |
| `Game.InitialState` | CSEG_Prelim_LabExam/main.py:189-190 | the game opens with nine empty cells, player 1 to move, the game on and nothing saved; this state is consistent |
| `Game.HumanWinEndsGame` | CSEG_Prelim_LabExam/main.py:201-209 | when the human completes the top row, the game ends with 'Player 1' and the AI makes no move |
| `Game.LastCellDraw` | CSEG_Prelim_LabExam/main.py:201-221 | when the human fills the last cell without a line, `best_move` finds nothing and the game is saved as 'Draw' |
| `Game.TicTacToe.constructor` | CSEG_Prelim_LabExam/main.py:46 | a fresh board of zeros, player 1, game not over, nothing saved |
| `Game.TicTacToe.MarkSquare` | CSEG_Prelim_LabExam/main.py:87-89 | cell (row, col) becomes `p` and the other eight cells are unchanged; afterwards the cell is not available |
| `Game.TicTacToe.AvailableSquare` | CSEG_Prelim_LabExam/main.py:92-94 | true exactly when cell (row, col) is 0, in which case the board is not full |
| `Game.TicTacToe.SaveGameResult` | CSEG_Prelim_LabExam/main.py:54-58 | appends one record of the current snapshot and the winner label |
| `Game.TicTacToe.BestMove` | CSEG_Prelim_LabExam/main.py:156-172 | marks with 2 exactly the cell `BestMoveSpec` picks and returns true, or leaves the board unchanged and returns false |
| `Game.TicTacToe.PlayHuman` | CSEG_Prelim_LabExam/main.py:201-207 | the human's mark, the line check with its 'Player n' record, and the turn hand-over, as `HumanMove` |
| `Game.TicTacToe.ReplyAi` | CSEG_Prelim_LabExam/main.py:209-215 | the AI's move, its line check with the 'AI' record, and the turn hand-over, as `AiReply` |
| `Game.TicTacToe.CheckDraw` | CSEG_Prelim_LabExam/main.py:217-221 | a full board with the game on is saved as 'Draw' and ends the game, as `DrawCheck` |
| `Game.TicTacToe.Click` | CSEG_Prelim_LabExam/main.py:197-221 | one click changes the board, `player`, `game_over` and the log exactly as `ClickSpec` says, and keeps a consistent state consistent |

## Left out

- Drawing and the window (pygame setup, `draw_lines`, `draw_figures`, the colour choice at the end of each frame): this is UI over an external library.
- The sqlite database: connecting, creating the table, the INSERT (only its effect, one record appended to the ghost `log`), `display_last_winner`, `display_game_results` and all printing. The record's timestamp is not modelled.
- The event polling loop and `sys.exit` on window close: one click is one call of `Click`.
- Float semantics and numpy. Cells are integers 0, 1 and 2 (rendered "0.0", "1.0", "2.0" in the snapshot), and the infinities are the integer sentinels described above. The 3x3 array is stored row-major in a nine-cell `array<int>`.
- The `depth` parameter of `minimax`: it is incremented but never read.
- Game.TicTacToe.Click: requires the pixel to lie inside the 300x300 window, which is where pointer events are delivered; an index outside the board is not modelled.
- Game.TicTacToe.MarkSquare: accepts only the marks 1 and 2, the only values any caller passes, so that the board stays made of cell codes.
- The claim that the AI can never be beaten from the empty board: proving it needs the value of the whole game tree from the empty board, which is too large to evaluate symbolically.
- The parser `ParseBoard` has no counterpart in the program; it exists only to state the round trip of the snapshot format.
