# Checkers rules engine: RS6 versus watermelons

This project models the rules engine of a two-player browser checkers game, the `CheckersGame`
class of `script.js`. The board is 8x8. The 'rs6' side starts on the dark cells of rows 0-2 and
moves first, towards higher rows. The 'watermelon' side starts on rows 5-7 and moves towards
row 0. A piece moves one cell diagonally onto an empty cell, or jumps two cells diagonally over a
piece of the other side, which is then removed. Only kings may move backwards. A piece is crowned
when it reaches the far row. A side with no pieces left has lost.

Two modules:

- `Rules` (`rules.dfy`) is the pure part. The board is a value, a sequence of eight rows of eight
  cells, and each cell is empty or holds a `Piece(side, isKing)`. This module holds move
  legality (`IsValidMove`), move application (`MakeMove`), the scores (`Count`), the winner
  (`Winner`), the set of legal destinations (`Destinations`) and the starting layout
  (`Initial`). Lemmas state what the game promises about them.
- `Game` (`game.dfy`) is the object. The class `CheckersGame` keeps the board in an
  `array2<Cell>`, the side to move in `currentPlayer` and the selection in `selectedPiece`. Its
  methods update them in place, as the JavaScript methods do. Each method is proved against the
  `Rules` function it implements. A ghost field `cells` holds the board as a value, and
  `Synced()` states that the grid holds exactly `cells`. Each write a move makes goes through
  `Set`, which updates both. `Valid()` is the object invariant. The constructor and `Reset`
  establish it, `HandleCellClick` keeps it, and the other methods are steps inside these. It states:
  - every piece stands on a dark cell;
  - no side has more than twelve pieces;
  - a selection, when there is one, is on a piece of the side to move.

A click on a target that is not a legal move keeps the selection (script.js:99-105 acts only on a
legal move).

## Model

| member | source | states |
|---|---|---|
| `Rules.IsValidMove` | script.js:108-141 | A legal move starts from an occupied cell and ends on an empty one. It goes diagonally, by one or two rows. A piece that is not a king moves only towards higher rows if it is 'rs6' and only towards lower rows if it is 'watermelon'. |
| `Rules.RejectedMoves` | script.js:108-141 | A move is refused in each of these cases: the source cell is empty; a non-king moves against its direction or does not change row; the row and column distances differ; the row distance is neither 1 nor 2. |
| `Rules.StepAndJumpRules` | script.js:126-138 | A diagonal step is legal exactly when the piece may head that way and the destination is empty. A diagonal jump is legal exactly when, in addition, the cell jumped over holds a piece of the other side. |
| `Rules.ValidMoveMeaning` | script.js:108-141 | `isValidMove` holds exactly when some diagonal heading and reach (step or jump) leads to the destination and obeys the rules stated per heading. This is an independent statement of the rules, proved in both directions. |
| `Rules.MakeMove` | script.js:143-159 | After a move, the source cell is empty. The destination holds a piece of the mover's side. After a jump, the cell jumped over is empty. Every other cell is unchanged. |
| `Rules.Promotion` | script.js:148-152 | A piece that is not a king becomes one exactly when an 'rs6' piece lands on row 7 or a 'watermelon' piece lands on row 0. A king stays a king, so promotion is idempotent. |
| `Rules.MovePreservesDarkSquares` | script.js:143-159 | A legal move keeps every piece on a dark cell, where row + col is odd. |
| `Rules.ScoresAfterMove` | script.js:154-159 | A step changes neither score. A jump lowers the opponent's score by exactly one and leaves the mover's score unchanged. Scores never rise. |
| `Rules.MovePreservesSound` | script.js:143-159 | A legal move keeps the game invariant: pieces on dark cells and at most twelve per side. |
| `Rules.Winner` | script.js:216-224 | There is no winner exactly when both sides have pieces. A declared winner's opponent has no pieces. 'watermelon' is checked first, so it wins when 'rs6' has none. |
| `Rules.CountZero` | script.js:200-214 | `Count`, the pure form of `getScores`, is zero for a side exactly when no cell of the board holds a piece of that side. |
| `Rules.StepKeepsOutcome` | script.js:216-224 | A step never changes the outcome. Only a capture can end the game. |
| `Rules.LastCaptureWins` | script.js:216-224 | Jumping the opponent's last piece makes the mover the winner. |
| `Rules.Destinations` | script.js:171-183 | The cells marked available are exactly the board cells that `isValidMove` accepts from the selected cell. An empty cell has no destinations. |
| `Rules.DestinationsShape` | script.js:171-183 | Every destination is an empty cell of the same colour, one or two diagonal cells away. It lies in the piece's forward direction unless the piece is a king. |
| `Rules.EmptyBoard` | script.js:22-35 | The board the grid is built with is 8x8 and every cell is empty. |
| `Rules.Initial` | script.js:38-56 | The starting position, the pure form of `setupPieces` on an empty grid, is 8x8. Each cell holds what the starting layout puts there: an 'rs6' piece on the dark cells of rows 0-2, a 'watermelon' piece on the dark cells of rows 5-7, and nothing elsewhere. |
| `Rules.InitialLayout` | script.js:38-56 | The starting position has twelve pieces per side and no kings. Every piece is on a dark cell. 'rs6' pieces are only in rows 0-2 and 'watermelon' pieces only in rows 5-7, so rows 3 and 4 are empty. Nobody has won. |
| `Rules.Opponent` | script.js:185-186 | The turn always passes to the other side. |
| `Game.CheckersGame.constructor` | script.js:3-9 | A new game holds the starting position, 'rs6' is to move and nothing is selected. |
| `Game.CheckersGame.Init` | script.js:11-16 | `init` builds a fresh grid holding the starting position and keeps the side to move. |
| `Game.CheckersGame.CreateBoard` | script.js:18-36 | `createBoard` allocates a new 8x8 grid with every cell empty. |
| `Game.CheckersGame.SetupPieces` | script.js:38-56 | `setupPieces` writes each piece of the starting layout into its cell and leaves every other cell as it was. |
| `Game.CheckersGame.IsValidMove` | script.js:108-141 | The check on the grid gives the same answer as `Rules.IsValidMove` on the board it holds. |
| `Game.CheckersGame.MakeMove` | script.js:143-169 | The grid afterwards holds `Rules.MakeMove` of the board before, including the in-place crowning. The cells are written in the order the game writes them. |
| `Game.CheckersGame.ShowAvailableMoves` | script.js:171-183 | The set of cells marked available equals `Rules.Destinations` for the selected cell. |
| `Game.CheckersGame.SwitchPlayer` | script.js:185-188 | The side to move becomes the other side. |
| `Game.CheckersGame.GetScores` | script.js:200-214 | The two counters equal the number of pieces of each side on the board. |
| `Game.CheckersGame.CheckGameEnd` | script.js:216-224 | The decision equals `Rules.Winner` of the board. |
| `Game.CheckersGame.HandleCellClick` | script.js:88-106 | A click has exactly three outcomes. (1) On a piece of the side to move, it selects that cell and changes nothing else. (2) Otherwise, when the selected piece may move to the clicked cell, the move is made, the selection is cleared, the turn passes once and the winner is checked. (3) Otherwise nothing changes, not even the selection. The object invariant is kept. |
| `Game.CheckersGame.Reset` | script.js:233-238 | Whatever the state before, `reset` restores exactly the starting state: a new grid with the starting position, 'rs6' to move and nothing selected. |

## Left out

- Rendering: the DOM part of `createBoard` (script.js:19-32), `renderBoard` (script.js:58-86), the marking of cells in `showAvailableMoves` and `updateGameInfo` (script.js:190-198). This is presentation. `ShowAvailableMoves` returns the set of cells it would mark.
- Sound: `playEngineSound`, `playCaptureSound` and their calls inside `makeMove`, and the music and engine toggles (script.js:240-281). These are browser audio calls with no game logic.
- `showGameResult` (script.js:226-231): the alert and the reset delayed by a timer. `HandleCellClick` returns the winner that `checkGameEnd` would announce. The page is expected to call `Reset` afterwards.
- Page effects after script.js:283: scrolling, the rules dialog, parallax, hover and sparkle effects. These are UI only, with floating-point pixel arithmetic, randomness and timers.
- `Rules.MakeMove`, `Game.CheckersGame.MakeMove`: both require the move to be legal. The game calls `makeMove` only after `isValidMove` has accepted the move (script.js:99-100). Its effect on other inputs is not modelled. For example, a zero move would erase the piece.
- `Game.CheckersGame.HandleCellClick`: requires the object invariant `Valid()`. The constructor and `Reset` establish it, `HandleCellClick` keeps it, and the other methods are steps inside these. Both the clicked cell and the selection lie on the grid, as the page only reports grid cells.
- The `boardSize` field is the constant `Rules.Size`. Nothing in the game changes it.
