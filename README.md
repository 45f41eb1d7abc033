# Tic-tac-toe game module, modelled in Dafny

This project models the game logic of a browser tic-tac-toe (`script.js`):

- the player factory `createPlayer`;
- the game module's state: the 3x3 board, the current player, the round and game flags, the two players and the bot mode;
- its operations `startGame`, `playTurn`, `botPlay` and `resetGame`;
- the board predicates `checkAnyWin`, `checkMarkedWin` and `checkTie`;
- the computer player's search: `minimax` with alpha-beta pruning over `getChildren`.

A round is won by completing a line. The game is won at three rounds. In bot mode, player 2 replies to every mark player 1 places that does not end the round. The reply is the empty cell ranked best by a depth-7 search. When no cell scores above -Infinity, the bot falls back to cell 0, which may be taken; the reply is then a no-op.

The project has four modules:

- `Grid` (`grid.dfy`): the board as a row-major sequence of nine marks, with `""` for an empty cell.
  - The win and tie predicates, written the way the source scans: rows and columns for `i = 0..2`, then the diagonals.
  - An independent description of the eight lines, used to state what the scans mean.
  - The child boards, and the `GetChildren` loop proved against them.
- `Search` (`search.dfy`): scores, and the search.
  - Scores are `-Infinity`, an integer or `+Infinity`, with JavaScript's order.
  - `MinimaxValue` is the value of the pruned search. It is mutually recursive with the two loop functions `MaxLoop` and `MinLoop`.
  - The recursive `Minimax` method, with the source's `while` loops and early exit, is proved to return it.
  - `PlainValue` is a reference minimax without pruning. Against it the pruned value is proved exact with the full window `(-Infinity, +Infinity)`, and bounded for any window with alpha < beta.
  - `MaxTrace`/`MinTrace` list the child values a loop actually evaluates. They state that a node's value bounds them, and that nothing is evaluated once `beta <= alpha`.
  - `botPlay`'s choice is specified as a left fold `Scan` over the cells.
- `Match` (`match.dfy`): the controller as a pure state machine over a `State` value.
  - This is the specification the imperative game is proved against.
  - `playTurn` is the guarded move `Move` followed by the closing part `AfterTurn`. `Move` calls `BotPlay`, which calls `PlayTurn` again, exactly as the source recurses.
  - The invariant `Inv` is proved preserved by that mutual recursion.
- `TicTacToe` (`game.dfy`): the imperative model.
  - Class `Player` has a mutable score.
  - Class `Game` has the module's variables as fields.
  - `State()` reads the game as a `Match.State`. Every `Game` method except `StartGame` ensures that `State()` moves exactly as the corresponding `Match` function says.
  - `StartGame` states its result state directly, and from a fresh page that state satisfies `Match.Inv` (`Match.StartStateInv`). The constructor and the `Player` methods have no `State()` to move.
  - `Game.BotPlay` keeps the source's nested row/column loops. It writes the trial mark into the board, runs `Minimax` and takes the mark back.

Two parts of the environment are modelled as data:

- **Deferred reset.** `delay(resetGame, 2)` does not run anything in the model. It increments the counter `scheduledResets`, and the caller runs `ResetGame` later as its own call.
- **Board the tie test reads.** `minimax` reads the module's board through `checkTie`. It is passed explicitly as `Outside(board, mark1, mark2)`, together with the two players' marks, which the search also reads.

The model follows the code, including where it does something unexpected:

- **startGame leaves the board alone.** `startGame` creates the players, sets the mode and gives player 1 the turn. It does not clear the board or the round/game flags (script.js:90-98).
- **The tie test reads the game's board, not the node.** `checkTie` ignores its argument and reads the game's board (script.js:182-184, called at 205).
  - Inside `botPlay` that board is the trial board with one mark added. So the tie test at a node deeper in the search can be false while the node itself is full.
  - Such a node has no children, and its loop returns its starting `-Infinity` or `+Infinity`. So `minimax` does not always return -1, 0 or 1 (`FullNodeQuirk`, `ValueRange`).
- **The bot's fallback move.** `botPlay` starts from `bestMove = 0`. When no cell scores above `-Infinity` it plays cell 0 even if that cell is taken. That `playTurn` is then a no-op (`BotDefaultMoveOnTakenCell`).
- **Round and game endings.**
  - After a won or drawn round that does not end the game, the board is cleared and player 1 gets the turn immediately. Only the screen refresh is delayed.
  - A game ends at three points and stays over until the scheduled `resetGame` runs. Every `playTurn` call meanwhile (a click on any cell) places nothing but schedules one more reset.
  - When the bot wins the deciding round, both the bot's own `playTurn` and the human's enclosing `playTurn` schedule one.

## Model

| member | source | states |
|---|---|---|
| TicTacToe.Player.constructor | script.js:26-37 | a new player has the given name and symbol and score 0 |
| TicTacToe.Player.UpScore | script.js:32 | the score goes up by exactly one |
| TicTacToe.Player.ResetScore | script.js:33 | the score becomes 0 |
| TicTacToe.Game.constructor | script.js:48-58 | the module's initial state: empty board, no players, no current player, both flags false, bot mode off, nothing scheduled |
| TicTacToe.Game.StartGame | script.js:90-98 | two fresh players with the given names and symbols and score 0, the given mode, player 1 to move; board, flags and scheduled resets as before; from a fresh page the result satisfies the invariant `Match.Inv` |
| TicTacToe.Game.PlayTurn | script.js:100-139 | the new game state is `Match.PlayTurn` of the old one; the same two player objects; the game stays valid |
| TicTacToe.Game.Move | script.js:101-124 | the new game state is `Match.Move` of the old one (the guarded placement, win, draw or turn switch, and the bot's reply) |
| TicTacToe.Game.BotPlay | script.js:141-160 | the new game state is `Match.BotPlay` of the old one: the trial marks are all taken back and the cell played is `Search.BestMove` of the board |
| TicTacToe.Game.ResetGame | script.js:186-202 | the new game state is `Match.ResetGame` of the old one: empty board, both scores 0, flags cleared, player 1 to move; the result satisfies `Match.Inv` |
| Grid.CheckAnyWin | script.js:162-180 | the source's scan: rows and columns for i = 0..2, then the two diagonals, each with three equal marks and a non-empty first cell; its meaning is stated by `Grid.AnyWinIsLine` |
| Grid.CheckMarkedWin | script.js:255-272 | the same scan for three copies of one given mark; its meaning is stated by `Grid.MarkedWinIsLine` |
| Grid.CheckTie | script.js:182-184 | every one of the nine cells is non-empty; `Grid.TieIffNoChildren` relates it to the empty cells |
| Grid.AnyWinIsLine | script.js:162-180 | checkAnyWin holds exactly when one of the eight lines holds three equal non-empty marks |
| Grid.MarkedWinIsLine | script.js:255-272 | checkMarkedWin holds exactly when one of the eight lines is all `mark` |
| Grid.MarkedWinIsAnyWin | script.js:255-272 | a line of a non-empty mark is a win, and every win is a line of some non-empty mark |
| Grid.EmptyCellsSpec | script.js:242-249 | the empty cells, each exactly once, in strictly increasing row-major order |
| Grid.ChildrenSpec | script.js:240-253 | one child per empty cell, and the k-th child is the board with the k-th empty cell set to the mark |
| Grid.GetChildren | script.js:240-253 | the loop builds exactly `Children(node, symbol)` |
| Grid.TieIffNoChildren | script.js:182-184 | a board is full exactly when it has no empty cell and no child |
| Grid.PlaceShrinks | script.js:101-102 | marking an empty cell leaves exactly one empty cell fewer |
| Search.MinimaxValue | script.js:204-238 | the value of the pruned search: the leaf score at a terminal node (depth 0, the game's board full, or any line won), otherwise the maximizing loop over player 2's children or the minimizing loop over player 1's |
| Search.MaxLoop | script.js:215-225 | the maximizing loop: evaluate each child with the current window, raise the running maximum and alpha, and stop once beta <= alpha; its properties are stated by `Search.MaxLoopIsTraceMax` and `Search.MaxLoopWindow` |
| Search.MinLoop | script.js:226-237 | the minimizing loop: evaluate each child, lower the running minimum and beta, and stop once beta <= alpha; its properties are stated by `Search.MinLoopIsTraceMin` and `Search.MinLoopWindow` |
| Search.Minimax | script.js:204-238 | the loops with their early exit return `MinimaxValue` of the arguments |
| Search.ValueRange | script.js:204-238 | every result is -Infinity, -1, 0, 1 or +Infinity |
| Search.MaxLoopRange | script.js:215-225 | the maximizing loop's result is one of those five values |
| Search.MinLoopRange | script.js:226-237 | the minimizing loop's result is one of those five values |
| Search.TerminalScore | script.js:205-213 | at a terminal node: -1 exactly when player 1's mark owns a line, 1 exactly when player 2's does and player 1's does not, 0 exactly when neither does |
| Search.FullNodeQuirk | script.js:205 | a full node with no line, depth left and room on the game's board scores -Infinity when maximizing, +Infinity when minimizing |
| Search.MaxLoopIsTraceMax | script.js:215-225 | the maximizing loop returns the larger of its running maximum and the largest child value it evaluated |
| Search.MaxTraceWindows | script.js:217-220 | at most one value per remaining child, and child i+j is evaluated with alpha raised by the j values before it |
| Search.MaxTraceOpen | script.js:221-223 | every evaluation but the last leaves beta > alpha |
| Search.MaxTraceStops | script.js:221-223 | the loop stops before its last child only once beta <= alpha |
| Search.MinLoopIsTraceMin | script.js:226-237 | the minimizing loop returns the smaller of its running minimum and the smallest child value it evaluated |
| Search.MinTraceWindows | script.js:228-231 | at most one value per remaining child, and child i+j is evaluated with beta lowered by the j values before it |
| Search.MinTraceOpen | script.js:232-234 | every evaluation but the last leaves beta > alpha |
| Search.MinTraceStops | script.js:232-234 | the loop stops before its last child only once beta <= alpha |
| Search.NodeBounds | script.js:215-237 | a maximizing node's value is at least every evaluated child value and is one of them or -Infinity; a minimizing node's is at most each and is one of them or +Infinity |
| Search.AlphaBetaWindow | script.js:204-238 | for alpha < beta, the pruned value equals the plain minimax value when that lies strictly inside the window, is <= alpha when it is <= alpha, and >= beta when it is >= beta |
| Search.MaxLoopWindow | script.js:215-225 | the same window statement for the maximizing loop against the plain maximum of the remaining children |
| Search.MinLoopWindow | script.js:226-237 | the same window statement for the minimizing loop against the plain minimum of the remaining children |
| Search.AlphaBetaIsMinimax | script.js:204-238 | with the window (-Infinity, +Infinity), pruning never changes the value |
| Search.CellScore | script.js:146-149 | the score of a cell: `MinimaxValue` of the board with player 2's mark there, at depth 7, minimizing, with the full window, and with that trial board as the one the tie test reads |
| Search.Scan | script.js:142-157 | the row-major scan over the first n cells that keeps the best score and move, replacing them only when an empty cell scores strictly higher; `Search.ScanSpec` states its meaning |
| Search.BestMove | script.js:141-159 | the move the scan leaves after all nine cells; `Search.BestMoveSpec` states its meaning |
| Search.CellScoreIsPlain | script.js:148 | the score botPlay records for a cell is the plain minimax value of the trial board |
| Search.ScanSpec | script.js:142-157 | after the first n cells, the best score is -Infinity with move 0 when no empty cell scored above it; otherwise the move is an empty cell whose score is the maximum over the empty cells and strictly above every earlier empty cell's |
| Search.BestMoveSpec | script.js:141-159 | botPlay's cell is 0 when no empty cell scores above -Infinity, and otherwise the first empty cell in row-major order of greatest score |
| Match.WinRound | script.js:104-112 | a won round: the mover's score goes up by one, the marked board is kept, the round is finished, and the game is finished at the third point; `Match.WinningMove` states the whole winning turn |
| Match.AfterTurn | script.js:125-138 | the closing part of playTurn: nothing when the round goes on, one more scheduled reset when the game is over, otherwise a cleared board with player 1 to move; `Match.AfterTurnRests` states what it guarantees |
| Match.ResetGame | script.js:186-202 | the full reset: empty board, both scores 0, both flags cleared, player 1 to move; `Match.ResetGameSpec` states it with the invariant |
| Match.PlayTurn | script.js:100-139 | a turn keeps the marks and the mode, and never unschedules a reset |
| Match.Move | script.js:101-124 | the move part keeps the marks and the mode, and never unschedules a reset |
| Match.BotPlay | script.js:141-160 | the bot's turn keeps the marks and the mode, and never unschedules a reset |
| Match.StartStateInv | script.js:90-98 | the state startGame leaves on a fresh page (empty board, no points, both flags false, player 1 to move) satisfies the invariant |
| Match.EmptyBoardIsOpen | script.js:48-52 | the empty board is neither won nor full |
| Match.ResetGameSpec | script.js:186-202 | resetGame yields empty board, scores 0, player 1 to move, no flags, marks and mode kept, and the invariant |
| Match.AfterTurnRests | script.js:125-138 | the closing part leaves a round finished only when the game is over |
| Match.MoveSettles | script.js:101-124 | the move part keeps scores within 0..3, ends the game exactly at a third point with the line on the board, leaves an ongoing round neither won nor full, and keeps every cell empty or one of the two marks |
| Match.PlayTurnKeepsInv | script.js:100-139 | playTurn preserves the invariant, the bot's replies included |
| Match.BotPlayKeepsInv | script.js:141-160 | botPlay preserves the invariant |
| Match.OccupiedCellIsNoOp | script.js:101 | a click on a taken cell during a round changes nothing |
| Match.ClickAfterGameOver | script.js:125-127 | a click while the game is over changes nothing but schedules one more reset |
| Match.WinningMove | script.js:104-112 | a completed line gives the mover exactly one point and the other nothing; the game ends exactly at the third point and keeps its board, otherwise the board is cleared and player 1 opens |
| Match.DrawingMove | script.js:113-115 | filling the board without a line changes no score, clears the board and gives player 1 the turn |
| Match.OrdinaryMove | script.js:116-123 | any other move places the mark and passes the turn, with the bot's reply inside the same call when player 2 is the computer |
| Match.BotDefaultMoveOnTakenCell | script.js:143 | when no empty cell scores above -Infinity and cell 0 is taken, the bot's turn changes nothing |
| Match.BotPlaysBestCell | script.js:141-159 | otherwise the bot plays player 2's mark on the first empty cell of greatest score |
| Match.CentreOpening | script.js:100-123 | X's opening click on the centre places X there and gives O the turn |
| Match.TopRowWin | script.js:100-137 | X completing the top row scores 1 and the board is cleared for the next round |

## Left out

- The page: DOM queries, the click listeners, `displayController` and the home-page buttons. They only display the state or call `startGame`/`playTurn`. The two `startGame` calls they make pass marks "X" and "O", which `Game.StartGame` requires to be non-empty and distinct.
- `setTimeout` behind `delay`: the deferred `resetGame` is counted in `scheduledResets` and runs as a separate `ResetGame` call, so the interleaving of timers with clicks is not modelled. The delayed screen refresh after a round is left out with the display.
- `console.log` in `botPlay`.
- The players' names: they are kept in `Player` but only appear in messages.
- Floating-point numbers: scores are -Infinity, integers or +Infinity, which are the only values `minimax` produces.
- `Game.PlayTurn`: requires `Valid()`, i.e. that `startGame` has run. Before it, the source has no current player and a click on an empty cell throws. It also requires an index 0..8, which the nine cells provide.
- The `score !== undefined` test in `botPlay`: `minimax` always returns a number, so the test is always true.
- Concrete values of the depth-7 search (for example that the bot answers a corner opening in the centre, or that self-play draws): they are too large to evaluate in the verifier. The search is specified and proved for all boards instead.
