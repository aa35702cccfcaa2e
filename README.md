# Tic-tac-toe engine of TicTacToeDiscord, modelled in Dafny

TicTacToeDiscord is a chat bot for playing tic-tac-toe. This project models its game engine, the files under `assets/model/`, and proves properties about it.

- **Square** is a write-once cell that holds EMPTY, X or O.
- **Board** is a 3×3 grid of squares, indexed `[y][x]`. It offers checked writes and reads, the row-major list of free positions (`pos = 3y + x`), and a deep copy.
- **Player** is a member of the chat server or one of three bots (easy, random, cheating). A player holds a mark that is only ever set to X or O.
- **Room** is one match: a board, two players and the index of the current player.
  - It validates a move, writes the current player's mark and detects the end of the game. The game ends when some row, column or diagonal holds three equal marks, or when no square is free.
  - After a human's move, the bots reply in turn until the game is over or a human is to play.
  - The cheating bot's move comes from an alpha-beta minimax search over copies of the board.
- **Game** is the registry of rooms, keyed by the conversation's identifier, with create, lookup, has and stop.

Each class keeps the source's form:
- `Squares.Square`, `Boards.Board` (an `array2` of distinct `Square` objects), `Players.Player`, `Rooms.Room` and `Games.Game` are classes whose methods update their fields in place.
- A ghost `cells` sequence holds the abstract value of a board.
- The specification functions live in three modules:
  - `Lines`: win detection in the source's scan order;
  - `Search`: the alpha-beta search as a function, next to plain minimax as an independent reference;
  - `Turns`: the bot policies, and the move cascade that one play sets off.

The room's methods are proved against these functions. The main results are:
- `Play` ends with the game over or a human to play.
- The moves `Play` makes form a `Cascade`, and a cascade fills one free square per move.
- Without a random bot, the human's move decides the whole cascade.
- Within its search window, the alpha-beta value bounds the plain minimax value on the correct side (`AlphaBeta`). With the full window it equals it (`FullWindowIsExact`).
- The cheating bot plays the first free position whose minimax value is the best of all its moves.

Randomness becomes a choice:
- The starter of a game between two humans is a `coin` parameter of the room's constructor.
- The random bot and `passTurn` draw a free position with `:|`, so nothing is known beyond its membership in the free list.

## Model

| member | source | states |
|---|---|---|
| Squares.Square.constructor | assets/model/Square.js:11-13 | a new square is EMPTY |
| Squares.Square.SetType | assets/model/Square.js:40-46 | an occupied square fails with "not empty" and keeps its mark; EMPTY fails and the square stays empty; otherwise the square takes the mark; success exactly when the square was empty and the mark is X or O |
| Squares.WriteOnce | assets/model/Square.js:40-46 | a square written once rejects a second write, whatever its mark, and keeps the first |
| Boards.FreeBelowSpec | assets/model/Board.js:77-86 | after the row-major scan reaches position n, the list holds exactly the empty positions below n, strictly ascending |
| Boards.FreeSpec | assets/model/Board.js:77-86 | the free list holds exactly the empty positions in [0, 9), each once, strictly ascending |
| Boards.FreeOfEmptyGrid | assets/model/Board.js:77-86 | on an empty board the free list is 0, 1, …, 8 |
| Boards.FreeBelowAfterPlace | assets/model/Board.js:40-53 | writing a mark on an empty square removes exactly that position from each prefix scan of the free list |
| Boards.FreeAfterPlace | assets/model/Board.js:40-53 | writing a mark on an empty square removes exactly that position from the free list, which becomes one shorter |
| Boards.FreeShrinks | assets/model/Board.js:77-86 | writing a mark on a free position shrinks the free list (the termination measure of the bot cascade and of the search) |
| Boards.Board.constructor | assets/model/Board.js:12-20 | a new board is valid, has nine distinct fresh squares and all cells empty |
| Boards.Board.SetSquare | assets/model/Board.js:40-53 | fails, in this order, on x outside [0, 3), y outside [0, 3), EMPTY, and an occupied square, changing nothing; otherwise exactly cell (x, y) takes the mark |
| Boards.Board.GetSquare | assets/model/Board.js:63-70 | fails on x, then y, outside [0, 3); otherwise returns the board's square at (x, y), holding that cell's type |
| Boards.Board.GetFree | assets/model/Board.js:77-86 | the nested loops return the free list `Free(cells)` |
| Boards.Board.Copy | assets/model/Board.js:93-103 | the copy has the same type in every cell and only fresh objects, so writing to it never changes the original |
| Boards.Board.PutFreshSquare | assets/model/Board.js:97-99 | one step of the copy: a fresh square with the given type at (x, y), and no other cell changed |
| Players.Player.constructor | assets/model/Player.js:16-21 | the id is the member's id for a human and -1 for a bot; member and type are the arguments; no mark yet |
| Players.Player.SetSquareType | assets/model/Player.js:65-70 | EMPTY is rejected and the mark stays as it was; X or O becomes the player's mark |
| Lines.ScanBelow | assets/model/Room.js:210-217 | what the row and column loop has found is never EMPTY |
| Lines.Winner | assets/model/Room.js:202-227 | the winner the scan reports is never EMPTY |
| Lines.LinesInScanOrder | assets/model/Room.js:210-224 | the eight lines in scan order: row 0, column 0, row 1, column 1, row 2, column 2, diagonal, anti-diagonal |
| Lines.ScanBelowSpec | assets/model/Room.js:210-217 | after i turns the loop has found a mark exactly when one of the first 2i lines is complete, and that mark belongs to a complete line |
| Lines.WinnerSpec | assets/model/Room.js:202-227 | the scan finds a winner exactly when some line holds three equal non-empty marks, and the winner is the mark of such a line |
| Lines.OverSpec | assets/model/Room.js:190-194 | the game is over exactly when no square is free or some line is complete |
| Lines.NewLineHasMark | assets/model/Room.js:202-227 | on a board nobody has won, a mark written on an empty square can only make that mark the winner |
| Lines.TopRowOfX | assets/model/Room.js:212-213 | three X in row 0 make X the winner |
| Lines.FullBoardDraw | assets/model/Room.js:190-194 | a full board without a complete line is over with no winner |
| Search.ScoreBounds | assets/model/Room.js:115-123 | every score the search computes below the root lies within [-10, 10] |
| Search.MaxScanBounds | assets/model/Room.js:125-148 | the maximising loop yields a score in [-10, 10] and a free position |
| Search.MinScanBounds | assets/model/Room.js:149-164 | the minimising loop yields a score in [-10, 10] |
| Search.RootMoveIsFree | assets/model/Room.js:125-148 | on a game that is not over, the search at depth 0 returns a free position |
| Search.AlphaBeta | assets/model/Room.js:113-165 | for a window alpha < beta, a pruned value above alpha is a lower bound of the plain minimax value, and one below beta is an upper bound |
| Search.MaxScanSound | assets/model/Room.js:125-148 | the same bounds for the maximising loop, from any point of the loop |
| Search.MinScanSound | assets/model/Room.js:149-164 | the same bounds for the minimising loop, from any point of the loop |
| Search.FullWindowIsExact | assets/model/Room.js:113-165 | with the full window, the pruned search equals plain minimax |
| Search.RootScan | assets/model/Room.js:128-146 | the root loop ends with the best plain minimax value and the first position reaching it, because only a strictly greater score replaces the best |
| Search.CheatBotPlaysFirstBestMove | assets/model/Room.js:93-94 | on a game that is not over, the cheating bot plays the first free position whose plain minimax value is at least that of every other move |
| Turns.BotMoveIsFree | assets/model/Room.js:86-95 | on a game that is not over, every bot policy picks a free position |
| Turns.BotMoveUnique | assets/model/Room.js:86-95 | the easy and the cheating bot each allow exactly one move |
| Turns.CascadeStops | assets/model/Room.js:82-96 | a cascade ends with the game over or a human to play |
| Turns.CascadeFills | assets/model/Room.js:80-96 | a cascade fills one free square per move and never changes a square already marked |
| Turns.CascadeDeterministic | assets/model/Room.js:82-96 | without a random bot, the first move decides every later move, the final board and the final current player |
| Turns.LastMoverWins | assets/model/Room.js:80-83 | starting from a board nobody has won, a cascade that ends in a win leaves the winner as current player, because no swap follows the winning move |
| Turns.CascadeStep | assets/model/Room.js:80-88 | a move that leaves the game open and passes the turn to a bot, followed by that bot's cascade, is a cascade |
| Turns.CascadeHandOver | assets/model/Room.js:80-83 | a move that leaves the game open and passes the turn to a human is a whole cascade, the human now current |
| Turns.CascadeEnd | assets/model/Room.js:80-82 | a move that ends the game is a whole cascade, its mover still current |
| Turns.OpenBoard | assets/model/Room.js:190-194 | a board with no complete line and an empty square is not over |
| Turns.LowestFree | assets/model/Room.js:86-87 | the easy bot's move, the first free position, is the lowest empty square |
| Turns.EasyBotTwoPly | assets/model/Room.js:80-88 | against the easy bot, a creator's move that leaves the game open, the bot's reply in the lowest free square and a board still open form a cascade back to the creator |
| Turns.EasyGameOpening | assets/model/Room.js:80-88 | the creator (X) opens in the centre and the easy bot answers square 0 |
| Turns.EasyGameMiddle | assets/model/Room.js:80-88 | the creator then plays 2 and the easy bot answers square 1 |
| Turns.EasyGameWin | assets/model/Room.js:80-82 | the creator then plays 6 and X holds the anti-diagonal 2, 4, 6, ending the game |
| Turns.CentreOpening | assets/model/Room.js:80-88 | creator (X) against the easy bot: after the centre, the bot's reply is square 0 |
| Turns.EasyBotReply | assets/model/Room.js:80-88 | the bot's O in square 0 ends the cascade with the creator to play |
| Turns.EasyBotAnswersInSquareZero | assets/model/Room.js:73-100 | against the easy bot, opening in the centre gives exactly the moves 4, 0, the matching board, and the creator to play |
| Turns.PlacedMarkAgrees | assets/model/Room.js:80 | when the creator holds X (every room with a bot), the mark as written is the current player's own mark |
| Turns.PlacedMarkAsWrittenCounterexample | assets/model/Room.js:80 | two humans with the second starting: the code writes O for the player holding X; the row that O completes is credited to the creator (who holds O but did not play it) under the corrected comparison, and to the second player under line 240 as written, which credits every win to it |
| Turns.WinnerSeatAsWrittenCounterexample | assets/model/Room.js:240 | in a game the rules allow (creator X plays 4, 2, 6; the easy bot answers 0, 1) X completes the anti-diagonal; the corrected comparison credits the creator, the comparison as written credits players[1], the bot holding O (assuming no player type equals a mark) |
| Turns.WinnerSeat | assets/model/Room.js:234-241 | no winner exactly on a draw; otherwise the player whose mark holds the winning line |
| Turns.CascadeWinnerIsLastMover | assets/model/Room.js:234-241 | after a cascade that wins, the winner is the player who moved last |
| Rooms.Room.Seats | assets/model/Room.js:20-27 | the creator is human, and the two players hold X and O between them |
| Rooms.Room.constructor | assets/model/Room.js:18-28 | empty board; the creator is human with the member's id, the second player has the given member, type and id (-1 for a bot); the starter is the coin's pick between two humans and the creator against a bot; the starter holds X and the other player O |
| Rooms.Room.CurrentPlayer | assets/model/Room.js:44-46 | one of the two players, holding the current seat's mark |
| Rooms.Room.OpponentPlayer | assets/model/Room.js:53-55 | the other player, holding the other mark |
| Rooms.Room.SwapPlayer | assets/model/Room.js:180-182 | the index toggles within {0, 1}; the new current player is the old opponent |
| Rooms.Room.Play | assets/model/Room.js:73-100 | fails on pos outside [0, 8] and on a taken square, changing nothing; succeeds exactly on a free position; its moves form a `Cascade` from the old state to the new one, pos first; afterwards the game is over or a human is to play |
| Rooms.Room.BotChoice | assets/model/Room.js:86-95 | the current bot's move, by its policy, is a free position |
| Rooms.Room.PassTurn | assets/model/Room.js:172-175 | on a full board, fails as a position that is not free and changes neither the board nor the current player; otherwise plays some free position with the whole cascade |
| Rooms.Room.GetWinner | assets/model/Room.js:234-241 | fails exactly while the game is in progress; no one on a draw; otherwise the player whose mark holds the winning line |
| Rooms.Room.IsOver | assets/model/Room.js:190-194 | true exactly when the board's game is over |
| Rooms.Room.SquareTypeWinner | assets/model/Room.js:202-227 | the loop and the two diagonal tests compute the scan's winner `Winner(cells)` |
| Rooms.Room.CheckLine | assets/model/Room.js:212-224 | one line test, reading each position p at row p / 3 and column p % 3: the line's mark when its three squares share a non-empty type, otherwise what was found before |
| Rooms.Room.Minimax | assets/model/Room.js:113-165 | computes the search value `Value`, scored for the current player; it modifies nothing |
| Rooms.Room.MaxLoop | assets/model/Room.js:125-148 | the maximising loop, with its strict-improvement update and its cutoff, computes `MaxScan` |
| Rooms.Room.MinLoop | assets/model/Room.js:149-164 | the minimising loop, with its cutoff, computes `MinScan` |
| Rooms.Room.ChildScore | assets/model/Room.js:128-133 | scores the board with one more mark by searching a copy, leaving the given board untouched |
| Rooms.EasyBotAnswersCentre | assets/model/Room.js:73-100 | a room against the easy bot, after the creator plays the centre, holds X in the centre and O in square 0, with the creator to play |
| Games.Game.constructor | assets/model/Game.js:11-13 | no room yet; the registry invariant `Valid()` holds (every room valid, inside the registry's footprint, and no two keys sharing any part of a room) |
| Games.Game.NewRoom | assets/model/Game.js:25-32 | fails on an unusable id and on a key already in use, changing nothing; otherwise adds under the key a fresh room built from the arguments (empty board, the given players and types, the starter chosen as the room's constructor chooses it, holding X) and leaves every other key alone; it keeps the registry invariant |
| Games.Game.GetRoom | assets/model/Game.js:40-44 | fails on an unusable id; otherwise the room under the key, or none; a room it returns is valid, so it can be played and asked for its winner; it modifies nothing |
| Games.Game.Has | assets/model/Game.js:53-57 | fails on an unusable id; otherwise whether the key is registered; it modifies nothing |
| Games.Game.Stop | assets/model/Game.js:65-70 | fails on an unusable id; otherwise removes exactly that key (nothing changes when it is absent); it keeps the registry invariant |
| Games.RegistryLifecycle | assets/model/Game.js:25-70 | creating a room twice under one key fails the second time, and after stop the key is no longer registered |

## Where the model follows the code rather than the documentation

- **The starter gets X.** The lines that assign marks (Room.js:24-27) give X to whoever starts, and only a game between two humans has a random starter.
- **Looking up an absent room.** `getRoom` on a well-formed but absent id returns `undefined` rather than failing. It is modelled as `Ok(None)`.
- **No check that the game is over.** `play` does not first check whether the game is over. On a finished board with a free square it still writes the mark. The model does the same.
- **`passTurn` on a full board.** It calls `play(undefined)`. Both range tests are false for `undefined`, and the free-list test then fails, so the model fails with the "not free" error.

## Left out

- View.js, Controller.js and main.js are not part of this model. They cover message rendering, reaction collectors, timeouts and client login.
- SquareType.js and PlayerType.js are not part of this model. Their values are the datatypes `SquareType` and `PlayerType`.
- Promise wrappers and asynchrony: `play` and `passTurn` run their work synchronously, so they are ordinary methods here.
- Randomness is not modelled as a distribution. The coin takes values in {0, 1}, and the random bot and `passTurn` pick some free position.
- The trivial getters (`type`, `size`, `id`, `member`, `squareType`, `getBoard`, `players`) are not separate members. They are the fields themselves, declared `const` where the source never changes them. `isEmpty` is the predicate `Squares.Square.IsEmpty`, defined as the square's type being EMPTY; it has no contract of its own and is used in the bodies that test a square; the contracts test the type, or the board's cells, directly.
- `isNaN` and non-integer arguments are not modelled, because coordinates, positions and ids are integers or strings here. `Math.floor` on the non-negative positions is Dafny's `/` and `%`.
- The optional board argument of `isOver` and `_getSquareTypeWinner`: the board is always passed explicitly, and the room's own board is passed at the room's call sites.
- The final check of `setSquare` (a type that is neither X nor O) is unreachable for square types, because EMPTY is rejected first. The model therefore has no separate branch for it.
- Boards.Board.Copy: reads each source cell by direct field access rather than through `getSquare` (the write still goes through `SetType`). On a valid board `getSquare` cannot fail there, so the result is the same.
- Players.Player.constructor: requires a member for a human player, because the source would crash reading the id of a null member.
- Search.Infinity: JavaScript's ±Infinity is the integer 1000, which lies beyond every score (scores lie within [-10, 10]).
- Search.CheatBotPlaysFirstBestMove: the claim that the cheating bot never loses is not proved. The model proves instead that the bot plays the first position with the best plain minimax value.
- Games.Game.Valid: a room taken from `GetRoom` and then played changes objects inside the registry's footprint; the model has no lemma re-establishing the registry invariant after such a play, because the registry itself has no operation that plays.
- Games.Game.NewRoom: a key is any string, and membership in the map stands for `Object.keys(...).includes(id)`. The source's behaviour when a numeric id never equals its string key is not modelled.
- Rooms.Room.Play: writes the current player's own mark, not "X exactly when index 0 is current" (see Findings). `Turns.PlacedMarkAgrees` shows the two agree in every room with a bot.
- Rooms.Room.GetWinner: compares the players' marks with the winning mark, not the player type (see Findings).

## Findings

| source | as written | input that shows it | evidently intended | confidence | as-written member | corrected member |
|---|---|---|---|---|---|---|
| assets/model/Room.js:240 | `_players[0].type` (a player type) is compared with the winning mark, so, assuming that no value of PlayerType (PlayerType.js is not part of this model) equals X or O, the test never holds and every win goes to `players[1]` | creator (X) against the easy bot plays 4, 2, 6 while the bot answers 0, 1 (its lowest free squares); X completes the anti-diagonal 2, 4, 6 and the room reports the bot as the winner | compare `_players[0].squareType` with the winning mark | not executed | Turns.WinnerSeatAsWritten, Turns.WinnerSeatAsWrittenCounterexample | Turns.WinnerSeat (used by Rooms.Room.GetWinner) |
| assets/model/Room.js:80 | the mark written is X when index 0 is current and O otherwise, but lines 26-27 give X to whoever starts | two humans, with the coin making the second player start and hold X: that player's moves are written as O; a row of O is then credited to the creator under the corrected line 240, and to that second player only because line 240 as written credits every win to it | write the current player's own mark | not executed | Turns.PlacedMarkAsWritten, Turns.PlacedMarkAsWrittenCounterexample | Rooms.Room.Play / Turns.Cascade (the mark `seats[cur].mark`), agreeing with line 80 by Turns.PlacedMarkAgrees |
