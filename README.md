# Tic-tac-toe backend: game engine and game store

This project models the logic of a small tic-tac-toe web service. The service
keeps games in an in-memory dictionary keyed by game id. It offers four
operations: create a game with a chosen first player, look a game up, play a
move, and reset a game. A move is refused if the game is already finished,
then if it is not the player's turn, then if the cell is taken. An accepted
move writes the mark and counts the move. It then decides the outcome: a
completed line (3 rows, 3 columns, 2 diagonals) gives a winner, a full board
gives a draw, and otherwise the turn passes to the other mark. A reset gives a
fresh board with X to move and keeps the game id.

The model has three modules:

- `Board` (`board.dfy`) covers marks, cells, the nine-cell grid and the
  eight winning lines. It holds the winner scan: `CalculateWinner` starts the
  recursive `WinnerFrom` at the first line, and `WinnerFrom` returns at the
  first complete line. It also holds the full-board test (`IsFull`) and
  counts occupied cells and each mark's cells.
- `Engine` (`engine.dfy`) covers the `Game` value and the pure move, create
  and reset functions (`ApplyMove` and `Play`, `NewGame`, `Reset`). It also
  has `Replay`, which runs a sequence of move requests on one game: an
  accepted move replaces the game and a refused one leaves it as it was.
  It holds the invariant every produced game keeps (`Consistent`): the move count is
  the number of marks on the board; the recorded winner is the board's
  winner; a draw is recorded exactly when there is no winner and the board is
  full; and while play goes on, the player to move has as many marks as the
  opponent or one fewer. The lemmas about these functions are here too.
- `Store` (`store.dfy`) is the class `GameStore`. Its field
  `games: map<string, Game>` stands for the module-level dictionary. Its
  methods `Get`, `Create`, `MakeMove` and `ResetGame` follow the handlers
  step by step: look the game up, check, update a copy, write the copy back.
  `Get` returns the map's entry or `NotFound`. The `ensures` of `Create`,
  `MakeMove` and `ResetGame` tie the result and the new map to the engine
  functions `NewGame`, `ApplyMove` and `NewGame(id, X)`. A refused
  operation leaves the map as it was, and a successful one replaces only the
  entry for its own key. The store invariant `Valid()`
  says that every stored game sits under its own id and is `Consistent`.

The store holds values: the source stores `game.dict()` and rebuilds a
`GameState` on every lookup. So the model keeps `Game` as a datatype and
works on a local copy, as the handlers do.

The random id of `create_game` is a parameter of `Create`, with the
precondition that it is not already a key. The HTTP layer validates requests
before the handlers run. The model takes those checks as types: `Position`
is 0..8, `Grid` has exactly nine cells, and `Mark` is X or O.

`make_move` has no out-of-range error. `MoveRequest.position` (main.py:43,
`ge=0, le=8`) rejects such a position before the handler runs, so `Position`
is typed 0..8.

`_require_game` fails when the stored entry is falsy. A stored entry is always
a non-empty dict, so only a missing key fails, with `NotFound`.

## Model

| member | source | states |
|---|---|---|
| `Board.Other` | tic_tac_toe_backend/src/api/main.py:214 | the turn flip always gives the other mark |
| `Board.WinnerFrom` | tic_tac_toe_backend/src/api/main.py:59-62 | scanning lines i.. returns None iff none of them is complete; otherwise it returns a mark that fills a line k, and no line before k is complete |
| `Board.CalculateWinner` | tic_tac_toe_backend/src/api/main.py:47-62 | None iff none of the eight lines of `WinLines` (main.py:49-58, same order) is complete; otherwise the mark of the first complete line in that order, which fills all three of its cells |
| `Board.CalculateWinnerWins` | tic_tac_toe_backend/src/api/main.py:47-62 | None iff neither mark fills a winning line; a returned mark always fills one |
| `Board.OnlyWinnerIsCalculated` | tic_tac_toe_backend/src/api/main.py:59-61 | when exactly one mark fills a line, that mark is the board's winner |
| `Board.LineComplete` | tic_tac_toe_backend/src/api/main.py:60 | the scan's line test: when it holds, the first cell holds a mark that fills all three cells; it holds whenever some mark fills all three |
| `Board.CompleteIsOwned` | tic_tac_toe_backend/src/api/main.py:60 | the scan's line test holds iff some mark fills all three cells |
| `Board.IsFull` | tic_tac_toe_backend/src/api/main.py:65-67 | true exactly when no cell is empty |
| `Board.FullIffAllOccupied` | tic_tac_toe_backend/src/api/main.py:65-67 | a board is full exactly when its occupied-cell count equals its length |
| `Board.OccupiedIsSumOfMarks` | tic_tac_toe_backend/src/api/main.py:11 | every occupied cell holds X or O, so the occupied count is the sum of the two marks' counts |
| `Board.EmptyGridFacts` | tic_tac_toe_backend/src/api/main.py:142 | the fresh board has no marks, no winner and is not full |
| `Board.PlaceCounts` | tic_tac_toe_backend/src/api/main.py:203-204 | writing a mark into an empty cell raises the occupied count and that mark's count by one, and leaves the other mark's count unchanged |
| `Board.PlaceOnlyCompletesOwnLines` | tic_tac_toe_backend/src/api/main.py:203-207 | on a board with no winner, writing mark m into an empty cell cannot complete a line for the other mark |
| `Engine.ConsistentBounds` | tic_tac_toe_backend/src/api/main.py:29-31 | a consistent game has 0..9 moves, never both a winner and a draw, and a draw only with all nine cells played |
| `Engine.Terminal` | tic_tac_toe_backend/src/api/main.py:192 | the finished test (winner set or draw); for a consistent game it holds exactly when the board has a winner or is full |
| `Engine.NewGame` | tic_tac_toe_backend/src/api/main.py:140-147 | the created state has the given id and first player, is consistent, is not finished, has no marks and is not full |
| `Engine.Reset` | tic_tac_toe_backend/src/api/main.py:238-242 | whatever the prior state, the reset game is the game a creation with X first gives, under the same id; it is consistent and not finished |
| `Engine.ApplyMove` | tic_tac_toe_backend/src/api/main.py:192-214 | accepted exactly when the game is not finished, the player is the one to move and the cell is empty, and then the result is `Play`; never NotFound. The order of the refusals is stated by `Engine.MoveChecksInOrder`, the outcome by `Engine.MoveOutcome`, the invariant by `Engine.MovePreservesConsistent` |
| `Engine.Play` | tic_tac_toe_backend/src/api/main.py:202-214 | the board is the old one with the player's mark at the position, the count rises by one and the id is kept; on a game without a winner the recorded winner is the new board's winner and the draw flag is exact; the turn passes exactly when the new board has no winner and is not full |
| `Engine.MoveChecksInOrder` | tic_tac_toe_backend/src/api/main.py:192-200 | AlreadyFinished iff the game is over; otherwise WrongTurn iff the player is not the one to move; otherwise CellOccupied iff the cell is taken; accepted iff none applies; never NotFound |
| `Engine.TerminalRefusesEveryMove` | tic_tac_toe_backend/src/api/main.py:192-193 | a game with a winner or a draw refuses every move as AlreadyFinished |
| `Engine.MovePlacesOneMark` | tic_tac_toe_backend/src/api/main.py:203-204 | an accepted move writes the player's mark at the position, changes no other cell, adds exactly one to the move count and keeps the id |
| `Engine.MoveOutcome` | tic_tac_toe_backend/src/api/main.py:206-214 | after an accepted move exactly one outcome holds: a winner with no draw and the turn kept; or a draw with no winner and the turn kept; or neither, with the turn passed to the other mark |
| `Engine.MovePreservesConsistent` | tic_tac_toe_backend/src/api/main.py:202-214 | an accepted move keeps the move count equal to the number of marks, the winner equal to the board's winner, the draw flag exact, and the turn balance |
| `Engine.MoveWinnerIsMover` | tic_tac_toe_backend/src/api/main.py:207-209 | in a consistent game, a move that produces a winner makes the mover the winner |
| `Engine.ReplayPreservesConsistent` | tic_tac_toe_backend/src/api/main.py:190-218 | any sequence of move requests, each accepted or refused, keeps a consistent game consistent |
| `Engine.ReplayTerminalUnchanged` | tic_tac_toe_backend/src/api/main.py:192-193 | once a game is finished, no sequence of move requests changes it |
| `Engine.ReplayFromNewGame` | tic_tac_toe_backend/src/api/main.py:139-218 | every game reached from a new game by move requests is consistent, has 0..9 moves and is never both won and drawn |
| `Store.PutKeepsStored` | tic_tac_toe_backend/src/api/main.py:148 | storing a consistent game under its own id keeps every entry of the store consistent and under its own id |
| `Store.GameStore.constructor` | tic_tac_toe_backend/src/api/main.py:8 | the store starts empty |
| `Store.GameStore.Get` | tic_tac_toe_backend/src/api/main.py:70-75 | succeeds iff the id is a key, returning the stored game; otherwise fails with NotFound |
| `Store.GameStore.Create` | tic_tac_toe_backend/src/api/main.py:135-149 | returns `NewGame(id, firstPlayer)` and stores under the new id that game with an empty board, the chosen first player, no winner, no draw and 0 moves; changes no other key; keeps the store invariant |
| `Store.GameStore.MakeMove` | tic_tac_toe_backend/src/api/main.py:185-218 | NotFound for an unknown id, otherwise the engine's move result; the map is unchanged on refusal and only the entry for the id is replaced on success; keeps the store invariant |
| `Store.GameStore.ResetGame` | tic_tac_toe_backend/src/api/main.py:233-244 | NotFound for an unknown id, otherwise a fresh game with X to move under the same id; only that entry is replaced; keeps the store invariant |

## Left out

- The FastAPI application, CORS middleware and route decorators are not
  modelled. The mapping of errors to HTTP status codes is replaced by the
  `Error` datatype (main.py:78-96, 122-134).
- `health_check` and `websocket_usage_help` return constant dictionaries
  and have no logic (main.py:99-119).
- `Store.GameStore.Create` has no default first player.
  `CreateGameRequest.first_player` defaults to "X" (main.py:17); that default belongs to the request model,
  so a caller of `Create` passes X explicitly.
- `uuid.uuid4().hex` is not modelled. The id is supplied by the caller, and
  `Create` requires that it is not yet a key (main.py:137-139).
- Pydantic validation and the `.dict()` / `GameState(**data)` conversions
  are not modelled. The guarantees they give (nine cells, position 0..8,
  X/O marks, `InvalidInput` on a bad request) are types in the model.
- Concurrent requests and lost updates on the shared dictionary are not
  modelled: the model is sequential.
- `get_game` (main.py:164-168) only returns the result of `_require_game`.
  It is covered by `Store.GameStore.Get`.
- `generate_openapi.py` writes the schema to a file and has no game logic.
  It is not part of this model.
