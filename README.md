# Sudoku Sync Play — a verified model of the puzzle engine and the game store

Sudoku Sync Play is a collaborative Sudoku game. Players join a room, write
digits into a shared 9x9 board and chat. Each move is checked against the
room's stored solution and broadcast to everyone in the room. This project
models the two files that hold the game's logic, each in its own module:

* `Sudoku` (`sudoku.dfy`) models `src/utils/sudoku.ts`:
  * the `isValid` check;
  * the backtracking `solve`;
  * generating a full solution and a puzzle with 35, 45 or 55 cells cleared;
  * validating a move and detecting a complete board;
  * conversion between a grid and its database record, which is keyed
    `"row-col"`.

  The solver and the generators mutate the grid in place, so they work on an
  `array2<Cell>`. Their specifications are stated on the value
  `Grid = seq<seq<Cell>>` through `Snapshot`. A cell is `Empty` (the
  source's `null`) or `Num(n)`.
* `GameStore` (`game_store.dfy`) models the room state of the store in
  `src/stores/gameStore.ts` as a class `Store`. Its fields are:
  * `currentRoom`, `currentBoard`, `moves` and `messages`;
  * a ghost `pending`, which holds this client's optimistic writes that no
    valid broadcast has settled yet.

  Its invariant `Valid()` says that the displayed board is the replay of the
  move log over the room's puzzle, with the pending writes on top. Every
  operation preserves it: joining, leaving, an optimistic move and its
  revert, and the two realtime handlers. Each backend query or insert
  appears as an input that says whether it succeeded and what it returned.

Main results:
* `Solve` is proved exhaustive: when it fails, no solved grid keeps the
  cells filled on entry. Since the all-empty grid has a solution
  (`Canonical`), `GenerateCompleteSudoku` always returns a complete, valid
  Sudoku, whatever digit orders the shuffle supplies.
* `GeneratePuzzle` clears exactly the number of cells its difficulty asks
  for, and the solution extends the puzzle.
* Reading back the record of a grid gives the grid.
* The rebuilt board follows "last valid write wins".
* Invalid moves and repeated moves do not change it.
* When validity is computed against the solution, the rebuilt board (the
  replay of the log) never holds a wrong digit and keeps every given cell.
  The displayed board can differ from it: it also shows this client's
  optimistic writes that no valid broadcast has settled yet. These may be
  wrong guesses, and they may be written over given cells.

## Model

| member | source | states |
|---|---|---|
| Sudoku.EmptyGrid | src/stores/gameStore.ts:74 | the initial board is 9x9 with every cell empty |
| Sudoku.SetCell | src/stores/gameStore.ts:182-183 | copying the board and writing one cell changes exactly that cell to the new value |
| Sudoku.IsValid | src/utils/sudoku.ts:10-31 | true iff the digit is absent from the row, the column and the 3x3 box starting at (row - row % 3, col - col % 3) |
| Sudoku.Solve | src/utils/sudoku.ts:33-50 | on success: no empty cell left, and every cell filled on entry is kept. On failure: the grid equals its entry state, and no solved grid keeps the filled cells. It keeps a partial Sudoku partial |
| Sudoku.TryDigits | src/utils/sudoku.ts:36-45 | the candidate loop at an empty cell. It has the same guarantees as Solve; on failure, every digit of the shuffled order has been excluded |
| Sudoku.TryPlace | src/utils/sudoku.ts:39-43 | placing one digit and recursing: on success the grid is full and extends the entry state. On failure the cell is cleared again, and no solved grid has that digit in the cell |
| Sudoku.PlaceKeepsPartial | src/utils/sudoku.ts:39-40 | writing a digit that passes the check into an empty cell introduces no repeat in any row, column or box |
| Sudoku.BlockedHasNoSolution | src/utils/sudoku.ts:39 | a digit the check rejects cannot stand at the cell in any conflict-free grid that keeps the filled cells |
| Sudoku.BlockingCell | src/utils/sudoku.ts:10-31 | a rejected digit already stands in a cell of the same row, column or box |
| Sudoku.FailedPlacementExcluded | src/utils/sudoku.ts:41-42 | when the recursive solve fails after a placement, no solved extension has that digit at the cell |
| Sudoku.BlockedExcluded | src/utils/sudoku.ts:39 | a digit rejected by the check appears at the cell in no solved extension |
| Sudoku.AllTriedNoSolution | src/utils/sudoku.ts:38-45 | once all nine digits of the shuffled order are excluded, no solved grid keeps the filled cells (the `return false`) |
| Sudoku.FillShrinks | src/utils/sudoku.ts:40-41 | a placement strictly shrinks the set of empty cells, so the recursion terminates |
| Sudoku.CanonicalIsSolved | src/utils/sudoku.ts:7-8 | a fixed grid exists that is a complete, valid Sudoku |
| Sudoku.EmptyGridSolvable | src/utils/sudoku.ts:8 | the all-empty starting grid is partial, and a solved grid extends it |
| Sudoku.GenerateCompleteSudoku | src/utils/sudoku.ts:7-54 | returns a fresh 9x9 grid that is a complete, valid Sudoku: every cell a digit 1..9, no repeat in any row, column or box |
| Sudoku.ClearGrows | src/utils/sudoku.ts:74-76 | clearing a filled cell adds exactly that cell to the empty cells |
| Sudoku.PickStep | src/utils/sudoku.ts:70-78 | one pick of the removal loop: a filled picked cell becomes empty and the count grows by one; the empty cells are exactly the cells drawn so far |
| Sudoku.GeneratePuzzle | src/utils/sudoku.ts:57-81 | the solution is a complete valid Sudoku in its own fresh array, apart from the puzzle. Every filled puzzle cell equals the solution cell. The puzzle has exactly 35/45/55 empty cells for easy/medium/hard, all of them drawn cells |
| Sudoku.RemovalCount | src/utils/sudoku.ts:61-67 | the number of cells cleared is 35, 45 or 55 for easy, medium or hard, so 26 to 46 givens remain |
| Sudoku.ValidateMoveUnique | src/utils/sudoku.ts:84-86 | about `ValidateMove` (the solution cell holds the value): against a solved grid, exactly one value validates at each cell, and it is a digit 1..9 |
| Sudoku.IsPuzzleComplete | src/utils/sudoku.ts:89-98 | true iff no cell of the board is empty |
| Sudoku.KeyInjective | src/utils/sudoku.ts:105 | distinct cells have distinct "row-col" keys |
| Sudoku.CellKeyIsKey | src/utils/sudoku.ts:115 | every "r-c" string with r, c in 0..8 is the key of cell (r, c) |
| Sudoku.JsonUpToContents | src/utils/sudoku.ts:103-107 | after the loops reach (row, col): the record holds exactly the keys of the earlier cells in row-major order, each with that cell's value |
| Sudoku.ToJsonContents | src/utils/sudoku.ts:101-109 | the record has exactly the 81 keys "r-c", each holding its cell |
| Sudoku.JsonRoundTrip | src/utils/sudoku.ts:101-120 | reading back the record of a 9x9 grid gives the grid |
| Sudoku.GridToJson | src/utils/sudoku.ts:101-109 | the loops build the row-major record: exactly the 81 cell keys, each holding the array's cell |
| Sudoku.JsonToGrid | src/utils/sudoku.ts:111-120 | a fresh 9x9 grid; each cell is the record's value under its key, or empty when the key is missing |
| GameStore.PasswordRejected | src/stores/gameStore.ts:112-114 | only a private room with a password turns a join away. Supplying the room's own password always passes. A private room with a non-empty password turns away a join that supplies none |
| GameStore.ReplayAppend | src/stores/gameStore.ts:144-148 | the rebuild of a log extended by one move is that move applied to the rebuild of the log |
| GameStore.ReplayLastValidWins | src/stores/gameStore.ts:144-148 | a cell shows the value of the last valid move written to it |
| GameStore.ReplayUnwritten | src/stores/gameStore.ts:141-148 | a cell that no valid move writes keeps its puzzle value |
| GameStore.InvalidMoveIgnored | src/stores/gameStore.ts:145 | appending an invalid move leaves the rebuilt board unchanged |
| GameStore.DuplicateMoveIdempotent | src/stores/gameStore.ts:244-250 | applying the same move twice gives the board after applying it once |
| GameStore.SetCellSame | src/stores/gameStore.ts:246 | writing a cell's own value back leaves the board unchanged |
| GameStore.ValidatedReplayAgrees | src/stores/gameStore.ts:141-148 | if validity was computed against the solution and the puzzle agrees with it: every filled cell agrees with the solution, and every given cell of the puzzle is kept |
| GameStore.RebuildBoard | src/stores/gameStore.ts:141-148 | the forEach loop over the fetched moves yields the puzzle with the valid moves replayed in log order |
| GameStore.CheckMove | src/stores/gameStore.ts:237-238 | a move is valid iff the solution read from the room's record holds its value at its cell |
| GameStore.OverlayWrite | src/stores/gameStore.ts:182-184 | an optimistic write equals a new pending entry laid over the same replay |
| GameStore.OverlaySettle | src/stores/gameStore.ts:244-247 | a valid broadcast at a cell settles the pending write there and shows the broadcast value |
| GameStore.BroadcastStep | src/stores/gameStore.ts:238-250 | a broadcast move applied to the shown board equals appending it to the log, settling the pending write at its cell when it is valid |
| GameStore.OverlayNothing | src/stores/gameStore.ts:150-155 | with nothing pending, the shown board is the replay itself |
| GameStore.Store.constructor | src/stores/gameStore.ts:71-77 | no room, an all-empty board, no moves and no messages; the invariant holds |
| GameStore.Store.JoinRoom | src/stores/gameStore.ts:100-165 | joins iff the room fetch succeeds, the password gate passes, and both log fetches succeed. Otherwise nothing changes. On joining: the room becomes current, the logs are stored, and the board is the replay of the moves over the room's puzzle. The invariant is kept |
| GameStore.Store.LeaveRoom | src/stores/gameStore.ts:167-175 | no room, an all-empty board, no moves and no messages; the invariant is kept |
| GameStore.Store.MakeMove | src/stores/gameStore.ts:177-205 | with no room: returns false and changes nothing. Otherwise exactly the target cell is set to the value. The result is true iff the insert succeeded; on failure the board is the entry snapshot again. Room and logs are unchanged, and the invariant is kept. The optimistic write is pending on success, and the pending writes are unchanged on failure |
| GameStore.Store.OnMoveInserted | src/stores/gameStore.ts:233-252 | a move of another room changes nothing. Otherwise: its validity is set to "solution holds the value", it is appended as the last log entry, and its cell is written only when valid. The invariant is kept, and with nothing pending the board stays the replay of the log. A valid move settles the pending write at its cell. If the board equalled the replay of the log before, it still does after |
| GameStore.Store.AppendMove | src/stores/gameStore.ts:240-250 | a validated move is appended to the log, and the board is that move applied to it; the invariant is kept. A valid move settles the pending write at its cell, and a board equal to the replay stays equal to it |
| GameStore.Store.OnMessageInserted | src/stores/gameStore.ts:257-262 | appends the message at the end of the log iff its room matches; nothing else changes |

## Left out

- The Supabase backend is not modelled. This covers the `from(...).select/insert` queries, `auth.getUser`, the realtime `channel(...).subscribe`, `removeChannel` and the `window.currentChannel` global (src/stores/gameStore.ts:226-275). Each query result or insert outcome is an input of the modelled method. `subscribeToRoom` becomes the two handler methods, with the subscribed room id as a parameter.
- `fetchRooms` and the `rooms` and `loading` fields are not modelled (src/stores/gameStore.ts:79-98). They only list rooms from the backend.
- `sendMessage` is not modelled (src/stores/gameStore.ts:207-224). It inserts a row and changes no store state; the message reaches `messages` only through the message handler.
- Async interleaving is not modelled, and each action is atomic. For example, the revert in `makeMove` restores the board snapshot taken on entry, which would overwrite a broadcast handled while the insert was in flight.
- `Math.random()` is not modelled. The comparator shuffle at src/utils/sudoku.ts:37 becomes an oracle `shuffle` that yields some order of the digits 1..9 for each call of `solve` that reaches an empty cell. The random cell choices of the removal loop become a finite sequence `picks`.
- GeneratePuzzle: requires that `picks` draws at least the removal count of distinct cells. This is exactly the condition under which the source's `while` loop ends; an endless run of repeated picks is not modelled.
- Sudoku.TryDigits and Sudoku.TryPlace are the candidate loop and the place-recurse-undo step of `solve`. They are split out as their own methods; the behaviour is the same.
- A grid is a 9x9 `array2`, not an array of row arrays. The aliasing of rows that the source's copies (`map(row => [...row])`) avoid cannot arise.
- Room fields are not modelled except `id`, `is_private`, `password`, `puzzle` and `solution`. Of moves and messages, only the fields the store reads are kept (room, player, cell, value, validity, text). Display names, timestamps and ids are not modelled.
- `makeMove` inserts a move row without `is_valid` (src/stores/gameStore.ts:189-195). A rejoining client replays whatever validity the database stores for it, which is outside this model. JoinRoom therefore takes the fetched validity flags as given. ValidatedReplayAgrees states what holds when they were computed against the solution.
- JoinRoom: requires that the fetched room has the requested id and that the fetched moves lie on the board. The queries filter by id, and the database is assumed to store only in-range moves. The same holds for MakeMove and OnMoveInserted coordinates when a room is current.
- GameStore.Store.OnMoveInserted: requires a current room for a move of the subscribed room. The source dereferences `currentRoom!` there, and the subscription exists only after a join. Joining twice without leaving (the room list joins before navigating, and the room page joins again) subscribes twice while only the last channel handle is kept, so `leaveRoom` removes only that one; a broadcast reaching the first channel after leaving would throw on the null `currentRoom`. The requires also excludes that throw.
- The given-cell guard of the game page (src/pages/GameRoom.tsx:63-71) and all other React components are not part of this model.
- Sudoku.IsPuzzleComplete: states only that no cell is empty, as the source checks. It does not state that the board is correct.
