# Tic-tac-toe game state machine, modelled in Dafny

This project models the core of an Android tic-tac-toe app (Kotlin) and proves properties of the model.
The core has five parts:

- **Outcome evaluator** (`CheckGameStatusUseCase`). It scans the 8 lines of a 3×3 board in a fixed order.
  The first line whose three cells are occupied by one player is reported as `Won` for that player.
  Otherwise the board is `InProgress` while an `Empty` cell remains, and `Draw` when none does.
- **Move validator** (`MoveValidationUseCase`). It returns `CellOutOfBound` first, then `CellAlreadyOccupied`, else `Valid`.
- **Game controller** (`TicTacToeViewModel`). It drives the `Playing → Playing | GameOver` lifecycle of `TicTacToeState`.
  Here it is a pure transition function on `ViewModel(state, store)`.
  The store is the saved-state handle, written under the key `"uiState"`.
- **Snapshot codec** (`SavedStateHandle.saveState` / `restoreState`). It writes a state into five keys and reads it back with defaults.
  The handle is a `map<string, Value>`, where `Value = BoolV | IntsV | PlayerV`.
- **Mappers** between the domain `Cell`/`Board` and the presentation `CellUi`/`BoardUi`.

## Layout

| file | module | contents |
|---|---|---|
| `wrappers.dfy` | `Wrappers` | `Option`, which stands for Kotlin nullable values |
| `players.dfy` | `Players` | `Player = X \| O`; domain `Player` and `PlayerUi` are one type |
| `domain_model.dfy` | `DomainModel` | `Cell`, `Board`, occupancy predicates |
| `game_status.dfy` | `GameStatus` | status results, the 8 lines, the scan, the classification lemmas |
| `move_validation.dfy` | `MoveValidation` | validation results and the validator |
| `ui_model.dfy` | `UiModel` | `CellUi`, `BoardUi`, `EmptyBoard`, the UI result types |
| `mappers.dfy` | `Mappers` | the four mappers, their round trips, and the result mappings |
| `view_model.dfy` | `TicTacToeViewModel` | `TicTacToeState`, the store, every controller operation |
| `game_invariant.dfy` | `GameInvariant` | the reachable-state invariant, its preservation, and "the winner is the mover" |
| `saved_state.dfy` | `SavedStateCodec` | the five-key codec, its round trips, and the corrected winner write |
| `scenarios.dfy` | `Scenarios` | concrete boards and games from the repository's unit tests, plus a few more games |

## Model

| member | source | states |
|---|---|---|
| GameStatus.ScanLines | feature/tictactoe/src/main/java/com/example/tictactoe/domain/usecase/CheckGameStatusUseCase.kt:20-51 | Scanning from line k reports a win exactly when some line from k on is complete, and the winner owns the first such line. With no complete line it reports InProgress iff an Empty cell exists, otherwise Draw. |
| GameStatus.CheckGameStatus | feature/tictactoe/src/main/java/com/example/tictactoe/domain/usecase/CheckGameStatusUseCase.kt:17-52 | Won iff some listed line is complete, and a Won(p) result has p owning the first complete line. InProgress iff no complete line and some Empty cell. Draw iff no complete line and no Empty cell, so a full board with a line is never Draw. |
| GameStatus.FirstWinningLineUnique | feature/tictactoe/src/main/java/com/example/tictactoe/domain/usecase/CheckGameStatusUseCase.kt:31-45 | The first complete line in scan order, and its owner, are unique. |
| GameStatus.WonIffFirstWinningLine | feature/tictactoe/src/main/java/com/example/tictactoe/domain/usecase/CheckGameStatusUseCase.kt:31-45 | The result is Won(p) if and only if p owns the first complete line in the listed order. |
| GameStatus.LineOwnershipIgnoresHighlight | feature/tictactoe/src/main/java/com/example/tictactoe/domain/usecase/CheckGameStatusUseCase.kt:37-41 | Whether a player owns a line depends only on occupancy and players, not on highlight flags. |
| GameStatus.StatusIgnoresHighlight | feature/tictactoe/src/main/java/com/example/tictactoe/domain/usecase/CheckGameStatusUseCase.kt:37-51 | Two boards that differ only in highlight flags get the same result. |
| MoveValidation.ValidateMove | feature/tictactoe/src/main/java/com/example/tictactoe/domain/usecase/MoveValidationUseCase.kt:16-24 | CellOutOfBound iff the index is outside the board's indices, whatever the board holds. CellAlreadyOccupied iff it is in range on an occupied cell. Valid iff it is in range on an Empty cell. There is no player argument. |
| MoveValidation.ValidationIgnoresHighlight | feature/tictactoe/src/main/java/com/example/tictactoe/domain/usecase/MoveValidationUseCase.kt:20-22 | Boards that differ only in highlight flags get the same verdict for every index. |
| MoveValidation.ValidMovesAreEmptyCells | feature/tictactoe/src/main/java/com/example/tictactoe/domain/usecase/MoveValidationUseCase.kt:16-23 | The set of indices that validate equals the set of Empty cells. |
| UiModel.EmptyBoard | feature/tictactoe/src/main/java/com/example/tictactoe/ui/model/BoardUi.kt:5 | The new-game board has exactly 9 cells, and every cell is Empty. |
| Mappers.CellToUi | feature/tictactoe/src/main/java/com/example/tictactoe/ui/model/Mappers.kt:6-14 | Empty maps to Empty. Occupied maps to Occupied with the same player and highlight. |
| Mappers.CellToEntity | feature/tictactoe/src/main/java/com/example/tictactoe/ui/model/Mappers.kt:21-29 | Empty maps to Empty. Occupied maps to Occupied with the same player and highlight. |
| Mappers.BoardToUi | feature/tictactoe/src/main/java/com/example/tictactoe/ui/model/Mappers.kt:16-19 | Keeps the length and maps cell by cell. |
| Mappers.BoardToEntity | feature/tictactoe/src/main/java/com/example/tictactoe/ui/model/Mappers.kt:31-34 | Keeps the length and maps cell by cell. |
| Mappers.CellRoundTrip | feature/tictactoe/src/main/java/com/example/tictactoe/ui/model/Mappers.kt:6-29 | Cell to UI and back is the identity, player and highlight included. |
| Mappers.CellUiRoundTrip | feature/tictactoe/src/main/java/com/example/tictactoe/ui/model/Mappers.kt:6-29 | UI cell to domain and back is the identity. |
| Mappers.BoardRoundTrip | feature/tictactoe/src/main/java/com/example/tictactoe/ui/model/Mappers.kt:16-34 | Board to UI to Board is the identity. |
| Mappers.BoardUiRoundTrip | feature/tictactoe/src/main/java/com/example/tictactoe/ui/model/Mappers.kt:16-34 | UI board to domain to UI is the identity, which is why a rejected move shows the board unchanged. |
| Mappers.ToEntityKeepsOccupancy | feature/tictactoe/src/main/java/com/example/tictactoe/ui/model/Mappers.kt:21-34 | Mapping keeps each cell's emptiness. So the validator accepts an index on the mapped board iff the UI cell there is Empty. |
| Mappers.ValidationToUi | feature/tictactoe/src/main/java/com/example/tictactoe/ui/model/MoveValidationResultUi.kt:7-17 | The validation result carries over variant for variant. |
| Mappers.OutcomeToUi | feature/tictactoe/src/main/java/com/example/tictactoe/ui/model/GameStatusResultUi.kt:13-20 | Draw maps to Draw and Won(p) maps to Won(p). |
| Mappers.StatusToUi | feature/tictactoe/src/main/java/com/example/tictactoe/ui/model/GameStatusResultUi.kt:7-21 | InProgress maps to InProgress, and the game-over variants carry their outcome over. |
| Mappers.ValidationToUiInjective | feature/tictactoe/src/main/java/com/example/tictactoe/ui/model/MoveValidationResultUi.kt:7-17 | Two validation results map to the same UI result if and only if they are equal. |
| Mappers.StatusToUiInjective | feature/tictactoe/src/main/java/com/example/tictactoe/ui/model/GameStatusResultUi.kt:7-21 | Two status results map to the same UI result if and only if they are equal, and the same holds for game-over outcomes. |
| TicTacToeViewModel.DefaultState | feature/tictactoe/src/main/java/com/example/tictactoe/ui/TicTacToeViewModel.kt:32-36 | The default Playing state has 9 Empty cells, X to move, and no validation feedback. |
| TicTacToeViewModel.Init | feature/tictactoe/src/main/java/com/example/tictactoe/ui/TicTacToeViewModel.kt:51-54 | The initial state is the state stored under "uiState" if present, else the default Playing state. |
| TicTacToeViewModel.SaveState | feature/tictactoe/src/main/java/com/example/tictactoe/ui/TicTacToeViewModel.kt:133-135 | After a save, construction restores exactly the saved state, and no other key changes. |
| TicTacToeViewModel.TogglePlayer | feature/tictactoe/src/main/java/com/example/tictactoe/ui/TicTacToeViewModel.kt:123-124 | The toggled player always differs from the input. |
| TicTacToeViewModel.TogglePlayerInvolution | feature/tictactoe/src/main/java/com/example/tictactoe/ui/TicTacToeViewModel.kt:123-124 | Toggling is an involution with no fixed point. |
| TicTacToeViewModel.ApplyMove | feature/tictactoe/src/main/java/com/example/tictactoe/ui/TicTacToeViewModel.kt:102-106 | Only cell i changes, and it becomes Occupied(player, unhighlighted). The length is kept. |
| TicTacToeViewModel.EmitPlayingState | feature/tictactoe/src/main/java/com/example/tictactoe/ui/TicTacToeViewModel.kt:108-121 | The emitted Playing state maps back to the given board and carries the given player and feedback. It is persisted, so construction from the new store restores it. Every other key of the store keeps its presence and value. |
| TicTacToeViewModel.ResetState | feature/tictactoe/src/main/java/com/example/tictactoe/ui/TicTacToeViewModel.kt:126-131 | The state becomes the default Playing state, and that state is persisted. Every other key of the store keeps its presence and value. |
| TicTacToeViewModel.Rejection | feature/tictactoe/src/main/java/com/example/tictactoe/ui/TicTacToeViewModel.kt:63-71 | The feedback shown for a rejected move is always Invalid, and it is CellOutOfBound exactly when the index is outside the board. |
| TicTacToeViewModel.MarkedBoard | feature/tictactoe/src/main/java/com/example/tictactoe/ui/TicTacToeViewModel.kt:102-106 | The UI board after a move has the same length; the played cell holds the mover's unhighlighted mark and every other cell is unchanged. |
| TicTacToeViewModel.OnCellClicked | feature/tictactoe/src/main/java/com/example/tictactoe/ui/TicTacToeViewModel.kt:58-90 | In GameOver nothing changes, state or store. A rejected index keeps board and player, shows the rejection (out of bounds before occupied), and persists. An accepted index marks only that cell for the mover. If the marked board is in progress, the player toggles, feedback is cleared, and the state is persisted. Otherwise the state is GameOver with that board's outcome and the store is untouched. |
| TicTacToeViewModel.MarkedBoardCorresponds | feature/tictactoe/src/main/java/com/example/tictactoe/ui/TicTacToeViewModel.kt:98-118 | Mapping the UI board to the domain, applying the move and mapping back gives the UI board with only the played cell marked. |
| TicTacToeViewModel.OnNewGameClicked | feature/tictactoe/src/main/java/com/example/tictactoe/ui/TicTacToeViewModel.kt:92-96 | A no-op while Playing. In GameOver it yields the default Playing state and persists it. |
| TicTacToeViewModel.GameOverIsNotPersisted | feature/tictactoe/src/main/java/com/example/tictactoe/ui/TicTacToeViewModel.kt:76-81 | A click that ends the game leaves the store as it was, so construction afterwards restores what was stored before that move. |
| TicTacToeViewModel.PlayingStateIsPersisted | feature/tictactoe/src/main/java/com/example/tictactoe/ui/TicTacToeViewModel.kt:108-121 | Every Playing state a click produces is the state that construction from the new store restores. |
| GameInvariant.CountAfterMark | feature/tictactoe/src/main/java/com/example/tictactoe/ui/TicTacToeViewModel.kt:102-106 | Marking an Empty cell for q adds one mark to q's count and leaves the other player's count unchanged. |
| GameInvariant.CountOfUnmarked | feature/tictactoe/src/main/java/com/example/tictactoe/ui/model/BoardUi.kt:5 | A board with no marks counts zero marks for each player. |
| GameInvariant.DefaultStateInvariant | feature/tictactoe/src/main/java/com/example/tictactoe/ui/TicTacToeViewModel.kt:32-36 | The default Playing state satisfies the invariant. |
| GameInvariant.InitInvariant | feature/tictactoe/src/main/java/com/example/tictactoe/ui/TicTacToeViewModel.kt:51-54 | Construction from an empty store, or from one holding an invariant Playing state, starts in an invariant state. |
| GameInvariant.ClickPreservesInvariant | feature/tictactoe/src/main/java/com/example/tictactoe/ui/TicTacToeViewModel.kt:58-90 | A click preserves the invariant. Every Playing board has 9 cells, no complete line and an Empty cell. X's count minus O's count is 0 or 1, and it is X's turn iff the counts are equal. Feedback is never Valid. The store holds only such Playing states. |
| GameInvariant.NewGamePreservesInvariant | feature/tictactoe/src/main/java/com/example/tictactoe/ui/TicTacToeViewModel.kt:92-96 | New Game preserves the invariant. |
| GameInvariant.NewLineBelongsToMover | feature/tictactoe/src/main/java/com/example/tictactoe/domain/usecase/CheckGameStatusUseCase.kt:31-45 | If a board had no complete line and one move makes a line complete, that line passes through the played cell, so its owner is the mover. |
| GameInvariant.WinnerIsMover | feature/tictactoe/src/main/java/com/example/tictactoe/ui/TicTacToeViewModel.kt:75-81 | From an invariant state, a click that ends in Won names the player who just moved. |
| GameInvariant.Step | feature/tictactoe/src/main/java/com/example/tictactoe/ui/TicTacToeViewModel.kt:58-96 | A cell click or a New Game click takes an invariant controller to an invariant controller. |
| GameInvariant.Run | feature/tictactoe/src/main/java/com/example/tictactoe/ui/TicTacToeViewModel.kt:58-96 | Any sequence of clicks, applied one at a time, keeps the invariant. |
| GameInvariant.ReachableStatesKeepInvariant | feature/tictactoe/src/main/java/com/example/tictactoe/ui/TicTacToeViewModel.kt:51-96 | Every controller reachable from construction on an empty or invariant store satisfies the invariant. |
| SavedStateCodec.ToRawInt | feature/tictactoe/src/main/java/com/example/tictactoe/ui/SavedStateTicTacToeExtensions.kt:91-94 | Empty encodes as 0, an X mark as 1, an O mark as 2, whatever the highlight. |
| SavedStateCodec.ToCellUi | feature/tictactoe/src/main/java/com/example/tictactoe/ui/SavedStateTicTacToeExtensions.kt:96-100 | 1 decodes to X and 2 to O, both unhighlighted. Every other integer decodes to Empty. |
| SavedStateCodec.CellCodecRoundTrip | feature/tictactoe/src/main/java/com/example/tictactoe/ui/SavedStateTicTacToeExtensions.kt:91-100 | Decoding an encoded cell gives the cell with its highlight cleared. |
| SavedStateCodec.RawIntRoundTrip | feature/tictactoe/src/main/java/com/example/tictactoe/ui/SavedStateTicTacToeExtensions.kt:91-100 | Encoding a decoded 0, 1 or 2 gives the same code back. |
| SavedStateCodec.EncodeBoard | feature/tictactoe/src/main/java/com/example/tictactoe/ui/SavedStateTicTacToeExtensions.kt:50-52 | The stored list has one code per cell, in order. |
| SavedStateCodec.DecodeBoard | feature/tictactoe/src/main/java/com/example/tictactoe/ui/SavedStateTicTacToeExtensions.kt:54-56 | The decoded board has one cell per stored code, so its length equals the list's length; nothing enforces 9. |
| SavedStateCodec.BoardCodecRoundTrip | feature/tictactoe/src/main/java/com/example/tictactoe/ui/SavedStateTicTacToeExtensions.kt:50-56 | Decoding an encoded board gives the same board with all highlights cleared. |
| SavedStateCodec.GetFlag | feature/tictactoe/src/main/java/com/example/tictactoe/ui/SavedStateTicTacToeExtensions.kt:70-72 | A missing flag reads as false. A stored boolean reads as itself. A value of another type fails the read. |
| SavedStateCodec.GetPlayer | feature/tictactoe/src/main/java/com/example/tictactoe/ui/SavedStateTicTacToeExtensions.kt:62-64 | A missing player reads as absent. A stored player reads as itself. A value of another type fails the read. |
| SavedStateCodec.SaveGameOver | feature/tictactoe/src/main/java/com/example/tictactoe/ui/SavedStateTicTacToeExtensions.kt:66-68 | Writes the given flag under the game-over key; every other key is unchanged. |
| SavedStateCodec.IsGameOver | feature/tictactoe/src/main/java/com/example/tictactoe/ui/SavedStateTicTacToeExtensions.kt:70-72 | Reads the game-over flag: absent is false, a stored boolean reads as itself, a value of another type fails at that key. |
| SavedStateCodec.SaveBoard | feature/tictactoe/src/main/java/com/example/tictactoe/ui/SavedStateTicTacToeExtensions.kt:50-52 | Writes the board's cell codes, in order, under the board key; every other key is unchanged. |
| SavedStateCodec.SaveCurrentPlayer | feature/tictactoe/src/main/java/com/example/tictactoe/ui/SavedStateTicTacToeExtensions.kt:58-60 | Writes the player under the current-player key; every other key is unchanged. |
| SavedStateCodec.GetCurrentPlayer | feature/tictactoe/src/main/java/com/example/tictactoe/ui/SavedStateTicTacToeExtensions.kt:62-64 | Reads the current player: absent reads as absent, a stored player as itself, a value of another type fails at that key. |
| SavedStateCodec.SaveDraw | feature/tictactoe/src/main/java/com/example/tictactoe/ui/SavedStateTicTacToeExtensions.kt:74-77 | Sets the draw flag to true and removes the winner key; every other key is unchanged. |
| SavedStateCodec.IsDraw | feature/tictactoe/src/main/java/com/example/tictactoe/ui/SavedStateTicTacToeExtensions.kt:79-81 | Reads the draw flag: absent is false, a stored boolean reads as itself, a value of another type fails at that key. |
| SavedStateCodec.SaveWinner | feature/tictactoe/src/main/java/com/example/tictactoe/ui/SavedStateTicTacToeExtensions.kt:83-85 | Writes the winner under the winner key; every other key, the draw flag included, is unchanged. |
| SavedStateCodec.GetWinner | feature/tictactoe/src/main/java/com/example/tictactoe/ui/SavedStateTicTacToeExtensions.kt:87-89 | Reads the winner: absent reads as absent, a stored player as itself, a value of another type fails at that key. |
| SavedStateCodec.GetBoard | feature/tictactoe/src/main/java/com/example/tictactoe/ui/SavedStateTicTacToeExtensions.kt:54-56 | A missing board reads as 9 Empty cells. A stored list reads as the cell-by-cell decoding of its codes. A value of another type fails the read at the board key. |
| SavedStateCodec.SaveState | feature/tictactoe/src/main/java/com/example/tictactoe/ui/SavedStateTicTacToeExtensions.kt:15-31 | Saving Playing writes false under the game-over key, the encoded board and the current player, and touches nothing else. Saving GameOver writes true under the game-over key and never touches the board or player keys. A Draw sets the draw flag and removes the winner key. A Won(p) writes p as the winner and leaves the draw flag as it was. |
| SavedStateCodec.RestoreState | feature/tictactoe/src/main/java/com/example/tictactoe/ui/SavedStateTicTacToeExtensions.kt:33-48 | The restore succeeds exactly when the keys read on the branch taken are well typed. That is the game-over key, then the board and player keys for a game in play, or the draw flag and (unless that flag is true) the winner key for a finished game. Otherwise it fails at the first ill-typed key, in reading order. On success: Playing iff the game-over flag is not stored as true. A Playing result has no feedback, the stored board (9 Empty cells if absent) and the stored player (X if absent). A GameOver result is Draw iff the draw flag is true or no winner is stored, and a Won result names the stored winner. |
| SavedStateCodec.WellTypedRestores | feature/tictactoe/src/main/java/com/example/tictactoe/ui/SavedStateTicTacToeExtensions.kt:33-89 | When every key that is read holds a value of the right type, restoring succeeds, whatever keys are missing. |
| SavedStateCodec.FinishedGameIgnoresBoardAndPlayer | feature/tictactoe/src/main/java/com/example/tictactoe/ui/SavedStateTicTacToeExtensions.kt:33-48 | When the game-over flag is true, deleting the board and player keys changes neither the restored state nor whether the restore fails, so leftover or ill-typed values there are never read. |
| SavedStateCodec.RestoreEmptyHandle | feature/tictactoe/src/main/java/com/example/tictactoe/ui/SavedStateTicTacToeExtensions.kt:33-39 | An empty handle restores the default Playing state. |
| SavedStateCodec.PlayingRoundTrip | feature/tictactoe/src/main/java/com/example/tictactoe/ui/SavedStateTicTacToeExtensions.kt:15-39 | On any handle, restore(save(Playing(b, p, v))) equals Playing(b with highlights cleared, p, no feedback). |
| SavedStateCodec.DrawRoundTrip | feature/tictactoe/src/main/java/com/example/tictactoe/ui/SavedStateTicTacToeExtensions.kt:15-44 | On any handle, restore(save(GameOver(Draw))) equals GameOver(Draw). |
| SavedStateCodec.WonRoundTrip | feature/tictactoe/src/main/java/com/example/tictactoe/ui/SavedStateTicTacToeExtensions.kt:15-48 | On a handle with no true draw flag (for example an empty one), restore(save(GameOver(Won p))) equals GameOver(Won p). |
| SavedStateCodec.StaleDrawFlagHidesWinner | feature/tictactoe/src/main/java/com/example/tictactoe/ui/SavedStateTicTacToeExtensions.kt:74-85 | Saving a draw, then a new game, then Won(p) on one handle restores Draw, because the winner write leaves the draw flag set. |
| SavedStateCodec.SaveWinnerCorrected | feature/tictactoe/src/main/java/com/example/tictactoe/ui/SavedStateTicTacToeExtensions.kt:83-85 | The corrected winner write stores the winner and removes the draw flag; every other key is unchanged. |
| SavedStateCodec.SaveStateCorrected | feature/tictactoe/src/main/java/com/example/tictactoe/ui/SavedStateTicTacToeExtensions.kt:74-85 | With the winner write also clearing the draw flag, a saved Won leaves no draw flag and a saved Draw leaves no winner. Keys outside the five are untouched. |
| SavedStateCodec.CorrectedRoundTrip | feature/tictactoe/src/main/java/com/example/tictactoe/ui/SavedStateTicTacToeExtensions.kt:15-48 | With the corrected save, every state survives save and restore on any handle, up to highlights and feedback. |
| SavedStateCodec.SnapshotIdempotent | feature/tictactoe/src/main/java/com/example/tictactoe/ui/SavedStateTicTacToeExtensions.kt:15-48 | With the corrected save, saving and restoring a restored snapshot gives the same snapshot again. The as-written save does not promise this (see Findings). |
| Scenarios.TopRowOfXWins | feature/tictactoe/src/test/java/com/example/tictactoe/domain/usecase/CheckGameStatusUseCaseTest.kt:13-26 | A top row of X is Won(X). |
| Scenarios.FullBoardWithoutLineIsDraw | feature/tictactoe/src/test/java/com/example/tictactoe/domain/usecase/CheckGameStatusUseCaseTest.kt:28-41 | X O X / X O O / O X X is Draw. |
| Scenarios.OpenBoardWithoutLineIsInProgress | feature/tictactoe/src/test/java/com/example/tictactoe/domain/usecase/CheckGameStatusUseCaseTest.kt:43-56 | X O _ / _ X _ / _ _ O is InProgress. |
| Scenarios.EmptyBoardIsOpen | feature/tictactoe/src/main/java/com/example/tictactoe/ui/model/BoardUi.kt:5 | The new-game board is InProgress, and every index 0..8 is Valid on it. |
| Scenarios.ValidationCases | feature/tictactoe/src/test/java/com/example/tictactoe/domain/usecase/MoveValidationUseCaseTest.kt:20-52 | Indices -1 and 9 are out of bounds, and a centre cell held by X or by O is already occupied. |
| Scenarios.FirstMove | feature/tictactoe/src/test/java/com/example/tictactoe/ui/TicTacToeViewModelTest.kt:90-119 | On a fresh game, X at 0 gives Playing with X's mark at 0, O to move, no feedback, and the state persisted. |
| Scenarios.CompletingTopRowWins | feature/tictactoe/src/main/java/com/example/tictactoe/ui/TicTacToeViewModel.kt:75-81 | X completing the top row gives GameOver(Won X) and leaves the store untouched. |
| Scenarios.OccupiedCellKeepsTurn | feature/tictactoe/src/main/java/com/example/tictactoe/ui/TicTacToeViewModel.kt:66-73 | O clicking X's cell keeps the board and O's turn, and shows CellAlreadyOccupied. |
| Scenarios.NewGameAfterDraw | feature/tictactoe/src/main/java/com/example/tictactoe/ui/TicTacToeViewModel.kt:92-96 | New Game after a draw gives the empty board with X to move. |

## Code facts the model follows

- **A finished game is not persisted.** The game-over branch (`TicTacToeViewModel.kt:77-81`) only updates the state and does not call `saveState`.
  A restart after a finished game therefore restores the last persisted Playing state (`GameOverIsNotPersisted`).
- **The controller does not use the key-by-key codec.** It stores the whole state object under `"uiState"` (`TicTacToeViewModel.kt:133-135`).
  The five-key codec in `SavedStateTicTacToeExtensions.kt` is never called by the controller, so it is verified on its own.
- **Board length.** `BoardUi` (`BoardUi.kt:3`) does not enforce 9 cells, and the domain `Board` is assumed not to either (its declaration is not part of this model).
  A decoded board is as long as the stored list (`SavedStateTicTacToeExtensions.kt:54-56`).
  The 9-cell fact holds for reachable controller states (`GameInvariant`), not for the types.
- **ViewModel unit tests.** Some tests seed the key `"savedState"` (`TicTacToeViewModelTest.kt:24`), but the controller reads `"uiState"`.
  Those tests actually start from the default state, so the model takes its behaviour from the controller code.

## Left out

- Coroutines and `StateFlow` (`viewModelScope.launch`, `_uiState.update`) are left out. A click is a synchronous transition on the state read at the click. The controller is single-writer, so no interleaving is modelled.
- `SavedStateHandle` and Parcelable mechanics are replaced by maps. The controller's store is a `map<string, TicTacToeState>`, and the codec's handle is a `map<string, Value>`.
- Players are stored as `Player` values, not as name strings. The `PlayerUi.valueOf` exception on an unknown stored name therefore cannot arise.
- A codec key that holds a value of the wrong type would make the Kotlin cast throw. This is modelled as `CastFailure(key)`, reported for the first key read in the order the code reads them.
- The use cases are injected into the controller. The model always uses the real `ValidateMove` and `CheckGameStatus`, never test doubles.
- `TicTacToeViewModel.OnCellClicked` requires at least 9 cells only when the click is on an Empty cell of a Playing board. On a shorter stored board the status check throws when its scan reaches an index past the end before any line inside the board matches. A line lying wholly inside the board can still end the game first. Such boards are excluded, and no reachable state has one. Rejected clicks and clicks in GameOver are modelled on boards of any length.
- `GameStatus.CheckGameStatus` requires at least 9 cells because it indexes cells 0..8 directly.
- Rendering (`TicTacToeScreen.kt`), entry points, navigation and dependency injection (`MainActivity.kt`, `App.kt`, `TicTacToeNavigation.kt`, `TicTacToeModule.kt`) are UI and wiring with no game logic.
- The domain `Board` and `Player` declarations and the UI↔domain result mappers are not part of this model's sources. `Board` is taken as a plain wrapper of its cell list. `Player` and `PlayerUi` are taken as the same two-valued enumeration. The result mappers are taken as variant for variant.
- Kotlin `Int` is 32-bit, but indices and codes are unbounded integers here. No arithmetic is done on them, so wrap-around cannot matter.

## Findings

| source | as written | input that shows it | evidently intended | confidence | as-written member | corrected member |
|---|---|---|---|---|---|---|
| feature/tictactoe/src/main/java/com/example/tictactoe/ui/SavedStateTicTacToeExtensions.kt:83-85 | Saving a win writes the winner key but leaves `gameOutcomeIsDraw` as it was. Restore checks the draw flag first. | Use one handle to save a finished Draw, then a new Playing game, then `GameOver(Won X)`. Restore gives `GameOver(Draw)`. | Writing a winner clears the draw flag, just as writing a draw clears the winner. Every saved state then restores to its snapshot (a Playing state loses its highlights and its validation feedback). | medium: not executed; the controller does not call this codec, so the app as shipped does not reach it | SavedStateCodec.StaleDrawFlagHidesWinner | SavedStateCodec.CorrectedRoundTrip |
