/** The game controller: a pure transition function over the pair of the current
    state and the saved-state store it writes to. */
module TicTacToeViewModel {
  import opened Wrappers
  import opened Players
  import opened DomainModel
  import opened UiModel
  import opened Mappers
  import MoveValidation
  import GameStatus

  /** The screen state: a game in play, or a finished game with its outcome. */
  datatype TicTacToeState =
    | Playing(board: BoardUi, currentPlayer: Player, moveValidationResult: Option<MoveValidationResultUi>)
    | GameOver(gameOutcome: GameOutcomeUi)

  /** The key the controller saves its whole state under. */
  const UiStateKey: string := "uiState"

  /** The saved-state store as the controller uses it: whole states under string keys. */
  type Store = map<string, TicTacToeState>

  /** The controller: its current state and the store it persists to. */
  datatype ViewModel = ViewModel(state: TicTacToeState, store: Store)

  /** A fresh game: empty board, X to move, no validation feedback. */
  function DefaultState(): (s: TicTacToeState)
    ensures s.Playing? && s.currentPlayer == X && s.moveValidationResult == None
    ensures |s.board.cells| == 9 && forall i :: 0 <= i < 9 ==> s.board.cells[i] == CellUi.Empty
  {
    Playing(EmptyBoard(), X, None)
  }

  /** Construction: the state stored under the ui-state key, else a fresh game. */
  function Init(store: Store): (vm: ViewModel)
    ensures vm.store == store
    ensures UiStateKey in store ==> vm.state == store[UiStateKey]
    ensures UiStateKey !in store ==> vm.state == DefaultState()
  {
    ViewModel(if UiStateKey in store then store[UiStateKey] else DefaultState(), store)
  }

  /** Writes the state under the ui-state key and leaves every other key alone. */
  function SaveState(store: Store, state: TicTacToeState): (s: Store)
    ensures Init(s).state == state
    ensures forall k :: k != UiStateKey ==> (k in s <==> k in store)
    ensures forall k :: k != UiStateKey && k in store ==> s[k] == store[k]
  {
    store[UiStateKey := state]
  }

  function TogglePlayer(p: Player): (q: Player)
    ensures q != p
  {
    if p == X then O else X
  }

  /** Toggling twice gives the player back. */
  lemma TogglePlayerInvolution(p: Player)
    ensures TogglePlayer(TogglePlayer(p)) == p
    ensures TogglePlayer(p) != p
  {
  }

  /** The board with the mover's unhighlighted mark at `cellIndex`. */
  function ApplyMove(board: Board, cellIndex: int, player: Player): (b: Board)
    requires 0 <= cellIndex < |board.cells|
    ensures |b.cells| == |board.cells|
    ensures b.cells[cellIndex] == Cell.Occupied(player, false)
    ensures forall j :: 0 <= j < |board.cells| && j != cellIndex ==> b.cells[j] == board.cells[j]
  {
    Board(board.cells[cellIndex := Cell.Occupied(player, false)])
  }

  /** Publishes a Playing state built from a domain board and persists it, so a
      restart would come back to exactly this state. */
  function EmitPlayingState(vm: ViewModel, board: Board, currentPlayer: Player,
                            moveValidationResult: Option<MoveValidationResultUi>): (r: ViewModel)
    ensures r.state.Playing?
    ensures BoardToEntity(r.state.board) == board
    ensures r.state.currentPlayer == currentPlayer
    ensures r.state.moveValidationResult == moveValidationResult
    ensures Init(r.store).state == r.state
    ensures forall k :: k != UiStateKey ==> (k in r.store <==> k in vm.store)
    ensures forall k :: k != UiStateKey && k in vm.store ==> r.store[k] == vm.store[k]
  {
    BoardRoundTrip(board);
    var state := Playing(BoardToUi(board), currentPlayer, moveValidationResult);
    ViewModel(state, SaveState(vm.store, state))
  }

  /** Starts a fresh game and persists it. */
  function ResetState(vm: ViewModel): (r: ViewModel)
    ensures r.state == DefaultState()
    ensures Init(r.store).state == DefaultState()
    ensures forall k :: k != UiStateKey ==> (k in r.store <==> k in vm.store)
    ensures forall k :: k != UiStateKey && k in vm.store ==> r.store[k] == vm.store[k]
  {
    ViewModel(DefaultState(), SaveState(vm.store, DefaultState()))
  }

  /** The index names an Empty cell of the board. */
  predicate IsOpenCell(board: BoardUi, cellIndex: int) {
    0 <= cellIndex < |board.cells| && board.cells[cellIndex].Empty?
  }

  /** The feedback a rejected move leaves: out of bounds before already occupied. */
  function Rejection(board: BoardUi, cellIndex: int): (v: MoveValidationResultUi)
    ensures v.Invalid?
    ensures v == Invalid(CellOutOfBound) <==> !(0 <= cellIndex < |board.cells|)
  {
    if 0 <= cellIndex < |board.cells| then Invalid(CellAlreadyOccupied) else Invalid(CellOutOfBound)
  }

  /** The UI board after the mover's mark goes into `cellIndex`. */
  function MarkedBoard(board: BoardUi, cellIndex: int, player: Player): (b: BoardUi)
    requires 0 <= cellIndex < |board.cells|
    ensures |b.cells| == |board.cells|
    ensures b.cells[cellIndex] == CellUi.Occupied(player, false)
    ensures forall j :: 0 <= j < |board.cells| && j != cellIndex ==> b.cells[j] == board.cells[j]
  {
    BoardUi(board.cells[cellIndex := CellUi.Occupied(player, false)])
  }

  /** A click on a cell. Ignored once the game is over. A rejected move keeps the
      board and the player and shows the rejection. An accepted move marks the cell;
      if that ends the game the state becomes GameOver without being persisted,
      otherwise the turn passes and the new Playing state is persisted. */
  function OnCellClicked(vm: ViewModel, cellIndex: int): (r: ViewModel)
    requires vm.state.Playing? && IsOpenCell(vm.state.board, cellIndex) ==> |vm.state.board.cells| >= 9
    ensures vm.state.GameOver? ==> r == vm
    ensures vm.state.Playing? && !IsOpenCell(vm.state.board, cellIndex) ==>
              && r.state == Playing(vm.state.board, vm.state.currentPlayer, Some(Rejection(vm.state.board, cellIndex)))
              && r.store == vm.store[UiStateKey := r.state]
    ensures vm.state.Playing? && IsOpenCell(vm.state.board, cellIndex) ==>
              var next := MarkedBoard(vm.state.board, cellIndex, vm.state.currentPlayer);
              var status := GameStatus.CheckGameStatus(BoardToEntity(next));
              && (status.InProgress? ==>
                    && r.state == Playing(next, TogglePlayer(vm.state.currentPlayer), None)
                    && r.store == vm.store[UiStateKey := r.state])
              && (status.GameOver? ==>
                    && r.state == TicTacToeState.GameOver(OutcomeToUi(status.outcome))
                    && r.store == vm.store)
  {
    match vm.state
    case GameOver(_) => vm
    case Playing(boardUi, player, _) =>
      var currentBoard := BoardToEntity(boardUi);
      var validation := MoveValidation.ValidateMove(cellIndex, currentBoard);
      if validation.Invalid? then
        BoardUiRoundTrip(boardUi);
        EmitPlayingState(vm, currentBoard, player, Some(ValidationToUi(validation)))
      else
        var updated := ApplyMove(currentBoard, cellIndex, player);
        MarkedBoardCorresponds(boardUi, cellIndex, player);
        match GameStatus.CheckGameStatus(updated)
        case GameOver(outcome) => ViewModel(TicTacToeState.GameOver(OutcomeToUi(outcome)), vm.store)
        case InProgress => EmitPlayingState(vm, updated, TogglePlayer(player), None)
  }

  /** Marking the domain board and mapping it back gives the marked UI board. */
  lemma MarkedBoardCorresponds(board: BoardUi, cellIndex: int, player: Player)
    requires 0 <= cellIndex < |board.cells|
    ensures BoardToUi(ApplyMove(BoardToEntity(board), cellIndex, player)) == MarkedBoard(board, cellIndex, player)
    ensures ApplyMove(BoardToEntity(board), cellIndex, player) == BoardToEntity(MarkedBoard(board, cellIndex, player))
  {
    var marked := ApplyMove(BoardToEntity(board), cellIndex, player);
    var expected := MarkedBoard(board, cellIndex, player);
    forall i | 0 <= i < |board.cells|
      ensures BoardToUi(marked).cells[i] == expected.cells[i]
    {
      CellUiRoundTrip(board.cells[i]);
    }
    assert BoardToUi(marked).cells == expected.cells;
    BoardRoundTrip(marked);
  }

  /** The New Game button: only a finished game is replaced by a fresh, persisted one. */
  function OnNewGameClicked(vm: ViewModel): (r: ViewModel)
    ensures vm.state.Playing? ==> r == vm
    ensures vm.state.GameOver? ==> r.state == DefaultState() && r.store == vm.store[UiStateKey := DefaultState()]
  {
    match vm.state
    case Playing(_, _, _) => vm
    case GameOver(_) => ResetState(vm)
  }

  /** A move that ends the game writes nothing, so a restart restores whatever the
      store held before that move: the game-over state itself is never persisted. */
  lemma GameOverIsNotPersisted(vm: ViewModel, cellIndex: int)
    requires vm.state.Playing? && IsOpenCell(vm.state.board, cellIndex) ==> |vm.state.board.cells| >= 9
    requires OnCellClicked(vm, cellIndex).state.GameOver?
    ensures OnCellClicked(vm, cellIndex).store == vm.store
    ensures Init(OnCellClicked(vm, cellIndex).store) == Init(vm.store)
  {
  }

  /** Every Playing state a click produces is the one a restart would restore. */
  lemma PlayingStateIsPersisted(vm: ViewModel, cellIndex: int)
    requires vm.state.Playing? && (IsOpenCell(vm.state.board, cellIndex) ==> |vm.state.board.cells| >= 9)
    requires OnCellClicked(vm, cellIndex).state.Playing?
    ensures Init(OnCellClicked(vm, cellIndex).store).state == OnCellClicked(vm, cellIndex).state
  {
  }
}
