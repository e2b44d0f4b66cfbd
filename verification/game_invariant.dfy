/** What holds of every state the controller reaches from a fresh game when it
    is driven only by cell clicks and New Game clicks. */
module GameInvariant {
  import opened Wrappers
  import opened Players
  import opened DomainModel
  import opened UiModel
  import opened Mappers
  import opened TicTacToeViewModel
  import GameStatus

  /** The number of marks `p` has on the board. */
  function CountOf(cells: seq<CellUi>, p: Player): (n: nat)
    ensures n <= |cells|
    decreases |cells|
  {
    if cells == [] then 0
    else (if cells[0].Occupied? && cells[0].player == p then 1 else 0) + CountOf(cells[1..], p)
  }

  /** Marking one Empty cell for `q` adds one mark for `q` and none for the other player. */
  lemma {:induction false} CountAfterMark(cells: seq<CellUi>, i: int, q: Player, p: Player)
    requires 0 <= i < |cells| && cells[i].Empty?
    ensures CountOf(cells[i := CellUi.Occupied(q, false)], p) == CountOf(cells, p) + (if p == q then 1 else 0)
    decreases |cells|
  {
    var marked := cells[i := CellUi.Occupied(q, false)];
    if i == 0 {
      assert marked[1..] == cells[1..];
    } else {
      assert marked[1..] == cells[1..][i - 1 := CellUi.Occupied(q, false)];
      CountAfterMark(cells[1..], i - 1, q, p);
    }
  }

  /** A board without marks counts zero for both players. */
  lemma {:induction false} CountOfUnmarked(cells: seq<CellUi>, p: Player)
    requires forall i :: 0 <= i < |cells| ==> cells[i].Empty?
    ensures CountOf(cells, p) == 0
    decreases |cells|
  {
    if cells != [] {
      CountOfUnmarked(cells[1..], p);
    }
  }

  /** The invariant of a game in play: nine cells, nobody has won, a cell is still
      free, X has moved as often as O or once more, it is X's turn exactly when the
      counts are equal, and the shown feedback is never `Valid`. */
  predicate PlayingInvariant(board: BoardUi, currentPlayer: Player, feedback: Option<MoveValidationResultUi>) {
    && |board.cells| == 9
    && !GameStatus.HasCompleteLine(BoardToEntity(board).cells)
    && GameStatus.HasEmptyCell(BoardToEntity(board).cells)
    && (CountOf(board.cells, X) == CountOf(board.cells, O) || CountOf(board.cells, X) == CountOf(board.cells, O) + 1)
    && (currentPlayer == X <==> CountOf(board.cells, X) == CountOf(board.cells, O))
    && feedback != Some(Valid)
  }

  predicate StateInvariant(s: TicTacToeState) {
    s.Playing? ==> PlayingInvariant(s.board, s.currentPlayer, s.moveValidationResult)
  }

  /** The store only ever holds Playing states that satisfy the invariant. */
  predicate StoreInvariant(store: Store) {
    UiStateKey in store ==> store[UiStateKey].Playing? && StateInvariant(store[UiStateKey])
  }

  predicate Invariant(vm: ViewModel) {
    StateInvariant(vm.state) && StoreInvariant(vm.store)
  }

  /** A fresh game satisfies the invariant. */
  lemma DefaultStateInvariant()
    ensures StateInvariant(DefaultState())
  {
    var b := DefaultState().board;
    CountOfUnmarked(b.cells, X);
    CountOfUnmarked(b.cells, O);
    assert BoardToEntity(b).cells[0].Empty?;
  }

  /** Construction from a store that satisfies the invariant starts in an invariant state. */
  lemma InitInvariant(store: Store)
    requires StoreInvariant(store)
    ensures Invariant(Init(store))
  {
    DefaultStateInvariant();
  }

  /** A cell click keeps the invariant, for state and store alike. */
  lemma ClickPreservesInvariant(vm: ViewModel, cellIndex: int)
    requires Invariant(vm)
    ensures Invariant(OnCellClicked(vm, cellIndex))
  {
    if vm.state.Playing? {
      var b := vm.state.board;
      var p := vm.state.currentPlayer;
      if IsOpenCell(b, cellIndex) {
        CountAfterMark(b.cells, cellIndex, p, X);
        CountAfterMark(b.cells, cellIndex, p, O);
      }
    }
  }

  /** A New Game click keeps the invariant. */
  lemma NewGamePreservesInvariant(vm: ViewModel)
    requires Invariant(vm)
    ensures Invariant(OnNewGameClicked(vm))
  {
    DefaultStateInvariant();
  }

  /** If a move completes a line on a board that had none, the line runs through
      the cell just played, so its owner is the mover. */
  lemma NewLineBelongsToMover(before: seq<Cell>, cellIndex: int, mover: Player, k: int, owner: Player)
    requires 0 <= cellIndex < |before|
    requires !GameStatus.HasCompleteLine(before)
    requires 0 <= k < |GameStatus.WinningLines|
    requires GameStatus.LineOwnedBy(before[cellIndex := Cell.Occupied(mover, false)], GameStatus.WinningLines[k], owner)
    ensures owner == mover
  {
    var l := GameStatus.WinningLines[k];
    assert !GameStatus.LineComplete(before, k);
    if cellIndex != l.a && cellIndex != l.b && cellIndex != l.c {
      assert GameStatus.LineOwnedBy(before, l, owner);
      assert false;
    }
  }

  /** A game that ends in a win names the player who made the last move. */
  lemma WinnerIsMover(vm: ViewModel, cellIndex: int)
    requires Invariant(vm) && vm.state.Playing?
    ensures var r := OnCellClicked(vm, cellIndex);
            r.state.GameOver? && r.state.gameOutcome.Won? ==> r.state.gameOutcome.winner == vm.state.currentPlayer
  {
    var r := OnCellClicked(vm, cellIndex);
    var b := vm.state.board;
    var p := vm.state.currentPlayer;
    if r.state.GameOver? && r.state.gameOutcome.Won? {
      var next := BoardToEntity(MarkedBoard(b, cellIndex, p));
      MarkedBoardCorresponds(b, cellIndex, p);
      var status := GameStatus.CheckGameStatus(next);
      var k :| GameStatus.FirstWinningLine(next.cells, 0, k, status.outcome.winner);
      assert next.cells == BoardToEntity(b).cells[cellIndex := Cell.Occupied(p, false)];
      NewLineBelongsToMover(BoardToEntity(b).cells, cellIndex, p, k, status.outcome.winner);
    }
  }

  /** The two commands the screen can issue. */
  datatype Event = CellClicked(cellIndex: int) | NewGameClicked

  function Step(vm: ViewModel, e: Event): (r: ViewModel)
    requires Invariant(vm)
    ensures Invariant(r)
  {
    match e
    case CellClicked(i) =>
      ClickPreservesInvariant(vm, i);
      OnCellClicked(vm, i)
    case NewGameClicked =>
      NewGamePreservesInvariant(vm);
      OnNewGameClicked(vm)
  }

  /** Applies the events in order, each to the result of the previous ones. */
  function Run(vm: ViewModel, events: seq<Event>): (r: ViewModel)
    requires Invariant(vm)
    ensures Invariant(r)
    decreases |events|
  {
    if events == [] then vm else Run(Step(vm, events[0]), events[1..])
  }

  /** Every state reachable from a controller built on a store it could itself
      have written, in particular an empty one, satisfies the invariant. */
  lemma ReachableStatesKeepInvariant(store: Store, events: seq<Event>)
    requires StoreInvariant(store)
    ensures Invariant(Init(store)) && Invariant(Run(Init(store), events))
  {
    InitInvariant(store);
  }
}
