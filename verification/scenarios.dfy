/** Concrete boards and games: the cases the repository's unit tests exercise, plus
    a few more games, checked against the model. */
module Scenarios {
  import opened Wrappers
  import opened Players
  import opened DomainModel
  import opened UiModel
  import opened Mappers
  import opened TicTacToeViewModel
  import GameStatus
  import MoveValidation

  /** A domain board from a pattern: 0 Empty, 1 X, 2 O. */
  function BoardOf(pattern: seq<int>): (b: Board)
    ensures |b.cells| == |pattern|
    ensures forall i :: 0 <= i < |pattern| ==>
              (b.cells[i].Empty? <==> pattern[i] != 1 && pattern[i] != 2) &&
              (pattern[i] == 1 ==> b.cells[i] == Cell.Occupied(X, false)) &&
              (pattern[i] == 2 ==> b.cells[i] == Cell.Occupied(O, false))
  {
    Board(seq(|pattern|, i requires 0 <= i < |pattern| =>
      if pattern[i] == 1 then Cell.Occupied(X, false)
      else if pattern[i] == 2 then Cell.Occupied(O, false)
      else Cell.Empty))
  }

  /** A top row of X wins for X. */
  lemma TopRowOfXWins()
    ensures GameStatus.CheckGameStatus(BoardOf([1, 1, 1, 0, 0, 0, 0, 0, 0])) == GameStatus.GameOver(GameStatus.Won(X))
  {
    var b := BoardOf([1, 1, 1, 0, 0, 0, 0, 0, 0]);
    assert GameStatus.FirstWinningLine(b.cells, 0, 0, X);
    GameStatus.WonIffFirstWinningLine(b, X);
  }

  /** Fills every (row, column, diagonal) check for a board with no complete line. */
  lemma NoLineComplete(b: Board)
    requires |b.cells| == 9
    requires !GameStatus.LineComplete(b.cells, 0) && !GameStatus.LineComplete(b.cells, 1)
    requires !GameStatus.LineComplete(b.cells, 2) && !GameStatus.LineComplete(b.cells, 3)
    requires !GameStatus.LineComplete(b.cells, 4) && !GameStatus.LineComplete(b.cells, 5)
    requires !GameStatus.LineComplete(b.cells, 6) && !GameStatus.LineComplete(b.cells, 7)
    ensures !GameStatus.HasCompleteLine(b.cells)
  {
    forall k | 0 <= k < |GameStatus.WinningLines|
      ensures !GameStatus.LineComplete(b.cells, k)
    {
      assert k in {0, 1, 2, 3, 4, 5, 6, 7};
    }
  }

  /** X O X / X O O / O X X has no complete line and no Empty cell: a draw. */
  lemma FullBoardWithoutLineIsDraw()
    ensures GameStatus.CheckGameStatus(BoardOf([1, 2, 1, 1, 2, 2, 2, 1, 1])) == GameStatus.GameOver(GameStatus.Draw)
  {
    var b := BoardOf([1, 2, 1, 1, 2, 2, 2, 1, 1]);
    NoLineComplete(b);
    assert !GameStatus.HasEmptyCell(b.cells) by {
      forall i | 0 <= i < 9 ensures b.cells[i].Occupied? {
        assert i in {0, 1, 2, 3, 4, 5, 6, 7, 8};
      }
    }
  }

  /** X O _ / _ X _ / _ _ O has no complete line and free cells: in progress. */
  lemma OpenBoardWithoutLineIsInProgress()
    ensures GameStatus.CheckGameStatus(BoardOf([1, 2, 0, 0, 1, 0, 0, 0, 2])) == GameStatus.InProgress
  {
    var b := BoardOf([1, 2, 0, 0, 1, 0, 0, 0, 2]);
    NoLineComplete(b);
    assert b.cells[2].Empty?;
  }

  /** The empty board is in progress and every index 0..8 validates on it. */
  lemma EmptyBoardIsOpen()
    ensures GameStatus.CheckGameStatus(BoardToEntity(EmptyBoard())) == GameStatus.InProgress
    ensures forall i :: 0 <= i < 9 ==> MoveValidation.ValidateMove(i, BoardToEntity(EmptyBoard())) == MoveValidation.Valid
  {
    var b := BoardToEntity(EmptyBoard());
    assert b.cells[0].Empty?;
    NoLineComplete(b);
  }

  /** Indices -1 and 9 are out of bounds, an occupied centre cannot be taken. */
  lemma ValidationCases()
    ensures MoveValidation.ValidateMove(-1, BoardToEntity(EmptyBoard())) == MoveValidation.Invalid(MoveValidation.CellOutOfBound)
    ensures MoveValidation.ValidateMove(9, BoardToEntity(EmptyBoard())) == MoveValidation.Invalid(MoveValidation.CellOutOfBound)
    ensures MoveValidation.ValidateMove(4, BoardOf([0, 0, 0, 0, 1, 0, 0, 0, 0])) == MoveValidation.Invalid(MoveValidation.CellAlreadyOccupied)
    ensures MoveValidation.ValidateMove(4, BoardOf([0, 0, 0, 0, 2, 0, 0, 0, 0])) == MoveValidation.Invalid(MoveValidation.CellAlreadyOccupied)
  {
  }

  /** X opens in the corner of a fresh game: the mark lands, O is to move, and the
      new state is persisted. */
  lemma FirstMove(store: Store)
    requires UiStateKey !in store
    ensures var r := OnCellClicked(Init(store), 0);
            && r.state.Playing?
            && r.state.board.cells[0] == CellUi.Occupied(X, false)
            && r.state.currentPlayer == O
            && r.state.moveValidationResult == None
            && r.store[UiStateKey] == r.state
  {
    var b := EmptyBoard();
    var next := MarkedBoard(b, 0, X);
    var e := BoardToEntity(next);
    assert e.cells[1].Empty?;
    NoLineComplete(e);
  }

  /** X completes the top row: the game is won by X and nothing is written. */
  lemma CompletingTopRowWins(store: Store)
    ensures var vm := ViewModel(Playing(BoardToUi(BoardOf([1, 1, 0, 2, 2, 0, 0, 0, 0])), X, None), store);
            var r := OnCellClicked(vm, 2);
            r.state == TicTacToeState.GameOver(Won(X)) && r.store == store
  {
    var b := BoardToUi(BoardOf([1, 1, 0, 2, 2, 0, 0, 0, 0]));
    assert b.cells[0] == CellUi.Occupied(X, false) && b.cells[1] == CellUi.Occupied(X, false);
    assert IsOpenCell(b, 2);
    var e := BoardToEntity(MarkedBoard(b, 2, X));
    assert e.cells[0] == Cell.Occupied(X, false);
    assert e.cells[1] == Cell.Occupied(X, false);
    assert e.cells[2] == Cell.Occupied(X, false);
    assert GameStatus.FirstWinningLine(e.cells, 0, 0, X);
    GameStatus.WonIffFirstWinningLine(e, X);
    assert GameStatus.CheckGameStatus(e) == GameStatus.GameOver(GameStatus.Won(X));
  }

  /** O clicks a cell X holds: same board, O still to move, the rejection is shown. */
  lemma OccupiedCellKeepsTurn(store: Store)
    ensures var board := BoardToUi(BoardOf([1, 0, 0, 0, 0, 0, 0, 0, 0]));
            var r := OnCellClicked(ViewModel(Playing(board, O, None), store), 0);
            r.state == Playing(board, O, Some(Invalid(CellAlreadyOccupied)))
  {
  }

  /** New Game after a draw starts a fresh game with X to move. */
  lemma NewGameAfterDraw(store: Store)
    ensures OnNewGameClicked(ViewModel(TicTacToeState.GameOver(Draw), store)).state == Playing(EmptyBoard(), X, None)
  {
  }
}
