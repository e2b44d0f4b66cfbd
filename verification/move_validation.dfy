/** The move validator: whether a proposed cell index may be played on a board. */
module MoveValidation {
  import opened DomainModel

  /** The rejected variants of the sealed validation result. */
  datatype InvalidMove = CellOutOfBound | CellAlreadyOccupied

  datatype MoveValidationResult = Valid | Invalid(reason: InvalidMove)

  /** Checks, in this order, that the index lies among the board's indices and that
      the target cell is not occupied. Whose turn it is plays no part. */
  function ValidateMove(cellIndex: int, board: Board): (r: MoveValidationResult)
    ensures r == Invalid(CellOutOfBound) <==> !(0 <= cellIndex < |board.cells|)
    ensures r == Invalid(CellAlreadyOccupied) <==> 0 <= cellIndex < |board.cells| && board.cells[cellIndex].Occupied?
    ensures r == Valid <==> 0 <= cellIndex < |board.cells| && board.cells[cellIndex] == Empty
  {
    if !(0 <= cellIndex < |board.cells|) then
      Invalid(CellOutOfBound)
    else if board.cells[cellIndex].Occupied? then
      Invalid(CellAlreadyOccupied)
    else
      Valid
  }

  /** Highlight flags never change a verdict: validation sees occupancy only. */
  lemma ValidationIgnoresHighlight(cellIndex: int, a: Board, b: Board)
    requires SameOccupancy(a.cells, b.cells)
    ensures ValidateMove(cellIndex, a) == ValidateMove(cellIndex, b)
  {
  }

  /** The indices that validate are exactly the board's Empty cells. */
  lemma ValidMovesAreEmptyCells(board: Board)
    ensures (set i | 0 <= i < |board.cells| && ValidateMove(i, board) == Valid)
         == (set i | 0 <= i < |board.cells| && board.cells[i].Empty?)
  {
  }
}
