/** The presentation layer's board and result types. */
module UiModel {
  import opened Players

  datatype CellUi = Empty | Occupied(player: Player, isHighlighted: bool)

  /** Like the domain board, the type does not itself fix the length at 9. */
  datatype BoardUi = BoardUi(cells: seq<CellUi>)

  /** The board a new game starts from. */
  function EmptyBoard(): (b: BoardUi)
    ensures |b.cells| == 9
    ensures forall i :: 0 <= i < |b.cells| ==> b.cells[i] == Empty
  {
    BoardUi(seq(9, _ => Empty))
  }

  datatype GameOutcomeUi = Draw | Won(winner: Player)

  datatype GameStatusResultUi = InProgress | GameOver(outcome: GameOutcomeUi)

  datatype InvalidMoveUi = CellOutOfBound | CellAlreadyOccupied

  datatype MoveValidationResultUi = Valid | Invalid(reason: InvalidMoveUi)
}
