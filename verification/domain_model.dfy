/** The domain layer's board: cells and the board that holds them. */
module DomainModel {
  import opened Players

  /** A grid position. `isHighlighted` is display metadata with no game meaning. */
  datatype Cell = Empty | Occupied(player: Player, isHighlighted: bool)

  /** The board's cells, row-major. The type itself does not fix the length at 9;
      that comes from the places that build boards. */
  datatype Board = Board(cells: seq<Cell>)

  predicate OccupiedBy(c: Cell, p: Player) {
    c.Occupied? && c.player == p
  }

  /** Two cell lists agree on everything but highlight flags. */
  predicate SameOccupancy(a: seq<Cell>, b: seq<Cell>) {
    && |a| == |b|
    && (forall i :: 0 <= i < |a| ==> (a[i].Empty? <==> b[i].Empty?))
    && (forall i :: 0 <= i < |a| && a[i].Occupied? ==> a[i].player == b[i].player)
  }
}
