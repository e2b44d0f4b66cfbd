/** The two players. The domain `Player` and the presentation `PlayerUi` are the
    same two-valued enumeration and the mappers pass it across unchanged, so one
    type serves both layers. */
module Players {

  datatype Player = X | O
}
