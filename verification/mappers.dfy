/** Conversions between the domain layer and the presentation layer. */
module Mappers {
  import opened Players
  import opened DomainModel
  import opened UiModel
  import GameStatus
  import MoveValidation

  function CellToUi(c: Cell): (u: CellUi)
    ensures u.Empty? <==> c.Empty?
    ensures u.Occupied? ==> u.player == c.player && u.isHighlighted == c.isHighlighted
  {
    match c
    case Empty => CellUi.Empty
    case Occupied(p, h) => CellUi.Occupied(p, h)
  }

  function CellToEntity(u: CellUi): (c: Cell)
    ensures c.Empty? <==> u.Empty?
    ensures c.Occupied? ==> c.player == u.player && c.isHighlighted == u.isHighlighted
  {
    match u
    case Empty => Cell.Empty
    case Occupied(p, h) => Cell.Occupied(p, h)
  }

  function BoardToUi(b: Board): (u: BoardUi)
    ensures |u.cells| == |b.cells|
    ensures forall i :: 0 <= i < |b.cells| ==> u.cells[i] == CellToUi(b.cells[i])
  {
    BoardUi(seq(|b.cells|, i requires 0 <= i < |b.cells| => CellToUi(b.cells[i])))
  }

  function BoardToEntity(u: BoardUi): (b: Board)
    ensures |b.cells| == |u.cells|
    ensures forall i :: 0 <= i < |u.cells| ==> b.cells[i] == CellToEntity(u.cells[i])
  {
    Board(seq(|u.cells|, i requires 0 <= i < |u.cells| => CellToEntity(u.cells[i])))
  }

  /** Domain cell to UI cell and back is the identity, highlight included. */
  lemma CellRoundTrip(c: Cell)
    ensures CellToEntity(CellToUi(c)) == c
  {
  }

  /** UI cell to domain cell and back is the identity. */
  lemma CellUiRoundTrip(u: CellUi)
    ensures CellToUi(CellToEntity(u)) == u
  {
  }

  /** Board to UI and back is the identity. */
  lemma BoardRoundTrip(b: Board)
    ensures BoardToEntity(BoardToUi(b)) == b
  {
    var r := BoardToEntity(BoardToUi(b));
    forall i | 0 <= i < |b.cells|
      ensures r.cells[i] == b.cells[i]
    {
      CellRoundTrip(b.cells[i]);
    }
    assert r.cells == b.cells;
  }

  /** UI board to domain and back is the identity; this is why a rejected move
      hands the board back unchanged. */
  lemma BoardUiRoundTrip(u: BoardUi)
    ensures BoardToUi(BoardToEntity(u)) == u
  {
    var r := BoardToUi(BoardToEntity(u));
    forall i | 0 <= i < |u.cells|
      ensures r.cells[i] == u.cells[i]
    {
      CellUiRoundTrip(u.cells[i]);
    }
    assert r.cells == u.cells;
  }

  /** Mapping keeps Empty as Empty and Occupied as Occupied with the same player,
      so the occupancy-based use cases see the same board on either side. */
  lemma ToEntityKeepsOccupancy(u: BoardUi, cellIndex: int)
    ensures 0 <= cellIndex < |u.cells| ==>
              (BoardToEntity(u).cells[cellIndex].Empty? <==> u.cells[cellIndex].Empty?)
    ensures (MoveValidation.ValidateMove(cellIndex, BoardToEntity(u)) == MoveValidation.Valid) <==>
              0 <= cellIndex < |u.cells| && u.cells[cellIndex].Empty?
  {
  }

  /** The validation result carried over variant for variant. */
  function ValidationToUi(v: MoveValidation.MoveValidationResult): (u: MoveValidationResultUi)
    ensures u.Valid? <==> v.Valid?
    ensures u == Invalid(CellOutOfBound) <==> v == MoveValidation.Invalid(MoveValidation.CellOutOfBound)
    ensures u == Invalid(CellAlreadyOccupied) <==> v == MoveValidation.Invalid(MoveValidation.CellAlreadyOccupied)
  {
    match v
    case Valid => Valid
    case Invalid(reason) =>
      if reason.CellOutOfBound? then Invalid(CellOutOfBound) else Invalid(CellAlreadyOccupied)
  }

  /** The game-over outcome carried over variant for variant. */
  function OutcomeToUi(o: GameStatus.GameOutcome): (u: GameOutcomeUi)
    ensures u.Draw? <==> o.Draw?
    ensures u.Won? ==> u.winner == o.winner
  {
    match o
    case Draw => Draw
    case Won(w) => Won(w)
  }

  /** The status result carried over variant for variant. */
  function StatusToUi(s: GameStatus.GameStatusResult): (u: GameStatusResultUi)
    ensures u.InProgress? <==> s.InProgress?
    ensures u.GameOver? ==> u.outcome == OutcomeToUi(s.outcome)
  {
    match s
    case InProgress => InProgress
    case GameOver(o) => GameOver(OutcomeToUi(o))
  }

  /** Distinct validation results stay distinct in the UI, so the shown feedback
      names the validator's verdict. */
  lemma ValidationToUiInjective(v: MoveValidation.MoveValidationResult, w: MoveValidation.MoveValidationResult)
    ensures ValidationToUi(v) == ValidationToUi(w) <==> v == w
  {
  }

  /** Distinct status results stay distinct in the UI, the winner included. */
  lemma StatusToUiInjective(s: GameStatus.GameStatusResult, t: GameStatus.GameStatusResult)
    ensures StatusToUi(s) == StatusToUi(t) <==> s == t
    ensures s.GameOver? && t.GameOver? ==> (OutcomeToUi(s.outcome) == OutcomeToUi(t.outcome) <==> s.outcome == t.outcome)
  {
  }
}
