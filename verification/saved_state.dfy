/** The key-by-key snapshot codec: writes a game state into five keys of a saved-state
    handle and reads it back, falling back to defaults for missing keys. */
module SavedStateCodec {
  import opened Wrappers
  import opened Players
  import opened UiModel
  import opened TicTacToeViewModel

  const BoardKey: string := "board"
  const CurrentPlayerKey: string := "currentPlayer"
  const GameOverKey: string := "gameOver"
  const GameOutcomeIsDrawKey: string := "gameOutcomeIsDraw"
  const GameOutcomeWinnerKey: string := "gameOutcomeWinner"

  /** The kinds of value the codec stores: flags, the encoded board, players. */
  datatype Value = BoolV(flag: bool) | IntsV(ints: seq<int>) | PlayerV(player: Player)

  /** The saved-state handle as a map from key to stored value. */
  type Handle = map<string, Value>

  /** A read either succeeds or fails because the key holds a value of another
      type (the cast that would throw on such a value). */
  datatype Read<+T> = Ok(value: T) | CastFailure(key: string) {

    predicate IsFailure() {
      CastFailure?
    }

    function PropagateFailure<U>(): Read<U>
      requires CastFailure?
    {
      CastFailure(key)
    }

    function Extract(): T
      requires Ok?
    {
      value
    }
  }

  /** Keys agree between two handles: both absent, or both present with one value. */
  predicate SameAt(h: Handle, h': Handle, key: string) {
    (key !in h && key !in h') || (key in h && key in h' && h[key] == h'[key])
  }

  // ---- cell codec ----------------------------------------------------------

  /** A cell as a small integer: Empty 0, X 1, O 2. */
  function ToRawInt(c: CellUi): (n: int)
    ensures n == 0 <==> c.Empty?
    ensures n == 1 <==> c.Occupied? && c.player == X
    ensures n == 2 <==> c.Occupied? && c.player == O
  {
    match c
    case Occupied(X, _) => 1
    case Occupied(O, _) => 2
    case Empty => 0
  }

  /** A small integer as a cell: 1 is X, 2 is O, anything else is Empty; marks come
      back unhighlighted. */
  function ToCellUi(n: int): (c: CellUi)
    ensures c.Empty? <==> n != 1 && n != 2
    ensures c.Occupied? ==> !c.isHighlighted && (c.player == X <==> n == 1)
  {
    if n == 1 then CellUi.Occupied(X, false)
    else if n == 2 then CellUi.Occupied(O, false)
    else CellUi.Empty
  }

  /** The cell with its highlight flag cleared. */
  function Unhighlighted(c: CellUi): (u: CellUi)
    ensures u.Empty? <==> c.Empty?
    ensures u.Occupied? ==> u.player == c.player && !u.isHighlighted
  {
    match c
    case Empty => CellUi.Empty
    case Occupied(p, _) => CellUi.Occupied(p, false)
  }

  /** Decoding an encoded cell loses only the highlight flag. */
  lemma CellCodecRoundTrip(c: CellUi)
    ensures ToCellUi(ToRawInt(c)) == Unhighlighted(c)
  {
  }

  /** Encoding a decoded code gives the code back when it is one of 0, 1, 2. */
  lemma RawIntRoundTrip(n: int)
    requires 0 <= n <= 2
    ensures ToRawInt(ToCellUi(n)) == n
  {
  }

  function EncodeBoard(cells: seq<CellUi>): (ints: seq<int>)
    ensures |ints| == |cells|
    ensures forall i :: 0 <= i < |cells| ==> ints[i] == ToRawInt(cells[i])
  {
    seq(|cells|, i requires 0 <= i < |cells| => ToRawInt(cells[i]))
  }

  function DecodeBoard(ints: seq<int>): (cells: seq<CellUi>)
    ensures |cells| == |ints|
    ensures forall i :: 0 <= i < |ints| ==> cells[i] == ToCellUi(ints[i])
  {
    seq(|ints|, i requires 0 <= i < |ints| => ToCellUi(ints[i]))
  }

  /** The board with every highlight flag cleared. */
  function Unhighlight(cells: seq<CellUi>): (r: seq<CellUi>)
    ensures |r| == |cells|
    ensures forall i :: 0 <= i < |cells| ==> r[i] == Unhighlighted(cells[i])
  {
    seq(|cells|, i requires 0 <= i < |cells| => Unhighlighted(cells[i]))
  }

  /** Decoding an encoded board keeps every cell's occupant and drops highlights. */
  lemma BoardCodecRoundTrip(cells: seq<CellUi>)
    ensures DecodeBoard(EncodeBoard(cells)) == Unhighlight(cells)
  {
    var r := DecodeBoard(EncodeBoard(cells));
    forall i | 0 <= i < |cells|
      ensures r[i] == Unhighlight(cells)[i]
    {
      CellCodecRoundTrip(cells[i]);
    }
  }

  // ---- per-key writers and readers -------------------------------------------

  /** The key is absent or holds a flag. */
  predicate HoldsFlag(h: Handle, key: string) {
    key !in h || h[key].BoolV?
  }

  /** The key is absent or holds an encoded board. */
  predicate HoldsInts(h: Handle, key: string) {
    key !in h || h[key].IntsV?
  }

  /** The key is absent or holds a player. */
  predicate HoldsPlayer(h: Handle, key: string) {
    key !in h || h[key].PlayerV?
  }

  /** The key holds the flag `true`. */
  predicate IsSet(h: Handle, key: string) {
    key in h && h[key] == BoolV(true)
  }

  function SaveGameOver(h: Handle, isGameOver: bool): (h': Handle)
    ensures GameOverKey in h' && h'[GameOverKey] == BoolV(isGameOver)
    ensures forall k :: k != GameOverKey ==> SameAt(h, h', k)
  {
    h[GameOverKey := BoolV(isGameOver)]
  }

  function SaveBoard(h: Handle, board: BoardUi): (h': Handle)
    ensures BoardKey in h' && h'[BoardKey] == IntsV(EncodeBoard(board.cells))
    ensures forall k :: k != BoardKey ==> SameAt(h, h', k)
  {
    h[BoardKey := IntsV(EncodeBoard(board.cells))]
  }

  function SaveCurrentPlayer(h: Handle, player: Player): (h': Handle)
    ensures CurrentPlayerKey in h' && h'[CurrentPlayerKey] == PlayerV(player)
    ensures forall k :: k != CurrentPlayerKey ==> SameAt(h, h', k)
  {
    h[CurrentPlayerKey := PlayerV(player)]
  }

  /** Sets the draw flag and drops any stored winner. */
  function SaveDraw(h: Handle): (h': Handle)
    ensures GameOutcomeIsDrawKey in h' && h'[GameOutcomeIsDrawKey] == BoolV(true)
    ensures GameOutcomeWinnerKey !in h'
    ensures forall k :: k != GameOutcomeIsDrawKey && k != GameOutcomeWinnerKey ==> SameAt(h, h', k)
  {
    h[GameOutcomeIsDrawKey := BoolV(true)] - {GameOutcomeWinnerKey}
  }

  /** Stores the winner; the draw flag is left as it was. */
  function SaveWinner(h: Handle, player: Player): (h': Handle)
    ensures GameOutcomeWinnerKey in h' && h'[GameOutcomeWinnerKey] == PlayerV(player)
    ensures forall k :: k != GameOutcomeWinnerKey ==> SameAt(h, h', k)
    ensures SameAt(h, h', GameOutcomeIsDrawKey)
  {
    h[GameOutcomeWinnerKey := PlayerV(player)]
  }

  /** A flag, false when absent. */
  function GetFlag(h: Handle, key: string): (r: Read<bool>)
    ensures r.Ok? <==> HoldsFlag(h, key)
    ensures r.Ok? ==> (r.value <==> IsSet(h, key))
    ensures r.CastFailure? ==> r.key == key && key in h
  {
    if key !in h then Ok(false)
    else if h[key].BoolV? then Ok(h[key].flag)
    else CastFailure(key)
  }

  /** A stored player, absent when the key is missing. */
  function GetPlayer(h: Handle, key: string): (r: Read<Option<Player>>)
    ensures r.Ok? <==> HoldsPlayer(h, key)
    ensures r.Ok? ==> (r.value == None <==> key !in h)
    ensures r.Ok? && r.value.Some? ==> h[key] == PlayerV(r.value.value)
    ensures r.CastFailure? ==> r.key == key && key in h
  {
    if key !in h then Ok(None)
    else if h[key].PlayerV? then Ok(Some(h[key].player))
    else CastFailure(key)
  }

  function IsGameOver(h: Handle): (r: Read<bool>)
    ensures r.Ok? <==> HoldsFlag(h, GameOverKey)
    ensures r.Ok? ==> (r.value <==> IsSet(h, GameOverKey))
    ensures r.CastFailure? ==> r.key == GameOverKey
  {
    GetFlag(h, GameOverKey)
  }

  function IsDraw(h: Handle): (r: Read<bool>)
    ensures r.Ok? <==> HoldsFlag(h, GameOutcomeIsDrawKey)
    ensures r.Ok? ==> (r.value <==> IsSet(h, GameOutcomeIsDrawKey))
    ensures r.CastFailure? ==> r.key == GameOutcomeIsDrawKey
  {
    GetFlag(h, GameOutcomeIsDrawKey)
  }

  function GetCurrentPlayer(h: Handle): (r: Read<Option<Player>>)
    ensures r.Ok? <==> HoldsPlayer(h, CurrentPlayerKey)
    ensures r.Ok? ==> (r.value == None <==> CurrentPlayerKey !in h)
    ensures r.Ok? && r.value.Some? ==> h[CurrentPlayerKey] == PlayerV(r.value.value)
    ensures r.CastFailure? ==> r.key == CurrentPlayerKey
  {
    GetPlayer(h, CurrentPlayerKey)
  }

  function GetWinner(h: Handle): (r: Read<Option<Player>>)
    ensures r.Ok? <==> HoldsPlayer(h, GameOutcomeWinnerKey)
    ensures r.Ok? ==> (r.value == None <==> GameOutcomeWinnerKey !in h)
    ensures r.Ok? && r.value.Some? ==> h[GameOutcomeWinnerKey] == PlayerV(r.value.value)
    ensures r.CastFailure? ==> r.key == GameOutcomeWinnerKey
  {
    GetPlayer(h, GameOutcomeWinnerKey)
  }

  /** The stored board decoded cell by cell, or nine Empty cells when absent. */
  function GetBoard(h: Handle): (r: Read<seq<CellUi>>)
    ensures r.Ok? <==> HoldsInts(h, BoardKey)
    ensures r.Ok? && BoardKey !in h ==> r.value == EmptyBoard().cells
    ensures r.Ok? && BoardKey in h ==> r.value == DecodeBoard(h[BoardKey].ints)
    ensures r.Ok? && BoardKey in h ==> |r.value| == |h[BoardKey].ints|
    ensures r.CastFailure? ==> r.key == BoardKey
  {
    if BoardKey !in h then Ok(seq(9, _ => CellUi.Empty))
    else if h[BoardKey].IntsV? then Ok(DecodeBoard(h[BoardKey].ints))
    else CastFailure(BoardKey)
  }

  // ---- the codec -----------------------------------------------------------

  /** Saves a state key by key. A Playing state writes the game-over flag, the board
      and the current player; a finished game writes the game-over flag and its
      outcome and leaves the board and player keys as they were. A draw drops any
      stored winner; a win leaves the draw flag as it was. */
  function SaveState(h: Handle, state: TicTacToeState): (h': Handle)
    ensures state.Playing? ==>
              && GameOverKey in h' && h'[GameOverKey] == BoolV(false)
              && BoardKey in h' && h'[BoardKey] == IntsV(EncodeBoard(state.board.cells))
              && CurrentPlayerKey in h' && h'[CurrentPlayerKey] == PlayerV(state.currentPlayer)
    ensures state.Playing? ==> forall k :: k != GameOverKey && k != BoardKey && k != CurrentPlayerKey ==> SameAt(h, h', k)
    ensures state.GameOver? ==> GameOverKey in h' && h'[GameOverKey] == BoolV(true)
    ensures state.GameOver? && state.gameOutcome.Draw? ==>
              GameOutcomeIsDrawKey in h' && h'[GameOutcomeIsDrawKey] == BoolV(true) && GameOutcomeWinnerKey !in h'
    ensures state.GameOver? && state.gameOutcome.Won? ==>
              GameOutcomeWinnerKey in h' && h'[GameOutcomeWinnerKey] == PlayerV(state.gameOutcome.winner) && SameAt(h, h', GameOutcomeIsDrawKey)
    ensures state.GameOver? ==> SameAt(h, h', BoardKey) && SameAt(h, h', CurrentPlayerKey)
    ensures state.GameOver? ==>
              forall k :: k != GameOverKey && k != GameOutcomeIsDrawKey && k != GameOutcomeWinnerKey ==> SameAt(h, h', k)
  {
    match state
    case Playing(board, player, _) =>
      SaveCurrentPlayer(SaveBoard(SaveGameOver(h, false), board), player)
    case GameOver(outcome) =>
      var h1 := SaveGameOver(h, true);
      match outcome
      case Draw => SaveDraw(h1)
      case Won(winner) => SaveWinner(h1, winner)
  }

  /** Restores a state. Without a true game-over flag it is a Playing state built from
      the stored board (nine Empty cells if absent) and player (X if absent), with no
      validation feedback. With it, a true draw flag gives a draw, else a stored winner
      gives that win, else a draw. A key holding a value of the wrong type fails the
      read, in the order the keys are consulted; keys the branch taken does not
      consult cannot make it fail. */
  function RestoreState(h: Handle): (r: Read<TicTacToeState>)
    ensures r.Ok? <==>
              && HoldsFlag(h, GameOverKey)
              && (if IsSet(h, GameOverKey)
                  then HoldsFlag(h, GameOutcomeIsDrawKey)
                       && (IsSet(h, GameOutcomeIsDrawKey) || HoldsPlayer(h, GameOutcomeWinnerKey))
                  else HoldsInts(h, BoardKey) && HoldsPlayer(h, CurrentPlayerKey))
    ensures !HoldsFlag(h, GameOverKey) ==> r == CastFailure(GameOverKey)
    ensures HoldsFlag(h, GameOverKey) && !IsSet(h, GameOverKey) && !HoldsInts(h, BoardKey) ==>
              r == CastFailure(BoardKey)
    ensures (HoldsFlag(h, GameOverKey) && !IsSet(h, GameOverKey) && HoldsInts(h, BoardKey)
             && !HoldsPlayer(h, CurrentPlayerKey)) ==> r == CastFailure(CurrentPlayerKey)
    ensures IsSet(h, GameOverKey) && !HoldsFlag(h, GameOutcomeIsDrawKey) ==> r == CastFailure(GameOutcomeIsDrawKey)
    ensures (IsSet(h, GameOverKey) && HoldsFlag(h, GameOutcomeIsDrawKey) && !IsSet(h, GameOutcomeIsDrawKey)
             && !HoldsPlayer(h, GameOutcomeWinnerKey)) ==> r == CastFailure(GameOutcomeWinnerKey)
    ensures r.CastFailure? ==> r.key in h
    ensures r.Ok? ==> (r.value.Playing? <==> !IsSet(h, GameOverKey))
    ensures r.Ok? && r.value.Playing? ==>
              && r.value.moveValidationResult == None
              && (BoardKey !in h ==> r.value.board == EmptyBoard())
              && (BoardKey in h ==> h[BoardKey].IntsV? && r.value.board.cells == DecodeBoard(h[BoardKey].ints))
              && (CurrentPlayerKey !in h ==> r.value.currentPlayer == X)
              && (CurrentPlayerKey in h ==> h[CurrentPlayerKey] == PlayerV(r.value.currentPlayer))
    ensures r.Ok? && r.value.GameOver? ==>
              (r.value.gameOutcome == Draw <==>
                 IsSet(h, GameOutcomeIsDrawKey) || GameOutcomeWinnerKey !in h)
    ensures r.Ok? && r.value.GameOver? && r.value.gameOutcome.Won? ==>
              h[GameOutcomeWinnerKey] == PlayerV(r.value.gameOutcome.winner)
  {
    var over :- IsGameOver(h);
    if !over then
      var cells :- GetBoard(h);
      var player :- GetCurrentPlayer(h);
      Ok(Playing(BoardUi(cells), player.GetOr(X), None))
    else
      var draw :- IsDraw(h);
      if draw then
        Ok(TicTacToeState.GameOver(Draw))
      else
        var winner :- GetWinner(h);
        match winner
        case None => Ok(TicTacToeState.GameOver(Draw))
        case Some(w) => Ok(TicTacToeState.GameOver(Won(w)))
  }

  /** Every key the codec reads holds a value of the type it reads there. */
  predicate WellTyped(h: Handle) {
    && HoldsFlag(h, GameOverKey)
    && HoldsInts(h, BoardKey)
    && HoldsPlayer(h, CurrentPlayerKey)
    && HoldsFlag(h, GameOutcomeIsDrawKey)
    && HoldsPlayer(h, GameOutcomeWinnerKey)
  }

  /** A handle with well-typed values always restores, whatever keys are missing. */
  lemma WellTypedRestores(h: Handle)
    requires WellTyped(h)
    ensures RestoreState(h).Ok?
  {
  }

  /** A finished game is restored from the game-over, draw and winner keys alone:
      whatever the board and player keys hold, even values of the wrong type, they
      change neither the result nor whether the restore fails. */
  lemma FinishedGameIgnoresBoardAndPlayer(h: Handle)
    requires IsSet(h, GameOverKey)
    ensures RestoreState(h) == RestoreState(h - {BoardKey, CurrentPlayerKey})
  {
    var h' := h - {BoardKey, CurrentPlayerKey};
    assert SameAt(h, h', GameOverKey) && SameAt(h, h', GameOutcomeIsDrawKey) && SameAt(h, h', GameOutcomeWinnerKey);
  }

  /** The empty handle restores a fresh game. */
  lemma RestoreEmptyHandle()
    ensures RestoreState(map[]) == Ok(DefaultState())
  {
  }

  /** A Playing state comes back with its board (highlights cleared) and its player,
      whatever else the handle holds; the validation feedback is not saved. */
  lemma PlayingRoundTrip(h: Handle, board: BoardUi, player: Player, feedback: Option<MoveValidationResultUi>)
    ensures RestoreState(SaveState(h, Playing(board, player, feedback)))
         == Ok(Playing(BoardUi(Unhighlight(board.cells)), player, None))
  {
    BoardCodecRoundTrip(board.cells);
  }

  /** A draw comes back as a draw, whatever else the handle holds. */
  lemma DrawRoundTrip(h: Handle)
    ensures RestoreState(SaveState(h, TicTacToeState.GameOver(Draw))) == Ok(TicTacToeState.GameOver(Draw))
  {
  }

  /** A win comes back as that win, provided no draw flag is left set in the handle. */
  lemma WonRoundTrip(h: Handle, winner: Player)
    requires GameOutcomeIsDrawKey !in h || h[GameOutcomeIsDrawKey] == BoolV(false)
    ensures RestoreState(SaveState(h, TicTacToeState.GameOver(Won(winner)))) == Ok(TicTacToeState.GameOver(Won(winner)))
  {
  }

  /** Saving a win does not clear a draw flag left by an earlier draw, so a handle
      that once saved a draw, then a new game, then a win restores a draw. */
  lemma StaleDrawFlagHidesWinner(h: Handle, winner: Player)
    ensures var h1 := SaveState(h, TicTacToeState.GameOver(Draw));
            var h2 := SaveState(h1, DefaultState());
            RestoreState(SaveState(h2, TicTacToeState.GameOver(Won(winner)))) == Ok(TicTacToeState.GameOver(Draw))
  {
    var h1 := SaveState(h, TicTacToeState.GameOver(Draw));
    var h2 := SaveState(h1, DefaultState());
    assert h2[GameOutcomeIsDrawKey] == BoolV(true);
  }

  // ---- corrected save ----------------------------------------------------------

  /** Stores the winner and drops any draw flag, mirroring `SaveDraw`. */
  function SaveWinnerCorrected(h: Handle, player: Player): (h': Handle)
    ensures GameOutcomeWinnerKey in h' && h'[GameOutcomeWinnerKey] == PlayerV(player)
    ensures GameOutcomeIsDrawKey !in h'
    ensures forall k :: k != GameOutcomeIsDrawKey && k != GameOutcomeWinnerKey ==> SameAt(h, h', k)
  {
    h[GameOutcomeWinnerKey := PlayerV(player)] - {GameOutcomeIsDrawKey}
  }

  /** `SaveState` with the winner write clearing the draw flag. */
  function SaveStateCorrected(h: Handle, state: TicTacToeState): (h': Handle)
    ensures state.Playing? ==> h' == SaveState(h, state)
    ensures state.GameOver? ==> GameOverKey in h' && h'[GameOverKey] == BoolV(true)
    ensures state.GameOver? && state.gameOutcome.Won? ==> GameOutcomeWinnerKey in h' && h'[GameOutcomeWinnerKey] == PlayerV(state.gameOutcome.winner)
    ensures state.GameOver? && state.gameOutcome.Draw? ==> GameOutcomeIsDrawKey in h' && h'[GameOutcomeIsDrawKey] == BoolV(true)
    ensures state.GameOver? && state.gameOutcome.Won? ==> GameOutcomeIsDrawKey !in h'
    ensures state.GameOver? && state.gameOutcome.Draw? ==> GameOutcomeWinnerKey !in h'
    ensures forall k :: (&& k != GameOverKey && k != BoardKey && k != CurrentPlayerKey
                         && k != GameOutcomeIsDrawKey && k != GameOutcomeWinnerKey) ==> SameAt(h, h', k)
  {
    match state
    case Playing(_, _, _) => SaveState(h, state)
    case GameOver(outcome) =>
      var h1 := SaveGameOver(h, true);
      match outcome
      case Draw => SaveDraw(h1)
      case Won(winner) => SaveWinnerCorrected(h1, winner)
  }

  /** What a snapshot preserves of a state: Playing loses highlights and feedback,
      finished games are kept whole. */
  function Snapshot(state: TicTacToeState): (s: TicTacToeState)
    ensures s.Playing? <==> state.Playing?
    ensures s.GameOver? ==> s == state
    ensures s.Playing? ==> s.currentPlayer == state.currentPlayer && s.moveValidationResult == None
  {
    match state
    case Playing(board, player, _) => Playing(BoardUi(Unhighlight(board.cells)), player, None)
    case GameOver(outcome) => state
  }

  /** With the corrected save, every state survives a save and restore on any handle. */
  lemma CorrectedRoundTrip(h: Handle, state: TicTacToeState)
    ensures RestoreState(SaveStateCorrected(h, state)) == Ok(Snapshot(state))
  {
    match state
    case Playing(board, player, feedback) =>
      PlayingRoundTrip(h, board, player, feedback);
    case GameOver(outcome) =>
  }

  /** A snapshot loses nothing the game logic reads: restoring it again is stable. */
  lemma SnapshotIdempotent(h: Handle, state: TicTacToeState)
    ensures RestoreState(SaveStateCorrected(SaveStateCorrected(h, state), Snapshot(state))) == Ok(Snapshot(state))
  {
    CorrectedRoundTrip(SaveStateCorrected(h, state), Snapshot(state));
    match state
    case Playing(board, player, _) =>
      var once := Unhighlight(board.cells);
      assert Unhighlight(once) == once;
    case GameOver(_) =>
  }
}
