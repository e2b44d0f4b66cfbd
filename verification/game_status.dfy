/** Classification of a board as in progress, drawn or won. */
module GameStatus {
  import opened Players
  import opened DomainModel

  /** The game-over variants of the sealed status result. */
  datatype GameOutcome = Draw | Won(winner: Player)

  datatype GameStatusResult = InProgress | GameOver(outcome: GameOutcome)

  /** Three board indices forming a row, a column or a diagonal. */
  datatype Line = Line(a: nat, b: nat, c: nat)

  /** The lines in the order the evaluator scans them: rows, columns, diagonals. */
  const WinningLines: seq<Line> := [
    Line(0, 1, 2), Line(3, 4, 5), Line(6, 7, 8),
    Line(0, 3, 6), Line(1, 4, 7), Line(2, 5, 8),
    Line(0, 4, 8), Line(2, 4, 6)
  ]

  /** All three cells of `l` lie on the board and carry a mark of `p`. */
  predicate LineOwnedBy(cells: seq<Cell>, l: Line, p: Player) {
    && l.a < |cells| && l.b < |cells| && l.c < |cells|
    && OccupiedBy(cells[l.a], p) && OccupiedBy(cells[l.b], p) && OccupiedBy(cells[l.c], p)
  }

  /** Listed line `k` belongs entirely to one player. */
  predicate LineComplete(cells: seq<Cell>, k: int)
    requires 0 <= k < |WinningLines|
  {
    LineOwnedBy(cells, WinningLines[k], X) || LineOwnedBy(cells, WinningLines[k], O)
  }

  predicate HasCompleteLine(cells: seq<Cell>) {
    exists k :: 0 <= k < |WinningLines| && LineComplete(cells, k)
  }

  predicate HasEmptyCell(cells: seq<Cell>) {
    exists i :: 0 <= i < |cells| && cells[i].Empty?
  }

  /** Among the lines scanned from index `from` on, line `k` is the first complete
      one, and `p` owns it. With `from == 0` this is the first complete line of all. */
  predicate FirstWinningLine(cells: seq<Cell>, from: int, k: int, p: Player) {
    && 0 <= from <= k < |WinningLines|
    && LineOwnedBy(cells, WinningLines[k], p)
    && forall j :: from <= j < k ==> !LineComplete(cells, j)
  }

  /** The test of one loop iteration: three occupied cells whose players are equal. */
  predicate LineMatches(cells: seq<Cell>, l: Line) {
    && l.a < |cells| && l.b < |cells| && l.c < |cells|
    && cells[l.a].Occupied? && cells[l.b].Occupied? && cells[l.c].Occupied?
    && cells[l.a].player == cells[l.b].player
    && cells[l.a].player == cells[l.c].player
  }

  /** The scan loop from line `k` onwards: the first matching line wins; after the
      last line, any Empty cell means the game goes on, otherwise it is a draw. */
  function ScanLines(cells: seq<Cell>, k: nat): (r: GameStatusResult)
    requires |cells| >= 9
    requires k <= |WinningLines|
    ensures r.GameOver? && r.outcome.Won? <==> exists j :: k <= j < |WinningLines| && LineComplete(cells, j)
    ensures r.GameOver? && r.outcome.Won? ==> exists j :: FirstWinningLine(cells, k, j, r.outcome.winner)
    ensures r == InProgress <==>
              (forall j :: k <= j < |WinningLines| ==> !LineComplete(cells, j)) && HasEmptyCell(cells)
    ensures r == GameOver(Draw) <==>
              (forall j :: k <= j < |WinningLines| ==> !LineComplete(cells, j)) && !HasEmptyCell(cells)
    decreases |WinningLines| - k
  {
    if k == |WinningLines| then
      if HasEmptyCell(cells) then InProgress else GameOver(Draw)
    else
      var l := WinningLines[k];
      if LineMatches(cells, l) then
        assert FirstWinningLine(cells, k, k, cells[l.a].player);
        assert LineComplete(cells, k);
        GameOver(Won(cells[l.a].player))
      else
        assert !LineComplete(cells, k);
        var r := ScanLines(cells, k + 1);
        assert r.GameOver? && r.outcome.Won? ==> exists j :: FirstWinningLine(cells, k, j, r.outcome.winner) by {
          if r.GameOver? && r.outcome.Won? {
            var j :| FirstWinningLine(cells, k + 1, j, r.outcome.winner);
            assert FirstWinningLine(cells, k, j, r.outcome.winner);
          }
        }
        r
  }

  /** The outcome of a board: a win for the owner of the first complete line,
      otherwise in progress while an Empty cell remains, otherwise a draw. */
  function CheckGameStatus(board: Board): (r: GameStatusResult)
    requires |board.cells| >= 9
    ensures r.GameOver? && r.outcome.Won? <==> HasCompleteLine(board.cells)
    ensures r.GameOver? && r.outcome.Won? ==> exists k :: FirstWinningLine(board.cells, 0, k, r.outcome.winner)
    ensures r == InProgress <==> !HasCompleteLine(board.cells) && HasEmptyCell(board.cells)
    ensures r == GameOver(Draw) <==> !HasCompleteLine(board.cells) && !HasEmptyCell(board.cells)
  {
    ScanLines(board.cells, 0)
  }

  /** A line cannot belong to both players, so the first complete line names one winner. */
  lemma FirstWinningLineUnique(cells: seq<Cell>, k1: int, p1: Player, k2: int, p2: Player)
    requires FirstWinningLine(cells, 0, k1, p1)
    requires FirstWinningLine(cells, 0, k2, p2)
    ensures k1 == k2 && p1 == p2
  {
    if k1 < k2 {
      assert LineComplete(cells, k1);
      assert false;
    } else if k2 < k1 {
      assert LineComplete(cells, k2);
      assert false;
    }
  }

  /** `Won(p)` is reported exactly when `p` owns the first complete line in scan order. */
  lemma WonIffFirstWinningLine(board: Board, p: Player)
    requires |board.cells| >= 9
    ensures CheckGameStatus(board) == GameOver(Won(p)) <==> exists k :: FirstWinningLine(board.cells, 0, k, p)
  {
    var r := CheckGameStatus(board);
    if k :| FirstWinningLine(board.cells, 0, k, p) {
      assert LineComplete(board.cells, k);
      assert r.GameOver? && r.outcome.Won?;
      var k' :| FirstWinningLine(board.cells, 0, k', r.outcome.winner);
      FirstWinningLineUnique(board.cells, k, p, k', r.outcome.winner);
    }
  }

  /** Line ownership sees only occupancy, never highlight flags. */
  lemma LineOwnershipIgnoresHighlight(a: seq<Cell>, b: seq<Cell>, l: Line, p: Player)
    requires SameOccupancy(a, b)
    ensures LineOwnedBy(a, l, p) <==> LineOwnedBy(b, l, p)
  {
    if l.a < |a| && l.b < |a| && l.c < |a| {
      assert a[l.a].Empty? <==> b[l.a].Empty?;
      assert a[l.b].Empty? <==> b[l.b].Empty?;
      assert a[l.c].Empty? <==> b[l.c].Empty?;
    }
  }

  /** Changing highlight flags never changes the outcome. */
  lemma StatusIgnoresHighlight(a: Board, b: Board)
    requires |a.cells| >= 9
    requires SameOccupancy(a.cells, b.cells)
    ensures CheckGameStatus(a) == CheckGameStatus(b)
  {
    forall k, p | 0 <= k < |WinningLines|
      ensures LineOwnedBy(a.cells, WinningLines[k], p) <==> LineOwnedBy(b.cells, WinningLines[k], p)
    {
      LineOwnershipIgnoresHighlight(a.cells, b.cells, WinningLines[k], p);
    }
    forall k | 0 <= k < |WinningLines|
      ensures LineComplete(a.cells, k) <==> LineComplete(b.cells, k)
    {
      LineOwnershipIgnoresHighlight(a.cells, b.cells, WinningLines[k], X);
      LineOwnershipIgnoresHighlight(a.cells, b.cells, WinningLines[k], O);
    }
    assert HasCompleteLine(a.cells) <==> HasCompleteLine(b.cells);
    assert HasEmptyCell(a.cells) <==> HasEmptyCell(b.cells) by {
      if i :| 0 <= i < |a.cells| && a.cells[i].Empty? {
        assert b.cells[i].Empty?;
      }
      if i :| 0 <= i < |b.cells| && b.cells[i].Empty? {
        assert a.cells[i].Empty?;
      }
    }
    var ra := CheckGameStatus(a);
    if ra.GameOver? && ra.outcome.Won? {
      var k :| FirstWinningLine(a.cells, 0, k, ra.outcome.winner);
      assert FirstWinningLine(b.cells, 0, k, ra.outcome.winner);
      WonIffFirstWinningLine(b, ra.outcome.winner);
    }
  }
}
