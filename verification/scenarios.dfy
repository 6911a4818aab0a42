/** Worked games that follow from the contracts of the engine's operations. */
module Scenarios {
  import opened Wrappers
  import opened Types
  import opened Queries
  import opened Field
  import opened Play
  import opened Render

  /** A cell with no mine of `g` in its block has a zero count. */
  lemma NoMineNear(g: Game, c: Cell)
    requires forall m :: m in g.mines ==> !Adjacent(m, c)
    ensures CalcMinesNear(g, c) == 0
  {
    CalcMinesNearZero(g, c);
  }

  /** A set of cells of the 3x3 board that holds (2, 2) and no other cell. */
  lemma OnlyLastCorner(done: set<Cell>)
    requires done <= BoardCells(3, 3) && Cell(2, 2) in done
    requires Cell(0, 0) !in done && Cell(1, 0) !in done && Cell(2, 0) !in done
    requires Cell(0, 1) !in done && Cell(1, 1) !in done && Cell(2, 1) !in done
    requires Cell(0, 2) !in done && Cell(1, 2) !in done
    ensures done == {Cell(2, 2)}
  {
    forall c | c in done ensures c == Cell(2, 2) {
      assert c in BoardCells(3, 3);
    }
  }

  /**
   * On a 3x3 board whose only mine is the corner (2, 2), opening the
   * opposite corner cascades over all eight safe cells and wins at once.
   */
  method CornerCascade() returns (g: Game)
    ensures g.status == Victory
    ensures g.closed == {Cell(2, 2)}
  {
    var made := NewMinesweeperCells(3, 3, [Cell(2, 2)]);
    assert made.Ok?;
    var start := made.value;
    assert start.mines == {Cell(2, 2)};
    var outcome := OpenCell(start, Cell(0, 0), 7, 8);
    assert outcome.Ok?;
    g := outcome.value;
    var done := g.closed;
    NoMineNear(start, Cell(0, 0));
    assert Expanded(start, done, Cell(0, 0));
    assert Cell(1, 0) !in done && Cell(0, 1) !in done && Cell(1, 1) !in done;
    NoMineNear(start, Cell(1, 0));
    assert Expanded(start, done, Cell(1, 0));
    assert Cell(2, 0) !in done && Cell(2, 1) !in done;
    NoMineNear(start, Cell(0, 1));
    assert Expanded(start, done, Cell(0, 1));
    assert Cell(0, 2) !in done && Cell(1, 2) !in done;
    assert Cell(2, 2) in done;
    OnlyLastCorner(done);
  }

  /**
   * On a one-row board of three cells with a mine at (0, 0), a mark on the
   * safe cell (2, 0) keeps the game from being won after (1, 0) is opened;
   * once the mark is removed, opening (2, 0) wins.
   */
  method MarkBlocksVictory() returns (blocked: Game, won: Game)
    ensures blocked.status == InProgress
    ensures blocked.closed == {Cell(0, 0), Cell(2, 0)}
    ensures won.status == Victory
    ensures won.closed == {Cell(0, 0)}
  {
    var made := NewMinesweeperCells(3, 1, [Cell(0, 0)]);
    assert made.Ok?;
    var start := made.value;
    assert start.mines == {Cell(0, 0)};
    var marking := MarkCell(start, Cell(2, 0), 1);
    var flagged := marking.value;
    var first := OpenCell(flagged, Cell(1, 0), 2, 2);
    blocked := first.value;
    forall c | c in blocked.closed ensures c == Cell(0, 0) || c == Cell(2, 0) {
      assert c in BoardCells(3, 1);
    }
    assert Cell(0, 0) in blocked.closed && Cell(2, 0) in blocked.closed;
    assert blocked.closed == {Cell(0, 0), Cell(2, 0)};
    assert |blocked.closed| == 2;
    var unmarking := MarkCell(blocked, Cell(2, 0), 3);
    var cleared := unmarking.value;
    assert cleared.marked == {};
    var second := OpenCell(cleared, Cell(2, 0), 4, 5);
    won := second.value;
    forall c | c in won.closed ensures c == Cell(0, 0) {
      assert c in blocked.closed;
    }
    assert Cell(0, 0) in won.closed;
    assert won.closed == {Cell(0, 0)};
  }

  /**
   * On a one-row board of five cells whose only mine is (2, 0), no
   * zero-count cell outside (3, 0) and (4, 0) touches them.
   */
  lemma BeyondMineSealed(g: Game)
    requires g.width == 5 && g.height == 1 && g.mines == {Cell(2, 0)}
    ensures Sealed(g, {Cell(3, 0), Cell(4, 0)})
  {
    var far := {Cell(3, 0), Cell(4, 0)};
    forall c, p | c in far && Adjacent(c, p) && InBounds(g.width, g.height, p) && CalcMinesNear(g, p) == 0
      ensures p in far
    {
      CalcMinesNearZero(g, p);
      assert Cell(2, 0) in g.mines && InBounds(g.width, g.height, Cell(2, 0));
    }
  }

  /** A set of cells of the five-cell row that holds exactly its last three. */
  lemma LastThreeOfFive(done: set<Cell>)
    requires done <= BoardCells(5, 1)
    requires Cell(0, 0) !in done && Cell(1, 0) !in done
    requires Cell(2, 0) in done && Cell(3, 0) in done && Cell(4, 0) in done
    ensures done == {Cell(2, 0), Cell(3, 0), Cell(4, 0)}
    ensures |done| == 3
  {
    forall c | c in done ensures c == Cell(2, 0) || c == Cell(3, 0) || c == Cell(4, 0) {
      assert c in BoardCells(5, 1);
    }
  }

  /**
   * On a one-row board of five cells with a mine at (2, 0), opening (0, 0)
   * opens (1, 0) and stops there: (3, 0) and (4, 0) are cut off from (0, 0)
   * by the mine, so they stay closed and the game goes on.
   */
  method IsolatedRegionStaysClosed() returns (g: Game)
    ensures g.status == InProgress
    ensures g.closed == {Cell(2, 0), Cell(3, 0), Cell(4, 0)}
  {
    var made := NewMinesweeperCells(5, 1, [Cell(2, 0)]);
    assert made.Ok?;
    var start := made.value;
    assert start.mines == {Cell(2, 0)};
    var outcome := OpenCell(start, Cell(0, 0), 5, 6);
    assert outcome.Ok?;
    g := outcome.value;
    var done := g.closed;
    NoMineNear(start, Cell(0, 0));
    assert Expanded(start, done, Cell(0, 0));
    assert Cell(1, 0) !in done;
    var far := {Cell(3, 0), Cell(4, 0)};
    BeyondMineSealed(start);
    SealedRegionStaysClosed(start, Cell(0, 0), start.closed - done, far);
    assert Cell(3, 0) in done && Cell(4, 0) in done && Cell(2, 0) in done;
    LastThreeOfFive(done);
  }

  /**
   * Opening the mine of a two-cell column loses the game without opening
   * anything, and the render then reveals the mine. The clock reads 9 when
   * the move starts the game and 10 when it ends it, so the game lasted one
   * second.
   */
  method MineLoses() returns (g: Game)
    ensures g.status == Defeat
    ensures g.closed == {Cell(0, 0), Cell(0, 1)}
    ensures CellSymbol(g, Cell(0, 0)) == '*' && CellSymbol(g, Cell(0, 1)) == '-'
    ensures forall t :: GetGameTime(g, t) == 1
  {
    var made := NewMinesweeperCells(1, 2, [Cell(0, 0)]);
    assert made.Ok?;
    var start := made.value;
    assert start.mines == {Cell(0, 0)};
    var outcome := OpenCell(start, Cell(0, 0), 9, 10);
    g := outcome.value;
    forall c | c in BoardCells(1, 2) ensures c == Cell(0, 0) || c == Cell(0, 1) {
    }
    assert Cell(0, 0) in BoardCells(1, 2) && Cell(0, 1) in BoardCells(1, 2);
    assert g.closed == {Cell(0, 0), Cell(0, 1)};
  }
}
