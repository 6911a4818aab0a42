/** The text snapshot of the board (Minesweeper.cpp:229-248). */
module Render {
  import opened Types
  import opened Queries

  /** The decimal digit for `n`; `std::to_string` of a number below ten. */
  function DigitChar(n: nat): (ch: char)
    requires n <= 9
    ensures '0' <= ch <= '9'
    ensures ch as int - '0' as int == n
  {
    ('0' as int + n) as char
  }

  /**
   * The symbol of one cell: a mine shows as `*` only after a defeat; a mark
   * `?` comes next, then a closed cell `-`; an open cell shows its 3x3 mine
   * count, or `.` when that count is zero.
   */
  function CellSymbol(g: Game, c: Cell): (ch: char)
    ensures ch == '*' <==> c in g.mines && g.status == Defeat
    ensures ch == '?' <==> c in g.marked && !(c in g.mines && g.status == Defeat)
    ensures ch == '-' <==> c in g.closed && c !in g.marked && !(c in g.mines && g.status == Defeat)
    ensures ch == '.' <==> && c !in g.closed && c !in g.marked && !(c in g.mines && g.status == Defeat)
                           && CalcMinesNear(g, c) == 0
    ensures '1' <= ch <= '9' <==> && c !in g.closed && c !in g.marked
                                  && !(c in g.mines && g.status == Defeat)
                                  && CalcMinesNear(g, c) != 0
    ensures '1' <= ch <= '9' ==> ch as int - '0' as int == CalcMinesNear(g, c)
  {
    if IsMine(g, c) && g.status == Defeat then '*'
    else if IsMarked(g, c) then '?'
    else if IsClosed(g, c) then '-'
    else
      var mines := CalcMinesNear(g, c);
      if mines != 0 then DigitChar(mines) else '.'
  }

  /** `RenderField`: `height` rows of `width` symbols, top row first. */
  method RenderField(g: Game) returns (rows: seq<seq<char>>)
    ensures |rows| == g.height
    ensures forall y :: 0 <= y < |rows| ==> |rows[y]| == g.width
    ensures forall y, x :: 0 <= y < |rows| && 0 <= x < |rows[y]| ==> rows[y][x] == CellSymbol(g, Cell(x, y))
  {
    rows := [];
    var y := 0;
    while y < g.height
      invariant y <= g.height
      invariant |rows| == y
      invariant forall k :: 0 <= k < y ==> |rows[k]| == g.width
      invariant forall k, x :: 0 <= k < y && 0 <= x < |rows[k]| ==> rows[k][x] == CellSymbol(g, Cell(x, k))
    {
      var row: seq<char> := [];
      var x := 0;
      while x < g.width
        invariant x <= g.width
        invariant |row| == x
        invariant forall i :: 0 <= i < x ==> row[i] == CellSymbol(g, Cell(i, y))
      {
        var cell := Cell(x, y);
        if IsMine(g, cell) && g.status == Defeat {
          row := row + ['*'];
        } else if IsMarked(g, cell) {
          row := row + ['?'];
        } else if IsClosed(g, cell) {
          row := row + ['-'];
        } else {
          var mines := CalcMinesNear(g, cell);
          row := row + [if mines != 0 then DigitChar(mines) else '.'];
        }
        x := x + 1;
      }
      rows := rows + [row];
      y := y + 1;
    }
  }

  /** Before a defeat no symbol gives a mine away: a mine shows as `?` or `-`. */
  lemma MinesHiddenUntilDefeat(g: Game, c: Cell)
    requires Valid(g) && g.status != Defeat
    requires c in g.mines
    ensures CellSymbol(g, c) == (if c in g.marked then '?' else '-')
  {
  }

  /** After a defeat every mine shows as `*`, and nothing else does. */
  lemma DefeatRevealsMines(g: Game, c: Cell)
    requires g.status == Defeat
    ensures CellSymbol(g, c) == '*' <==> c in g.mines
  {
  }

  /**
   * An open, unmarked cell of a consistent game shows the number of mines
   * touching it, as a digit from 1 to 8, or `.` when there are none.
   */
  lemma OpenCellShowsCount(g: Game, c: Cell)
    requires Valid(g)
    requires c in Board(g) && c !in g.closed && c !in g.marked
    ensures |NearMines(g, c)| <= 8
    ensures CellSymbol(g, c) == (if |NearMines(g, c)| == 0 then '.' else DigitChar(|NearMines(g, c)|))
  {
    CalcMinesNearIsCard(g, c);
    assert c !in g.mines;
    CountMinesSkipsSafeCentre(g, c);
  }
}
