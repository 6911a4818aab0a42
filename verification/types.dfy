/** The engine's value types and its state record (Minesweeper.h). */
module Types {

  /** A board position; both coordinates are unsigned. */
  datatype Cell = Cell(x: nat, y: nat)

  /** `Cell::operator==`: component-wise comparison of the coordinate pair. */
  function CellEquals(a: Cell, b: Cell): (r: bool)
    ensures r <==> a == b
  {
    a.x == b.x && a.y == b.y
  }

  /** The four phases of a game; `Victory` and `Defeat` are the finished ones. */
  datatype GameStatus = NotStarted | InProgress | Victory | Defeat

  /** The errors the engine throws (all are `std::runtime_error` in `Minesweeper.cpp`). */
  datatype Error =
    | TooManyMines           // more mines than cells
    | IncorrectMinePosition  // an explicit mine lies off the board
    | OutsideField           // an Open or Mark target lies off the board

  /** The private state of one engine instance. Times are `time_t` seconds. */
  datatype Game = Game(
    width: nat,
    height: nat,
    startTime: int,
    finishTime: int,
    status: GameStatus,
    mines: set<Cell>,
    marked: set<Cell>,
    closed: set<Cell>)

  /** The default member initialisers of a freshly declared engine. */
  const Initial: Game := Game(0, 0, 0, 0, NotStarted, {}, {}, {})

  predicate InBounds(w: nat, h: nat, c: Cell) {
    c.x < w && c.y < h
  }

  /** Every cell of a `w` by `h` board. */
  function BoardCells(w: nat, h: nat): set<Cell> {
    set x: nat, y: nat | x < w && y < h :: Cell(x, y)
  }

  /** The cells of row `y` whose column is below `w`. */
  function RowCells(w: nat, y: nat): set<Cell> {
    set x: nat | x < w :: Cell(x, y)
  }

  lemma {:induction false} RowCellsCard(w: nat, y: nat)
    ensures |RowCells(w, y)| == w
  {
    if w > 0 {
      RowCellsCard(w - 1, y);
      assert RowCells(w, y) == RowCells(w - 1, y) + {Cell(w - 1, y)};
    } else {
      assert RowCells(w, y) == {};
    }
  }

  /** The board of height `h + 1` is the board of height `h` plus row `h`. */
  lemma BoardCellsGrow(w: nat, h: nat)
    ensures BoardCells(w, h + 1) == BoardCells(w, h) + RowCells(w, h)
    ensures BoardCells(w, h) !! RowCells(w, h)
  {
  }

  lemma MulStep(w: nat, h: nat)
    ensures w * (h + 1) == w * h + w
  {
  }

  /** A board has exactly `w * h` cells. */
  lemma {:induction false} BoardCellsCard(w: nat, h: nat)
    ensures |BoardCells(w, h)| == w * h
  {
    if h > 0 {
      BoardCellsCard(w, h - 1);
      RowCellsCard(w, h - 1);
      BoardCellsGrow(w, h - 1);
      MulStep(w, h - 1);
    } else {
      assert BoardCells(w, h) == {};
    }
  }

  /** No element of `s` occurs twice. */
  ghost predicate Distinct<T>(s: seq<T>) {
    forall i, j :: 0 <= i < j < |s| ==> s[i] != s[j]
  }

  /** The board of a game, by its current dimensions. */
  function Board(g: Game): set<Cell> {
    BoardCells(g.width, g.height)
  }

  /**
   * The state invariant every engine operation keeps: all three cell sets lie
   * on the board, every mine is still closed (a mine is never opened), a
   * won game has exactly its mines left closed, and a game that has not
   * started has both timestamps at zero.
   */
  ghost predicate Valid(g: Game) {
    && g.mines <= Board(g)
    && g.marked <= Board(g)
    && g.closed <= Board(g)
    && g.mines <= g.closed
    && (g.status == Victory ==> g.closed == g.mines)
    && (g.status == NotStarted ==> g.startTime == 0 && g.finishTime == 0)
  }

  /** The mine count never exceeds the number of cells. */
  lemma ValidMinesBound(g: Game)
    requires Valid(g)
    ensures |g.mines| <= g.width * g.height
  {
    BoardCellsCard(g.width, g.height);
    SubsetCard(g.mines, Board(g));
  }

  lemma SubsetCard<T>(a: set<T>, b: set<T>)
    requires a <= b
    ensures |a| <= |b|
    ensures |a| == |b| ==> a == b
  {
    assert b == a + (b - a);
    assert |b| == |a| + |b - a|;
    if |a| == |b| {
      assert |b - a| == 0;
      assert b - a == {};
    }
  }
}
