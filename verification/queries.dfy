/** The engine's read-only queries (Minesweeper.cpp:99-134, 215-227). */
module Queries {
  import opened Types

  /** `IsCorrectBoundary`: the cell lies on the current board. */
  function IsCorrectBoundary(g: Game, c: Cell): (r: bool)
    ensures r <==> c in Board(g)
  {
    InBounds(g.width, g.height, c)
  }

  predicate IsMine(g: Game, c: Cell) { c in g.mines }

  predicate IsMarked(g: Game, c: Cell) { c in g.marked }

  predicate IsClosed(g: Game, c: Cell) { c in g.closed }

  predicate IsOpened(g: Game, c: Cell) { !IsClosed(g, c) }

  predicate IsFinishedGame(g: Game) {
    g.status == Victory || g.status == Defeat
  }

  /**
   * The offsets `CalcMinesNear` scans around a cell, in its loop order (`i` outer,
   * `j` inner, each from -1 to 1). The centre offset (0, 0) is included.
   */
  const Offsets: seq<(int, int)> :=
    [(-1, -1), (-1, 0), (-1, 1), (0, -1), (0, 0), (0, 1), (1, -1), (1, 0), (1, 1)]

  /**
   * Whether the integer position `(px, py)` lies on the board. `Minesweeper.cpp` adds
   * a signed offset to an unsigned coordinate; the wrapped value for -1 is
   * rejected by the same bounds test that rejects a negative integer here.
   */
  predicate OnBoard(g: Game, px: int, py: int) {
    0 <= px < g.width && 0 <= py < g.height
  }

  /** Whether `(px, py)` is a position on the board that holds a mine. */
  predicate MineAt(g: Game, px: int, py: int) {
    OnBoard(g, px, py) && Cell(px, py) in g.mines
  }

  /** Whether `a` lies in the 3x3 block centred on `b` (`a == b` included). */
  predicate Adjacent(a: Cell, b: Cell) {
    -1 <= a.x - b.x <= 1 && -1 <= a.y - b.y <= 1
  }

  /** The mines on the board inside the 3x3 block centred on `c`. */
  function NearMines(g: Game, c: Cell): set<Cell> {
    set m | m in g.mines && InBounds(g.width, g.height, m) && Adjacent(m, c)
  }

  /** How many of the offsets `ds`, applied to `c`, land on a mine. */
  function CountMines(g: Game, c: Cell, ds: seq<(int, int)>): (n: nat)
    ensures n <= |ds|
  {
    if ds == [] then 0
    else
      (if MineAt(g, c.x + ds[0].0, c.y + ds[0].1) then 1 else 0)
      + CountMines(g, c, ds[1..])
  }

  /** `CalcMinesNear`: the literal 3x3 scan, clipped to the board. */
  function CalcMinesNear(g: Game, c: Cell): (n: nat)
    ensures n <= 9
  {
    CountMines(g, c, Offsets)
  }

  /** The mines the offsets `ds`, applied to `c`, land on. */
  function ReachedMines(g: Game, c: Cell, ds: seq<(int, int)>): set<Cell> {
    if ds == [] then {}
    else
      (if MineAt(g, c.x + ds[0].0, c.y + ds[0].1)
       then {Cell(c.x + ds[0].0, c.y + ds[0].1)} else {})
      + ReachedMines(g, c, ds[1..])
  }

  lemma {:induction false} ReachedMinesMember(g: Game, c: Cell, ds: seq<(int, int)>, m: Cell)
    ensures m in ReachedMines(g, c, ds) <==>
            m in g.mines && InBounds(g.width, g.height, m) && (m.x - c.x, m.y - c.y) in ds
    decreases |ds|
  {
    if ds != [] {
      ReachedMinesMember(g, c, ds[1..], m);
      assert forall e :: e in ds <==> e == ds[0] || e in ds[1..];
    }
  }

  lemma {:induction false} CountMinesIsCard(g: Game, c: Cell, ds: seq<(int, int)>)
    requires Distinct(ds)
    ensures CountMines(g, c, ds) == |ReachedMines(g, c, ds)|
    decreases |ds|
  {
    if ds != [] {
      var d := ds[0];
      var rest := ds[1..];
      assert Distinct(rest) by {
        forall i, j | 0 <= i < j < |rest| ensures rest[i] != rest[j] {
          assert rest[i] == ds[i + 1] && rest[j] == ds[j + 1];
        }
      }
      CountMinesIsCard(g, c, rest);
      if MineAt(g, c.x + d.0, c.y + d.1) {
        var m := Cell(c.x + d.0, c.y + d.1);
        assert d !in rest by {
          forall k | 0 <= k < |rest| ensures rest[k] != d {
            assert rest[k] == ds[k + 1];
          }
        }
        ReachedMinesMember(g, c, rest, m);
        assert m !in ReachedMines(g, c, rest);
      }
    }
  }

  /** The centre of the scan is offset (0, 0), the fifth entry of `Offsets`. */
  lemma CountMinesSkipsSafeCentre(g: Game, c: Cell)
    requires c !in g.mines
    ensures CalcMinesNear(g, c) <= 8
  {
    var ds := Offsets;
    assert ds[4] == (0, 0);
    assert CountMines(g, c, ds) == CountMines(g, c, ds[..4]) + CountMines(g, c, ds[4..]) by {
      CountMinesSplit(g, c, ds, 4);
    }
    assert CountMines(g, c, ds[4..]) == CountMines(g, c, ds[5..]) by {
      assert ds[4..][1..] == ds[5..];
    }
  }

  lemma {:induction false} CountMinesSplit(g: Game, c: Cell, ds: seq<(int, int)>, k: nat)
    requires k <= |ds|
    ensures CountMines(g, c, ds) == CountMines(g, c, ds[..k]) + CountMines(g, c, ds[k..])
    decreases k
  {
    if k > 0 {
      CountMinesSplit(g, c, ds[1..], k - 1);
      assert ds[..k][1..] == ds[1..][..k - 1];
      assert ds[1..][k - 1..] == ds[k..];
    }
  }

  /** Every offset in -1..1 x -1..1 appears in `Offsets`. */
  lemma OffsetsCover(dx: int, dy: int)
    requires -1 <= dx <= 1 && -1 <= dy <= 1
    ensures (dx, dy) in Offsets
  {
    if dx == -1 {
      assert Offsets[dy + 1] == (dx, dy);
    } else if dx == 0 {
      assert Offsets[dy + 4] == (dx, dy);
    } else {
      assert Offsets[dy + 7] == (dx, dy);
    }
  }

  /** `Offsets` lists nine different offsets: exactly the pairs in -1..1 x -1..1. */
  lemma OffsetsShape()
    ensures Distinct(Offsets)
    ensures forall d :: d in Offsets ==> -1 <= d.0 <= 1 && -1 <= d.1 <= 1
    ensures forall dx, dy :: -1 <= dx <= 1 && -1 <= dy <= 1 ==> (dx, dy) in Offsets
  {
    forall dx, dy | -1 <= dx <= 1 && -1 <= dy <= 1 ensures (dx, dy) in Offsets {
      OffsetsCover(dx, dy);
    }
  }

  /** Offsets that span exactly the 3x3 block reach exactly the block's mines. */
  lemma ReachedIsNear(g: Game, c: Cell, ds: seq<(int, int)>)
    requires forall d :: d in ds ==> -1 <= d.0 <= 1 && -1 <= d.1 <= 1
    requires forall dx, dy :: -1 <= dx <= 1 && -1 <= dy <= 1 ==> (dx, dy) in ds
    ensures ReachedMines(g, c, ds) == NearMines(g, c)
  {
    forall m ensures m in ReachedMines(g, c, ds) <==> m in NearMines(g, c) {
      ReachedMinesMember(g, c, ds, m);
    }
  }

  /** A scan over distinct offsets spanning the 3x3 block counts the block's mines. */
  lemma CountMinesIsNear(g: Game, c: Cell, ds: seq<(int, int)>)
    requires Distinct(ds)
    requires forall d :: d in ds ==> -1 <= d.0 <= 1 && -1 <= d.1 <= 1
    requires forall dx, dy :: -1 <= dx <= 1 && -1 <= dy <= 1 ==> (dx, dy) in ds
    ensures CountMines(g, c, ds) == |NearMines(g, c)|
  {
    CountMinesIsCard(g, c, ds);
    ReachedIsNear(g, c, ds);
  }

  /**
   * The literal scan counts exactly the on-board mines in the 3x3 block
   * centred on the cell, the centre included.
   */
  lemma CalcMinesNearIsCard(g: Game, c: Cell)
    ensures CalcMinesNear(g, c) == |NearMines(g, c)|
  {
    OffsetsShape();
    CountMinesIsNear(g, c, Offsets);
  }

  /** A zero count means no on-board mine lies in the block. */
  lemma CalcMinesNearZero(g: Game, c: Cell)
    ensures CalcMinesNear(g, c) == 0 <==>
            forall m :: m in g.mines && InBounds(g.width, g.height, m) ==> !Adjacent(m, c)
  {
    CalcMinesNearIsCard(g, c);
    if CalcMinesNear(g, c) != 0 {
      var m :| m in NearMines(g, c);
      assert m in g.mines && InBounds(g.width, g.height, m) && Adjacent(m, c);
    } else {
      assert NearMines(g, c) == {};
      forall m | m in g.mines && InBounds(g.width, g.height, m) ensures !Adjacent(m, c) {
        assert m !in NearMines(g, c);
      }
    }
  }

  /** `GetGameStatus`. */
  function GetGameStatus(g: Game): GameStatus {
    g.status
  }

  /**
   * `GetGameTime`, with the clock reading passed in as `now`: no time before
   * the game starts, the running time while it is played, and the final
   * duration once it is over.
   */
  function GetGameTime(g: Game, now: int): (t: int)
    ensures g.status == NotStarted ==> t == 0
    ensures g.status == InProgress ==> t == now - g.startTime
    ensures IsFinishedGame(g) ==> t == g.finishTime - g.startTime
  {
    if g.status == NotStarted then 0
    else if g.status == InProgress then now - g.startTime
    else g.finishTime - g.startTime
  }

  /** While a game runs its time does not go backwards; once over it is frozen. */
  lemma GameTimeMonotone(g: Game, t1: int, t2: int)
    requires t1 <= t2
    ensures g.status != Defeat && g.status != Victory ==> GetGameTime(g, t1) <= GetGameTime(g, t2)
    ensures IsFinishedGame(g) ==> GetGameTime(g, t1) == GetGameTime(g, t2)
  {
  }
}
