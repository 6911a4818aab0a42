/** Board generation, construction and reset (Minesweeper.cpp:17-79, 136-159). */
module Field {
  import opened Wrappers
  import opened Types
  import opened Queries

  /** `FillClosed`: every cell of a `w` by `h` board, inserted row by row. */
  method FillClosed(w: nat, h: nat) returns (closed: set<Cell>)
    ensures closed == BoardCells(w, h)
    ensures |closed| == w * h
  {
    closed := {};
    var y := 0;
    while y < h
      invariant y <= h
      invariant forall c :: c in closed <==> c.x < w && c.y < y
      invariant |closed| == y * w
    {
      var x := 0;
      while x < w
        invariant x <= w
        invariant forall c :: c in closed <==> c.x < w && (c.y < y || (c.y == y && c.x < x))
        invariant |closed| == y * w + x
      {
        closed := closed + {Cell(x, y)};
        x := x + 1;
      }
      y := y + 1;
    }
  }

  /** `perm` lists each index below `n` exactly once: the output of a shuffle. */
  ghost predicate IsPermutation(perm: seq<nat>, n: nat) {
    && |perm| == n
    && (forall i :: 0 <= i < n ==> perm[i] < n)
    && Distinct(perm)
  }

  /** The candidate list `FillMines` builds: every cell, column by column. */
  method ColumnMajorCells(w: nat, h: nat) returns (possible: seq<Cell>)
    ensures |possible| == w * h
    ensures Distinct(possible)
    ensures forall c :: c in possible ==> InBounds(w, h, c)
  {
    possible := [];
    var x := 0;
    while x < w
      invariant x <= w
      invariant |possible| == x * h
      invariant forall c :: c in possible ==> c.x < x && c.y < h
      invariant Distinct(possible)
    {
      var y := 0;
      while y < h
        invariant y <= h
        invariant |possible| == x * h + y
        invariant forall c :: c in possible ==> (c.x < x || (c.x == x && c.y < y)) && c.y < h
        invariant Distinct(possible)
      {
        possible := possible + [Cell(x, y)];
        y := y + 1;
      }
      x := x + 1;
    }
  }

  /** Insert the first `count` cells of `possible`, reordered by `perm`, into a set. */
  method TakeShuffled(possible: seq<Cell>, perm: seq<nat>, count: nat) returns (mines: set<Cell>)
    requires Distinct(possible)
    requires IsPermutation(perm, |possible|)
    requires count <= |possible|
    ensures |mines| == count
    ensures forall m :: m in mines ==> m in possible
  {
    mines := {};
    var k := 0;
    while k < count
      invariant k <= count
      invariant mines == set j | 0 <= j < k :: possible[perm[j]]
      invariant |mines| == k
    {
      var c := possible[perm[k]];
      assert c !in mines by {
        forall j | 0 <= j < k ensures possible[perm[j]] != c {
          assert perm[j] != perm[k];
        }
      }
      mines := mines + {c};
      k := k + 1;
    }
  }

  /**
   * `FillMines`: list the board column by column, reorder the list by `perm`
   * (standing in for `std::shuffle` over the engine's random generator) and
   * take its first `count` cells as mines.
   */
  method FillMines(w: nat, h: nat, count: nat, perm: seq<nat>) returns (mines: set<Cell>)
    requires count <= w * h
    requires IsPermutation(perm, w * h)
    ensures |mines| == count
    ensures mines <= BoardCells(w, h)
  {
    if count == 0 {
      return {};
    }
    var possible := ColumnMajorCells(w, h);
    mines := TakeShuffled(possible, perm, count);
  }

  /**
   * `FieldDefinition(mines_count)`: refuse more mines than cells, otherwise
   * add `count` random mines and close every cell.
   */
  method FieldDefinitionCount(g: Game, count: nat, perm: seq<nat>) returns (r: Result<Game, Error>)
    requires IsPermutation(perm, g.width * g.height)
    ensures r.Err? <==> count > g.width * g.height
    ensures r.Err? ==> r.error == TooManyMines
    ensures r.Ok? ==> && r.value.closed == g.closed + Board(g)
                      && g.mines <= r.value.mines
                      && r.value.mines - g.mines <= Board(g)
                      && (g.mines == {} ==> |r.value.mines| == count)
                      && r.value == g.(mines := r.value.mines, closed := r.value.closed)
  {
    if count > g.height * g.width {
      return Err(TooManyMines);
    }
    var placed := FillMines(g.width, g.height, count, perm);
    var closed := FillClosed(g.width, g.height);
    return Ok(g.(mines := g.mines + placed, closed := g.closed + closed));
  }

  /**
   * `FieldDefinition(cells_with_mines)`: refuse a list longer than the board
   * has cells (duplicates count toward the length), then refuse the first
   * off-board cell, otherwise add the listed mines and close every cell.
   */
  method FieldDefinitionCells(g: Game, cells: seq<Cell>) returns (r: Result<Game, Error>)
    ensures r.Err? <==> |cells| > g.width * g.height || exists c :: c in cells && c !in Board(g)
    ensures r.Err? ==> r.error == (if |cells| > g.width * g.height then TooManyMines
                                  else IncorrectMinePosition)
    ensures r.Ok? ==> r.value == g.(mines := g.mines + (set c | c in cells),
                                    closed := g.closed + Board(g))
  {
    if |cells| > g.height * g.width {
      return Err(TooManyMines);
    }
    var i := 0;
    while i < |cells|
      invariant i <= |cells|
      invariant forall k :: 0 <= k < i ==> cells[k] in Board(g)
    {
      if !IsCorrectBoundary(g, cells[i]) {
        return Err(IncorrectMinePosition);
      }
      i := i + 1;
    }
    var mines := g.mines;
    i := 0;
    while i < |cells|
      invariant i <= |cells|
      invariant mines == g.mines + set k | 0 <= k < i :: cells[k]
    {
      mines := mines + {cells[i]};
      i := i + 1;
    }
    assert (set k | 0 <= k < |cells| :: cells[k]) == set c | c in cells;
    var closed := FillClosed(g.width, g.height);
    return Ok(g.(mines := mines, closed := g.closed + closed));
  }

  /** `ResetValues`: forget every field of the previous game. */
  function ResetValues(g: Game): (r: Game)
    ensures r == Initial
  {
    g.(width := 0, height := 0, startTime := 0, finishTime := 0,
       status := NotStarted, marked := {}, closed := {}, mines := {})
  }

  /** `SetNewBoundary`: replace the dimensions and nothing else. */
  function SetNewBoundary(g: Game, w: nat, h: nat): (r: Game)
    ensures r.width == w && r.height == h
    ensures r.(width := g.width, height := g.height) == g
  {
    g.(width := w, height := h)
  }

  /** A freshly generated board: all cells closed, nothing marked, not started. */
  ghost predicate IsFreshBoard(g: Game, w: nat, h: nat) {
    && g.width == w && g.height == h
    && g.status == NotStarted && g.startTime == 0 && g.finishTime == 0
    && g.marked == {} && g.closed == BoardCells(w, h)
  }

  /** The constructor from a mine count (Minesweeper.cpp:45-48). */
  method NewMinesweeperCount(w: nat, h: nat, count: nat, perm: seq<nat>) returns (r: Result<Game, Error>)
    requires IsPermutation(perm, w * h)
    ensures r.Err? <==> count > w * h
    ensures r.Err? ==> r.error == TooManyMines
    ensures r.Ok? ==> && IsFreshBoard(r.value, w, h)
                      && |r.value.mines| == count
                      && Valid(r.value)
  {
    r := FieldDefinitionCount(Initial.(width := w, height := h), count, perm);
  }

  /**
   * The constructor from explicit mine cells (Minesweeper.cpp:39-43). The
   * mine set is seeded from the list before the list is validated; on
   * success the mines are exactly the listed cells.
   */
  method NewMinesweeperCells(w: nat, h: nat, cells: seq<Cell>) returns (r: Result<Game, Error>)
    ensures r.Err? <==> |cells| > w * h || exists c :: c in cells && !InBounds(w, h, c)
    ensures r.Err? ==> r.error == (if |cells| > w * h then TooManyMines else IncorrectMinePosition)
    ensures r.Ok? ==> && IsFreshBoard(r.value, w, h)
                      && r.value.mines == (set c | c in cells)
                      && Valid(r.value)
  {
    var seeded := Initial.(width := w, height := h, mines := set c | c in cells);
    r := FieldDefinitionCells(seeded, cells);
  }

  /**
   * `NewGame(width, height, mines_count)`: reset, take the new dimensions,
   * then generate. The reset is committed before validation, so a refused
   * mine count leaves an empty board of the new size.
   */
  method NewGameCount(g: Game, w: nat, h: nat, count: nat, perm: seq<nat>)
    returns (next: Game, failure: Option<Error>)
    requires IsPermutation(perm, w * h)
    ensures failure.Some? <==> count > w * h
    ensures failure.Some? ==> failure.value == TooManyMines && next == Initial.(width := w, height := h)
    ensures failure.None? ==> IsFreshBoard(next, w, h) && |next.mines| == count
    ensures Valid(next)
  {
    next := SetNewBoundary(ResetValues(g), w, h);
    var r := FieldDefinitionCount(next, count, perm);
    if r.Err? {
      return next, Some(r.error);
    }
    return r.value, None;
  }

  /**
   * `NewGame(width, height, cells_with_mines)`: reset, take the new
   * dimensions, then validate and place the listed mines. A refused list
   * leaves an empty board of the new size.
   */
  method NewGameCells(g: Game, w: nat, h: nat, cells: seq<Cell>)
    returns (next: Game, failure: Option<Error>)
    ensures failure.Some? <==> |cells| > w * h || exists c :: c in cells && !InBounds(w, h, c)
    ensures failure.Some? ==> next == Initial.(width := w, height := h)
    ensures failure.Some? ==> failure.value == (if |cells| > w * h then TooManyMines
                                                else IncorrectMinePosition)
    ensures failure.None? ==> IsFreshBoard(next, w, h) && next.mines == (set c | c in cells)
    ensures Valid(next)
  {
    next := SetNewBoundary(ResetValues(g), w, h);
    var r := FieldDefinitionCells(next, cells);
    if r.Err? {
      return next, Some(r.error);
    }
    return r.value, None;
  }
}
