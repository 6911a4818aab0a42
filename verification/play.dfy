/** The player's moves: marking and opening cells (Minesweeper.cpp:81-97, 161-213). */
module Play {
  import opened Wrappers
  import opened Types
  import opened Queries

  /** `StartGame`: the game is under way from the clock reading `now`. */
  function StartGame(g: Game, now: int): Game {
    g.(status := InProgress, startTime := now)
  }

  /** Start the clock if this is the first move of the game. */
  function StartIfNeeded(g: Game, now: int): (r: Game)
    ensures r.status == (if g.status == NotStarted then InProgress else g.status)
    ensures r.startTime == (if g.status == NotStarted then now else g.startTime)
    ensures r.(status := g.status, startTime := g.startTime) == g
  {
    if g.status == NotStarted then StartGame(g, now) else g
  }

  /** `Defeat`: the game is lost at `now`. */
  function DefeatAt(g: Game, now: int): Game {
    g.(status := Defeat, finishTime := now)
  }

  /**
   * `VictoryCheck`: compares only the sizes of the closed set and the mine
   * set; because every mine stays closed, equal sizes mean exactly the mines
   * are left closed.
   */
  function VictoryCheck(g: Game, now: int): (r: Game)
    ensures r == g || r == g.(status := Victory, finishTime := now)
    ensures g.closed == g.mines ==> r == g.(status := Victory, finishTime := now)
  {
    if |g.closed| != |g.mines| then g
    else g.(status := Victory, finishTime := now)
  }

  /**
   * While every mine is still closed, the size comparison of `VictoryCheck`
   * declares victory exactly when nothing but the mines is left closed.
   */
  lemma VictoryCheckExact(g: Game, now: int)
    requires g.mines <= g.closed
    requires g.status != Victory
    ensures VictoryCheck(g, now).status == Victory <==> g.closed == g.mines
  {
    SubsetCard(g.mines, g.closed);
  }

  /**
   * `MarkCell`: an off-board cell is an error, a finished game ignores the
   * move; otherwise the first move starts the clock and the cell's mark is
   * toggled, whether the cell is open or closed.
   */
  function MarkCell(g: Game, c: Cell, now: int): (r: Result<Game, Error>)
    ensures r.Err? <==> c !in Board(g)
    ensures r.Err? ==> r.error == OutsideField
    ensures r.Ok? && IsFinishedGame(g) ==> r.value == g
    ensures r.Ok? && !IsFinishedGame(g) ==>
              && r.value.status == InProgress
              && r.value.startTime == (if g.status == NotStarted then now else g.startTime)
              && (c in r.value.marked <==> c !in g.marked)
              && (forall d :: d != c ==> (d in r.value.marked <==> d in g.marked))
              && r.value.(marked := g.marked, status := g.status, startTime := g.startTime) == g
  {
    if !IsCorrectBoundary(g, c) then Err(OutsideField)
    else if IsFinishedGame(g) then Ok(g)
    else
      var started := StartIfNeeded(g, now);
      if IsMarked(started, c) then Ok(started.(marked := started.marked - {c}))
      else Ok(started.(marked := started.marked + {c}))
  }

  /** Marking never opens or closes a cell, and it keeps the state invariant. */
  lemma MarkCellKeepsValid(g: Game, c: Cell, now: int)
    requires Valid(g)
    ensures MarkCell(g, c, now).Ok? ==> && Valid(MarkCell(g, c, now).value)
                                        && MarkCell(g, c, now).value.closed == g.closed
                                        && MarkCell(g, c, now).value.mines == g.mines
  {
  }

  /** Marking the same cell twice restores the marks. */
  lemma MarkCellTwice(g: Game, c: Cell, t1: int, t2: int)
    requires MarkCell(g, c, t1).Ok?
    ensures MarkCell(MarkCell(g, c, t1).value, c, t2).Ok?
    ensures MarkCell(MarkCell(g, c, t1).value, c, t2).value.marked == g.marked
  {
  }

  /** `OpenCell` acts only on an unfinished game and an unmarked, closed cell. */
  predicate Acts(g: Game, c: Cell) {
    !IsFinishedGame(g) && !IsMarked(g, c) && !IsOpened(g, c)
  }

  /**
   * Once `c` has been opened with no mine in its block, each of its on-board
   * unmarked neighbours is open too.
   */
  ghost predicate Expanded(g: Game, closed: set<Cell>, c: Cell) {
    forall n :: InBounds(g.width, g.height, n) && Adjacent(n, c) && n !in g.marked ==> n !in closed
  }

  /**
   * `rank` orders the opened cells `S` by the round of the fill that opened
   * them: every opened cell other than the seed touches an opened cell of a
   * strictly lower rank whose block holds no mine. Following lower ranks
   * from any opened cell therefore leads back to the seed through cells
   * with a zero count.
   */
  ghost predicate Ranked(g: Game, seed: Cell, S: set<Cell>, rank: map<Cell, nat>) {
    && rank.Keys == S
    && seed in S
    && forall c :: c in S && c != seed ==> HasLowerSource(g, rank, c)
  }

  /** `c` touches a ranked cell of lower rank whose block holds no mine. */
  ghost predicate HasLowerSource(g: Game, rank: map<Cell, nat>, c: Cell)
    requires c in rank
  {
    exists p :: p in rank && rank[p] < rank[c] && CalcMinesNear(g, p) == 0 && Adjacent(c, p)
  }

  /** The opened cells `S` all lead back to `seed` through zero-count cells. */
  ghost predicate ConnectedToSeed(g: Game, seed: Cell, S: set<Cell>) {
    exists rank :: Ranked(g, seed, S, rank)
  }

  /** The ranks after the cells `N` are opened from `current`. */
  ghost function NextRanks(rank: map<Cell, nat>, current: Cell, N: set<Cell>): map<Cell, nat>
    requires current in rank
  {
    rank + map n | n in N :: rank[current] + 1
  }

  /** Cells opened from a ranked zero-count cell get the next rank. */
  lemma RankedGrow(g: Game, seed: Cell, S: set<Cell>, rank: map<Cell, nat>, current: Cell, N: set<Cell>)
    requires Ranked(g, seed, S, rank)
    requires current in S && CalcMinesNear(g, current) == 0
    requires S !! N
    requires forall n :: n in N ==> Adjacent(n, current)
    ensures Ranked(g, seed, S + N, NextRanks(rank, current, N))
  {
    var next := NextRanks(rank, current, N);
    assert next.Keys == S + N;
    forall c | c in S + N && c != seed ensures HasLowerSource(g, next, c) {
      if c in N {
        assert current in next && next[current] < next[c];
      } else {
        assert HasLowerSource(g, rank, c);
        var p :| p in rank && rank[p] < rank[c] && CalcMinesNear(g, p) == 0 && Adjacent(c, p);
        assert p in next && next[p] == rank[p] && next[c] == rank[c];
      }
    }
  }

  /**
   * No cell on the board outside `R` with a zero count touches `R`: the
   * fill cannot spread into `R` from outside.
   */
  ghost predicate Sealed(g: Game, R: set<Cell>) {
    forall c, p :: c in R && Adjacent(c, p) && InBounds(g.width, g.height, p) && CalcMinesNear(g, p) == 0
      ==> p in R
  }

  /**
   * A sealed region that does not hold the seed stays entirely closed: the
   * fill opens only cells connected to the seed through zero-count cells.
   */
  lemma SealedRegionStaysClosed(g: Game, seed: Cell, S: set<Cell>, R: set<Cell>)
    requires ConnectedToSeed(g, seed, S)
    requires S <= Board(g)
    requires seed !in R && Sealed(g, R)
    ensures R !! S
  {
    var rank :| Ranked(g, seed, S, rank);
    forall c | c in R && c in S ensures false {
      RankAtLeast(g, seed, S, rank, R, rank[c] + 1);
    }
  }

  lemma {:induction false} RankAtLeast(g: Game, seed: Cell, S: set<Cell>, rank: map<Cell, nat>, R: set<Cell>, k: nat)
    requires Ranked(g, seed, S, rank)
    requires S <= Board(g)
    requires seed !in R && Sealed(g, R)
    ensures forall c :: c in R && c in S ==> rank[c] >= k
  {
    if k > 0 {
      RankAtLeast(g, seed, S, rank, R, k - 1);
      forall c | c in R && c in S ensures rank[c] >= k {
        assert HasLowerSource(g, rank, c);
        var p :| p in rank && rank[p] < rank[c] && CalcMinesNear(g, p) == 0 && Adjacent(c, p);
        assert p in Board(g);
        assert p in R;
      }
    }
  }

  lemma ExpandedShrinks(g: Game, before: set<Cell>, after: set<Cell>, c: Cell)
    requires after <= before && Expanded(g, before, c)
    ensures Expanded(g, after, c)
  {
  }

  /**
   * Every opened cell that has left the queue and has a zero count has all
   * its on-board unmarked neighbours open.
   */
  ghost predicate ProcessedExpanded(g: Game, closed: set<Cell>, queue: seq<Cell>) {
    forall c :: c in g.closed - closed && c !in queue && CalcMinesNear(g, c) == 0 ==> Expanded(g, closed, c)
  }

  /** Popping `current` and expanding it keeps `ProcessedExpanded`. */
  lemma ProcessedExpandedStep(g: Game, closed: set<Cell>, closed': set<Cell>,
                              queue: seq<Cell>, queue': seq<Cell>)
    requires queue != [] && closed' <= closed
    requires ProcessedExpanded(g, closed, queue)
    requires CalcMinesNear(g, queue[0]) == 0 ==> Expanded(g, closed', queue[0])
    requires forall c :: c in queue[1..] ==> c in queue'
    requires forall c :: c in closed - closed' ==> c in queue'
    ensures ProcessedExpanded(g, closed', queue')
  {
    forall c | c in g.closed - closed' && c !in queue' && CalcMinesNear(g, c) == 0
      ensures Expanded(g, closed', c)
    {
      if c != queue[0] {
        assert c !in queue by {
          assert forall k :: 1 <= k < |queue| ==> queue[k] in queue[1..];
        }
        ExpandedShrinks(g, closed, closed', c);
      }
    }
  }

  /** No mine lies next to a cell whose block count is zero. */
  lemma ZeroCountNeighbourIsSafe(g: Game, c: Cell, n: Cell)
    requires CalcMinesNear(g, c) == 0
    requires InBounds(g.width, g.height, n) && Adjacent(n, c)
    ensures n !in g.mines
  {
    CalcMinesNearZero(g, c);
  }

  /**
   * The inner 3x3 loop of the flood fill, for an opened cell `current` with
   * no mine in its block: every on-board neighbour that is still closed and
   * not marked is opened and queued, in scan order. The cells it opens are
   * neighbours other than `current` itself, which is already open.
   */
  method ExpandFrom(g: Game, current: Cell, closed: set<Cell>) returns (pushed: seq<Cell>, rest: set<Cell>)
    requires CalcMinesNear(g, current) == 0
    requires current !in closed
    ensures rest <= closed
    ensures |pushed| == |closed| - |rest|
    ensures forall c :: c in pushed <==> c in closed - rest
    ensures Distinct(pushed)
    ensures forall c :: c in closed - rest ==>
              && c != current && InBounds(g.width, g.height, c) && Adjacent(c, current)
              && c !in g.marked && c !in g.mines
    ensures Expanded(g, rest, current)
  {
    pushed := [];
    rest := closed;
    var i := -1;
    while i <= 1
      invariant -1 <= i <= 2
      invariant rest <= closed
      invariant |pushed| == |closed| - |rest|
      invariant forall c :: c in pushed <==> c in closed - rest
      invariant Distinct(pushed)
      invariant forall c :: c in closed - rest ==>
                  InBounds(g.width, g.height, c) && Adjacent(c, current) && c !in g.marked && c !in g.mines
      invariant forall n :: (InBounds(g.width, g.height, n) && n !in g.marked
                               && -1 <= n.x - current.x < i && -1 <= n.y - current.y <= 1)
                              ==> n !in rest
    {
      var j := -1;
      while j <= 1
        invariant -1 <= j <= 2
        invariant rest <= closed
        invariant |pushed| == |closed| - |rest|
        invariant forall c :: c in pushed <==> c in closed - rest
        invariant Distinct(pushed)
        invariant forall c :: c in closed - rest ==>
                    InBounds(g.width, g.height, c) && Adjacent(c, current) && c !in g.marked && c !in g.mines
        invariant forall n :: (InBounds(g.width, g.height, n) && n !in g.marked
                                 && ((-1 <= n.x - current.x < i && -1 <= n.y - current.y <= 1)
                                     || (n.x - current.x == i && -1 <= n.y - current.y < j)))
                                ==> n !in rest
      {
        if OnBoard(g, current.x + i, current.y + j) {
          var neighbour := Cell(current.x + i, current.y + j);
          if neighbour in rest && !IsMarked(g, neighbour) {
            ZeroCountNeighbourIsSafe(g, current, neighbour);
            pushed := pushed + [neighbour];
            rest := rest - {neighbour};
          }
        }
        j := j + 1;
      }
      i := i + 1;
    }
  }

  /** The queue holds distinct opened cells. */
  ghost predicate QueueOpened(g: Game, closed: set<Cell>, queue: seq<Cell>) {
    && (forall k :: 0 <= k < |queue| ==> queue[k] in g.closed - closed)
    && Distinct(queue)
  }

  /** Popping the front and appending the cells just opened keeps `QueueOpened`. */
  lemma QueueOpenedStep(g: Game, closed: set<Cell>, closed': set<Cell>, queue: seq<Cell>, pushed: seq<Cell>)
    requires queue != [] && closed <= g.closed && closed' <= closed
    requires QueueOpened(g, closed, queue)
    requires forall c :: c in pushed <==> c in closed - closed'
    requires Distinct(pushed)
    ensures QueueOpened(g, closed', queue[1..] + pushed)
  {
    var queue' := queue[1..] + pushed;
    forall k | 0 <= k < |queue'| ensures queue'[k] in g.closed - closed' {
      if k < |queue| - 1 {
        assert queue'[k] == queue[k + 1] && queue[k + 1] in g.closed - closed;
      } else {
        assert queue'[k] == pushed[k - (|queue| - 1)] && queue'[k] in pushed;
      }
    }
    forall i, j | 0 <= i < j < |queue'| ensures queue'[i] != queue'[j] {
      if j < |queue| - 1 {
        assert queue'[i] == queue[i + 1] && queue'[j] == queue[j + 1];
      } else if i >= |queue| - 1 {
        assert queue'[i] == pushed[i - (|queue| - 1)] && queue'[j] == pushed[j - (|queue| - 1)];
      } else {
        assert queue'[i] == queue[i + 1] && queue[i + 1] !in closed;
        assert queue'[j] in pushed;
      }
    }
  }

  /**
   * One round of the breadth-first loop of `OpenCell`: pop the front of the
   * queue and, when its block holds no mine, open and queue its closed,
   * unmarked neighbours. The clauses below are the loop's invariant; the last
   * one is its lexicographic termination measure `|closed|, |queue|`.
   */
  method FloodStep(g: Game, cell: Cell, closed: set<Cell>, queue: seq<Cell>, ghost rank: map<Cell, nat>)
    returns (closed': set<Cell>, queue': seq<Cell>, ghost rank': map<Cell, nat>)
    requires queue != []
    requires closed <= g.closed
    requires QueueOpened(g, closed, queue)
    requires ProcessedExpanded(g, closed, queue)
    requires Ranked(g, cell, g.closed - closed, rank)
    ensures closed' <= closed
    ensures forall c :: c in closed - closed' ==> c !in g.mines && c !in g.marked
    ensures QueueOpened(g, closed', queue')
    ensures ProcessedExpanded(g, closed', queue')
    ensures Ranked(g, cell, g.closed - closed', rank')
    ensures |closed'| < |closed| || (closed' == closed && |queue'| < |queue|)
  {
    var current := queue[0];
    var pushed := [];
    closed' := closed;
    rank' := rank;
    if CalcMinesNear(g, current) == 0 {
      pushed, closed' := ExpandFrom(g, current, closed);
      RankedGrow(g, cell, g.closed - closed, rank, current, closed - closed');
      assert (g.closed - closed) + (closed - closed') == g.closed - closed';
      rank' := NextRanks(rank, current, closed - closed');
    }
    queue' := queue[1..] + pushed;
    QueueOpenedStep(g, closed, closed', queue, pushed);
    ProcessedExpandedStep(g, closed, closed', queue, queue');
    SubsetCard(closed', closed);
  }

  /**
   * The breadth-first loop of `OpenCell`, started from a closed, unmarked,
   * safe cell: returns the closed set once the queue is empty, and the
   * round in which each opened cell was opened.
   */
  method FloodFill(g: Game, cell: Cell) returns (closed: set<Cell>, ghost rank: map<Cell, nat>)
    requires cell in g.closed && cell !in g.marked && cell !in g.mines
    ensures closed <= g.closed && cell !in closed
    ensures g.closed * g.mines <= closed
    ensures g.closed * g.marked <= closed
    ensures forall c :: c in g.closed - closed && CalcMinesNear(g, c) == 0 ==> Expanded(g, closed, c)
    ensures Ranked(g, cell, g.closed - closed, rank)
  {
    closed := g.closed - {cell};
    rank := map[cell := 0];
    var queue := [cell];
    while queue != []
      invariant closed <= g.closed && cell !in closed
      invariant g.closed * g.mines <= closed
      invariant g.closed * g.marked <= closed
      invariant QueueOpened(g, closed, queue)
      invariant ProcessedExpanded(g, closed, queue)
      invariant Ranked(g, cell, g.closed - closed, rank)
      decreases |closed|, |queue|
    {
      closed, queue, rank := FloodStep(g, cell, closed, queue, rank);
    }
  }

  /**
   * `OpenCell`: an off-board cell is an error; a finished game, a marked
   * cell or an open cell leaves the state as it is. Otherwise the first move
   * starts the clock, a mine loses the game, and any other cell is opened by
   * a breadth-first flood fill that spreads from every opened cell with no
   * mine in its 3x3 block, followed by the victory check.
   *
   * The engine reads the clock twice: `now` is the reading taken when the
   * first move starts the game, and `finishNow` the later reading taken when
   * the move ends it in defeat or victory.
   */
  method OpenCell(g: Game, cell: Cell, now: int, finishNow: int) returns (r: Result<Game, Error>)
    ensures r.Err? <==> cell !in Board(g)
    ensures r.Err? ==> r.error == OutsideField
    ensures r.Ok? && !Acts(g, cell) ==> r.value == g
    ensures r.Ok? && Acts(g, cell) ==>
              && r.value.startTime == (if g.status == NotStarted then now else g.startTime)
              && r.value.width == g.width && r.value.height == g.height
              && r.value.mines == g.mines && r.value.marked == g.marked
    ensures r.Ok? && Acts(g, cell) && cell in g.mines ==>
              && r.value.status == Defeat && r.value.finishTime == finishNow
              && r.value.closed == g.closed
    ensures r.Ok? && Acts(g, cell) && cell !in g.mines ==>
              && r.value.closed <= g.closed
              && cell !in r.value.closed
              && g.closed * g.mines <= r.value.closed
              && g.closed * g.marked <= r.value.closed
              && (forall c :: c in g.closed - r.value.closed && CalcMinesNear(g, c) == 0 ==>
                    Expanded(g, r.value.closed, c))
              && ConnectedToSeed(g, cell, g.closed - r.value.closed)
              && (r.value.status == Victory <==> |r.value.closed| == |g.mines|)
              && (r.value.status != Victory ==> r.value.status == InProgress)
              && (r.value.status == Victory ==> r.value.finishTime == finishNow)
              && (r.value.status != Victory ==> r.value.finishTime == g.finishTime)
    ensures r.Ok? && Acts(g, cell) && cell !in g.mines && g.mines <= g.closed ==>
              (r.value.status == Victory <==> r.value.closed == g.mines)
    ensures r.Ok? && Valid(g) ==> Valid(r.value)
  {
    if !IsCorrectBoundary(g, cell) {
      return Err(OutsideField);
    }
    if IsFinishedGame(g) || IsMarked(g, cell) || IsOpened(g, cell) {
      return Ok(g);
    }
    var started := StartIfNeeded(g, now);
    if IsMine(started, cell) {
      return Ok(DefeatAt(started, finishNow));
    }
    var closed;
    ghost var rank;
    closed, rank := FloodFill(g, cell);
    var filled := started.(closed := closed);
    if g.mines <= g.closed {
      VictoryCheckExact(filled, finishNow);
    }
    return Ok(VictoryCheck(filled, finishNow));
  }
}
