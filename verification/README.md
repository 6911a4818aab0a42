# Minesweeper rules engine in Dafny

This project models the `Minesweeper` class: a single-player rules engine. It
owns a rectangular board of `width` by `height` cells. It places mines, either
a random sample of a given count or an explicit list. It tracks which cells are
closed and which are marked. Opening a cell runs a breadth-first flood fill,
which may end in victory or defeat. The engine also reports the elapsed game
time and renders the board as rows of symbols.

The engine's private state is an immutable record `Types.Game`. Its fields are
`width` and `height`, `startTime` and `finishTime`, a `status`, and the three
cell sets `mines`, `marked` and `closed`. A fresh engine is `Types.Initial`.
Each mutating member of the class becomes an operation that returns the next
state:

- `MarkCell` returns a `Result`.
- The constructors return a `Result`, because a throwing constructor leaves no
  object behind.
- `OpenCell` also returns a `Result`. It is a method: its `while` loop runs over
  a `seq<Cell>` queue and terminates on the lexicographic measure
  `|closed|, |queue|`.
- `NewGame` returns the next state together with an optional error.
  `NewGame` commits its reset before it validates, so a refused `NewGame`
  leaves an empty board of the new size. The model reproduces this.

The `const` queries (`GetGameStatus`, `GetGameTime`, `RenderField`) are pure
functions of the state or methods without state, so they cannot change it.

Modules:

- `wrappers.dfy` (`Wrappers`): `Option` and `Result`.
- `types.dfy` (`Types`):
  - the `Cell`, `GameStatus`, `Error` and `Game` types;
  - the board `BoardCells(w, h)` and its size;
  - the state invariant `Valid`: all sets lie on the board, every mine stays
    closed, a won game has only its mines closed, and a game not yet started
    has both timestamps at 0.
- `queries.dfy` (`Queries`): bounds and membership tests, the 3x3 mine count,
  and the game clock.
- `field.dfy` (`Field`): field generation, both constructors, the reset, and
  both `NewGame` forms.
- `play.dfy` (`Play`): start, defeat, the victory check, `MarkCell`, and
  `OpenCell` with its flood fill.
- `render.dfy` (`Render`): the symbol of each cell and the rendered rows.
- `scenarios.dfy` (`Scenarios`): small worked games. Their outcomes are
  derived from the method contracts and function definitions above.

Environment inputs are parameters:

- The wall clock (`std::time(NULL)`) is an argument. `MarkCell` reads it once,
  as `now`. `OpenCell` reads it twice: `now` when the move starts the game,
  and `finishNow` when the move ends it in defeat or victory.
- The shuffle of the random generator in `FillMines` is an index permutation
  `perm` of the column-major candidate list.

Coordinates are `nat`. `Minesweeper.cpp` adds a signed offset to an unsigned
coordinate, so `0 + (-1)` wraps around. The model adds the offset as an `int`
instead. The same bounds test rejects both the wrapped value and the negative
integer (`Queries.OnBoard`).

## Model

| member | source | states |
|---|---|---|
| Types.CellEquals | Minesweeper.cpp:8-10 | Comparing two cells coordinate by coordinate is exactly equality of the cell values. |
| Types.BoardCellsCard | Minesweeper.cpp:136-143 | A board of `w` by `h` has exactly `w * h` cells. |
| Types.ValidMinesBound | Minesweeper.cpp:17-37 | In any state that keeps the invariant, the number of mines is at most `width * height`. |
| Queries.IsCorrectBoundary | Minesweeper.cpp:99-101 | The bounds test holds exactly for the cells of the current board. |
| Queries.CalcMinesNear | Minesweeper.cpp:123-134 | The 3x3 scan, centre included, counts at most nine mines. |
| Queries.OffsetsCover | Minesweeper.cpp:125-127 | Every offset pair in -1..1 by -1..1 is visited by the scan. |
| Queries.CalcMinesNearIsCard | Minesweeper.cpp:123-134 | The scan's count equals the number of on-board mines within distance 1 in both coordinates, the cell itself included. |
| Queries.CalcMinesNearZero | Minesweeper.cpp:123-134 | The count is zero exactly when no on-board mine lies in the 3x3 block. |
| Queries.GetGameTime | Minesweeper.cpp:219-227 | The time is 0 before the game starts, `now - start` while it runs, and `finish - start` once it is over. |
| Queries.GameTimeMonotone | Minesweeper.cpp:219-227 | A running game's time does not decrease as `now` grows; a finished game's time does not depend on `now`. |
| Field.FillClosed | Minesweeper.cpp:136-143 | The row-by-row loops produce exactly the board's cells, `w * h` of them. |
| Field.ColumnMajorCells | Minesweeper.cpp:149-155 | The candidate list holds `w * h` distinct on-board cells. |
| Field.TakeShuffled | Minesweeper.cpp:156-158 | Taking the first `count` shuffled candidates gives `count` distinct cells, all from the list. |
| Field.FillMines | Minesweeper.cpp:145-159 | Random placement yields exactly `count` distinct on-board mines. |
| Field.FieldDefinitionCount | Minesweeper.cpp:17-23 | Setup fails with too-many-mines exactly when `count > w * h`. Otherwise it adds `count` on-board mines to an empty mine set, closes every cell, and changes nothing else. |
| Field.FieldDefinitionCells | Minesweeper.cpp:25-37 | Setup fails when the list is longer than `w * h`, where duplicates count toward the length. It also fails when any listed cell is off the board; the length error is reported first. Otherwise the mines gain exactly the listed cells and every cell is closed. |
| Field.ResetValues | Minesweeper.cpp:62-74 | A reset yields exactly the state of a freshly declared engine (Minesweeper.h:49-56). |
| Field.SetNewBoundary | Minesweeper.cpp:76-79 | Only the dimensions change. |
| Field.NewMinesweeperCount | Minesweeper.cpp:45-48 | The constructor fails exactly on too many mines. On success the board is fresh and has exactly `count` mines, and the invariant holds. |
| Field.NewMinesweeperCells | Minesweeper.cpp:39-43 | The constructor fails on an over-long list or an off-board cell. On success the board is fresh, its mines are exactly the listed cells, and the invariant holds. |
| Field.NewGameCount | Minesweeper.cpp:56-60 | NewGame fails exactly on too many mines and then leaves an empty board of the new size. On success the board is fresh with `count` mines. Either way the invariant holds. |
| Field.NewGameCells | Minesweeper.cpp:50-54 | NewGame fails on an over-long list or an off-board mine, leaving an empty board of the new size. On success the mines are exactly the listed cells. Either way the invariant holds. |
| Play.StartIfNeeded | Minesweeper.cpp:168-170 | The first move, by `MarkCell` here or by `OpenCell` at Minesweeper.cpp:185-187, calls `StartGame` (Minesweeper.cpp:81-84). It moves `NotStarted` to `InProgress` and records `now` as the start; a later move changes nothing. |
| Play.VictoryCheck | Minesweeper.cpp:91-97 | The victory check either leaves the state alone or declares victory at `now`. It always declares victory once only the mines are closed. |
| Play.VictoryCheckExact | Minesweeper.cpp:91-97 | While every mine is closed, the size comparison declares victory exactly when the closed cells are the mines. |
| Play.MarkCell | Minesweeper.cpp:161-176 | An off-board cell is an error. A finished game is unchanged. Otherwise the game is in progress, and only the target's mark flips. Other marks, the closed cells and the mines are untouched. |
| Play.MarkCellKeepsValid | Minesweeper.cpp:161-176 | Marking keeps the invariant and never changes the closed cells or the mines. |
| Play.MarkCellTwice | Minesweeper.cpp:171-175 | Marking the same cell twice restores the original marks. |
| Play.ZeroCountNeighbourIsSafe | Minesweeper.cpp:198-206 | A neighbour of a cell with a zero count is not a mine. |
| Play.ExpandFrom | Minesweeper.cpp:199-210 | Expanding a zero-count cell queues each newly opened cell once. These cells are on-board neighbours other than the cell itself, unmarked and not mines. Afterwards every on-board unmarked neighbour is open. |
| Play.RankedGrow | Minesweeper.cpp:196-210 | Giving the cells opened from a ranked zero-count cell the next rank keeps every opened cell other than the seed next to a zero-count cell of strictly lower rank. |
| Play.SealedRegionStaysClosed | Minesweeper.cpp:192-211 | A region without the seed that no outside zero-count cell touches shares no cell with the opened cells: the fill never reaches it. |
| Play.FloodStep | Minesweeper.cpp:196-210 | One round of the loop opens only closed cells that are neither mines nor marked. It keeps the queue a list of distinct opened cells, keeps every processed zero-count cell expanded, and keeps the rank order. It shrinks the closed set, or else the queue. |
| Play.FloodFill | Minesweeper.cpp:192-211 | The fill opens the seed and only ever opens closed cells; it never opens a mine or a marked cell. Every opened zero-count cell has all its on-board unmarked neighbours open. The returned ranks lead from every opened cell other than the seed, through opened zero-count neighbours of strictly lower rank, back to the seed. |
| Play.OpenCell | Minesweeper.cpp:178-213 | Opening an off-board cell is an error. Opening a finished game, a marked cell or an open cell changes nothing. A first move starts the game at the reading `now`. A mine ends in defeat at the later reading `finishNow` and opens nothing. Any other cell is opened by the fill, with the flood properties above: every opened cell is connected back to the cell opened through zero-count cells, so a sealed region without it stays closed. The game is won exactly when the closed count equals the mine count, which with every mine closed means only the mines are closed; A victory is stamped with `finishNow`. Otherwise the game stays in progress. The invariant is kept. |
| Render.DigitChar | Minesweeper.cpp:243 | A count below ten is written as its one decimal digit. |
| Render.CellSymbol | Minesweeper.cpp:234-244 | The symbol of a cell follows the priority `*` (a mine after defeat), `?` (marked), `-` (closed), then the digit of the count or `.` when it is zero. Each symbol appears exactly in its case. |
| Render.RenderField | Minesweeper.cpp:229-248 | The render has `height` rows of `width` symbols, each being its cell's symbol. |
| Render.MinesHiddenUntilDefeat | Minesweeper.cpp:235-240 | Before a defeat, a mine shows as `?` or `-` and is never revealed. |
| Render.DefeatRevealsMines | Minesweeper.cpp:235-236 | After a defeat, a cell shows `*` exactly when it is a mine. |
| Render.OpenCellShowsCount | Minesweeper.cpp:241-243 | An open unmarked cell shows the number of mines touching it, 1 to 8, or `.` when none does. |
| Scenarios.CornerCascade | Minesweeper.cpp:192-212 | On a 3x3 board with one corner mine, opening the opposite corner opens all eight safe cells and wins. |
| Scenarios.MarkBlocksVictory | Minesweeper.cpp:178-213 | A marked safe cell stays closed and blocks victory; after it is unmarked and opened, the game is won. |
| Scenarios.IsolatedRegionStaysClosed | Minesweeper.cpp:192-212 | On a one-row board of five cells with a mine at (2, 0), opening (0, 0) opens only (0, 0) and (1, 0). The cells (3, 0) and (4, 0) stay closed behind the mine, and the game stays in progress. |
| Scenarios.MineLoses | Minesweeper.cpp:185-191 | Opening a mine loses the game, opens nothing, and the render shows the mine as `*`. With the clock reading 9 at the start and 10 at the defeat, the game lasts one second. |

## Left out

- The wall clock and the Mersenne-Twister shuffle are not modelled. They are the parameters `now`, `finishNow` and `perm`, and `perm` may be any permutation.
- `CellHash`, `reserve` and `rehash` are not modelled. They affect only hashing and memory, not set contents.
- `size_t` overflow of `height * width` is not modelled, and neither is `time_t` overflow in `GetGameTime`. Integers are unbounded here.
- A coordinate of `SIZE_MAX` plus one would wrap to 0. It is not modelled, because that addition only happens for on-board cells, where it cannot occur.
- Building `std::string` rows is not modelled: a row is a `seq<char>`.
- The exception messages are not modelled. The three `std::runtime_error` cases are the three `Error` values.
- `GetGameStatus` and the membership predicates `IsMine`, `IsMarked`, `IsClosed`, `IsOpened` and `IsFinishedGame` are modelled, but carry no contract of their own. They are plain accessors, used by the operations above.
- `StartGame` and `Defeat` (`Play.DefeatAt`) are modelled without contracts of their own. Their effect is stated by `Play.StartIfNeeded` and `Play.OpenCell`.
- The timestamps are not proved to be ordered (`startTime <= finishTime`). The model does not assume the clock readings passed as `now` and `finishNow` are non-decreasing, and the engine does not ensure it either.
- The explicit-mine list is checked by its length, duplicates included, as the code does. Reading the list as a set, which would ignore duplicates, is not modelled.
