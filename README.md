# HexWorld hex-grid engine in Dafny

This project models the geometric core of HexWorld, a generator of hexagonal terrain maps, and the two generation passes built on it:

- **`Hex`** (`Hexes.dfy`): an offset coordinate `(column, row)`. It provides the lookup key `column * 32768 + row`, component-wise `+` and `-`, and the top, bottom, left, right and corner border tests.
- **`Tile`** (`Tiles.dfy`): the terrain of a cell. `ChangeTile` is its only mutator. It stores the type first, then derives the water flag and the glyph, and throws `ArgumentException` for any type other than Ocean and Desert.
- **`Grid`** (`Grids.dfy`): the cell table.
  - The rows are staggered by the `RowBorders` formula.
  - Lookup by key; random cell selection over half-open ranges.
  - Six-direction neighbours with horizontal wrap at the row borders, kept in a write-once cache.
  - A recursive flood fill (`GetArea`).
- **`MapGenerator`** (`MapGenerators.dfy`):
  - the land/water cellular automaton: a Desert fill, then ten breadth-first refinement rounds from four random seeds each;
  - the mountain random walk: upgrade the current cell, then move by distance-weighted chances.

Supporting modules:

- `Runtime.dfy` defines C#'s truncating division and remainder by 2 (`Half`, `HalfRem`; 2 is the only divisor in the core) and `Math.Abs`. Dafny's own operators are Euclidean, so every `/ 2`, `% 2` and `Math.Abs` of the source goes through these functions.
- `Randomness.dfy` models `System.Random` as an injected stream of uniform draws in [0, 1) plus a draw counter. `NextDouble` takes the next draw. `Next(lo, hi)` scales the next draw into [lo, hi), and throws without drawing when `lo > hi`.
- `Wrappers.dfy` holds `Option` (C#'s null) and `Result` (thrown exceptions).

Mutable objects are classes:

- `Tile` is a class with the source's three fields.
- `Grid` is a class. Its cell table and shape are fixed at construction. Two fields change: `tiles`, the tile state under each cell's key, and `neighborCache`, the `_neighbors` dictionary.
- `MapGenerator` holds the `Random` object.

The state-changing methods are specified against functions of the old state and of the draws:

- `ChangeTile` against `Changed`, and `GetNeighbors` against `NeighborsOf`.
- The Desert fill against `Seeding`.
- A refinement sweep against `SweepFrom`, one cell at a time against `RefinedAt`. The ten rounds are chained by `Round` and `Rounds`.
- A walk step against `Upgrade` and `NextMove`. The whole walk is recorded by `Walked` and `WalkEnded`.

The flood fill is specified by what its result must be: a closed area of qualifying cells, each reached from the start. Lemmas state the properties of these functions.

Some behaviour of the code is easy to misread. The model follows the code:

- The cell (-3, -3) of a wrapping 9 × 6 grid is on the top row, so its two northern neighbours are null and it has four neighbours (`Grids.Grid.NineBySixCorner`).
- `Tile.cs` has no mapping for Mountain or Hill. Every upgrade of the mountain walk therefore throws `ArgumentException` after overwriting the type, and the model keeps that throw.
- The flood fill recurses through the local function `Recursion`, and so does the model (`Grids.Grid.Visit`).
- The Hill threshold is 0.4 (MapGenerator.cs:98).

## Model

| member | source | states |
|---|---|---|
| Runtime.HalfTruncates | Grid.cs:46-48 | C# division by 2 truncates toward zero and the remainder takes the dividend's sign; `Math.Abs(a % 2)` is 1 exactly for odd `a` |
| Randomness.Scale | Grid.cs:73-75 | `Random.Next(lo, hi)` lands in the half-open range [lo, hi), and is `lo` when `lo == hi` |
| Randomness.Random.NextDouble | MapGenerator.cs:23 | takes exactly the next draw of the stream |
| Randomness.Random.Next | Grid.cs:73-75 | throws ArgumentOutOfRangeException without drawing when `lo > hi`, else takes one draw and scales it |
| Hexes.MapKey | Hex.cs:22-25 | definition only; properties in MapKeyIsKeyOf, MapKeyInjective, KeyFitsInt32 |
| Hexes.KeyOf | Hex.cs:27-30 | definition only; properties in MapKeyIsKeyOf |
| Hexes.Add | Hex.cs:32-36 | definition only; properties in AddSubInverse |
| Hexes.Sub | Hex.cs:38-42 | definition only; properties in AddSubInverse |
| Hexes.IsAtTopBorder | Hex.cs:44-47 | definition only (row equality) |
| Hexes.IsAtBottomBorder | Hex.cs:49-52 | definition only (row equality) |
| Hexes.IsAtLeftBorder | Hex.cs:54-57 | definition only; properties in BorderTestsExclusive, Grids.BorderTestsAgree, Grids.BorderTestsShift, Grids.BorderTestsMissNegativeOddRow |
| Hexes.IsAtRightBorder | Hex.cs:59-62 | definition only; properties in BorderTestsExclusive, Grids.BorderTestsAgree, Grids.BorderTestsShift, Grids.BorderTestsMissNegativeOddRow |
| Hexes.IsInCorner | Hex.cs:64-68 | definition only (a column border test and a row border test) |
| Hexes.MapKeyIsKeyOf | Hex.cs:22-30 | the instance `MapKey()` equals the static `MapKey(Column, Row)` |
| Hexes.MapKeyInjective | Hex.cs:14-25 | two coordinates whose rows differ by less than 32768 share a key only if they are equal |
| Hexes.KeyFitsInt32 | Hex.cs:22-25 | the key fits a 32-bit `int` while abs(column) < 65536 and abs(row) < 16384 |
| Hexes.AddSubInverse | Hex.cs:32-42 | `+` and `-` are component-wise: `(a + b) - b == a`, `(a - b) + b == a`, `a + (0, 0) == a`, and the key is additive |
| Hexes.BorderTestsExclusive | Hex.cs:54-62 | for width > 1 no cell passes both the left and the right border test |
| Tiles.Changed | Tile.cs:17-33 | `ChangeTile(t)` throws iff `t` is neither Ocean nor Desert, and always leaves `Type == t` |
| Tiles.ChangedKnown | Tile.cs:19-29 | Ocean gives (Ocean, water, "▓▓▓") and Desert gives (Desert, land, "░░░"), whatever the tile held before |
| Tiles.ChangedRejects | Tile.cs:19-31 | a rejected type throws with Type overwritten and IsWater and Printable unchanged |
| Tiles.ChangedWellFormed | Tile.cs:20-29 | after a change that did not throw, IsWater holds iff Type is Ocean, and the glyph matches the type |
| Tiles.ChangedIdempotent | Tile.cs:17-33 | `ChangeTile(t)` twice leaves the same state and outcome as once |
| Tiles.NewTile | Tile.cs:12-15 | the constructor succeeds iff the type is known, and then yields a well-formed tile of that type |
| Tiles.NewTileKnown | Tile.cs:12-29 | `new Tile(Ocean)` and `new Tile(Desert)` are the Ocean and Desert tiles |
| Tiles.Tile.constructor | Tile.cs:12-15 | the constructor's state is `ChangeTile` applied to a blank tile |
| Tiles.Tile.ChangeTile | Tile.cs:17-33 | the fields after the in-place switch and the throw flag are exactly `Changed` of the old fields |
| Tiles.Tile.ToString | Tile.cs:35-38 | returns Printable, which is the Ocean glyph exactly when the tile is water |
| Grids.RowOffset | Grid.cs:46 | definition only; properties in RowOffsetFloor, RowOffsetPair |
| Grids.RowBorders | Grid.cs:44-50 | right − left == 2 * (width / 2), with truncating division |
| Grids.RowLength | Grid.cs:44-50 | for width ≥ 0 a row holds `width` cells for odd width and `width + 1` for even width |
| Grids.StaggeredPairs | Grid.cs:46-48 | rows 2k − 1 and 2k share their borders (offset k), and each pair sits one column left of the pair above |
| Grids.RowOffsetPair | Grid.cs:46 | rows 2k − 1 and 2k have row offset k and row 2k + 1 has k + 1 |
| Grids.OddRowStagger | Grid.cs:44-50 | an odd row shares its borders with the row below and is one column left of the row above |
| Grids.EvenRowStagger | Grid.cs:44-50 | an even row shares its borders with the row above and is one column right of the row below |
| Grids.RowOffsetFloor | Grid.cs:46 | with `Math.Abs`, the row offset is floor((row + 1) / 2) for every row, negative rows included |
| Grids.BorderTestsAgree | Hex.cs:54-62 | Hex's left/right border tests agree with `RowBorders` on every even row and every non-negative row |
| Grids.BorderTestsShift | Hex.cs:54-62 | on every negative odd row −2k−1 each test accepts exactly the column one right of the row's actual border |
| Grids.BorderTestsMissNegativeOddRow | Hex.cs:54-62 | on every negative odd row −2k−1 both tests miss the row's end cells: the left test accepts the second cell (an interior cell for width ≥ 2), the right test accepts the column past the row's end, which no grid contains |
| Grids.TopBorderOf | Grid.cs:26 | definition only; properties in RowCount |
| Grids.BottomBorderOf | Grid.cs:27 | definition only; properties in RowCount |
| Grids.RowCount | Grid.cs:26-27 | TopBorder = −height/2 and BottomBorder = (height + height%2)/2 − 1 enclose exactly `height` rows for height ≥ 1, none otherwise |
| Grids.NewGrid | Grid.cs:19-29 | wrapY throws NotImplementedException before any cell exists; a negative capacity throws ArgumentOutOfRangeException; otherwise a valid grid with those borders, holding exactly the coordinates within them, every tile Ocean and an empty neighbour cache |
| Grids.Grid.constructor | Grid.cs:19-42 | the table holds exactly the coordinates with Top ≤ row ≤ Bottom and left(row) ≤ column ≤ right(row), each under its own key; every tile is Ocean and the cache is empty |
| Grids.Grid.CellsAreCells | Grid.cs:30-41 | a coordinate is a stored cell iff it lies inside the borders |
| Grids.Grid.CellAt | Grid.cs:30-41 | a coordinate inside the borders is stored under its static key |
| Grids.Grid.NoRowsNoCells | Grid.cs:30-41 | a grid without rows has no cells |
| Grids.Grid.GetHexAt | Grid.cs:52-56 | returns null exactly when the key is absent, otherwise the stored cell under that key |
| Grids.Grid.GetHexAtPosition | Grid.cs:58-62 | the (column, row) overload is the same lookup as the `Hex` overload |
| Grids.Grid.GetHexAtExact | Grid.cs:52-62 | within 32768 rows of the grid, the lookup returns the coordinate itself iff it lies inside the borders |
| Grids.Grid.Neighbor | Grid.cs:116-149 | every neighbour reported in any direction is a stored cell |
| Grids.Grid.NeighborsOf | Grid.cs:106-119 | the neighbour dictionary has all six directions |
| Grids.Grid.RawNeighbors | Grid.cs:116-119 | before wrap correction each direction maps to `GetHexAt(hex + v)` |
| Grids.Grid.InteriorNeighbors | Grid.cs:107-119 | off the column borders, or without wrapX, each neighbour is `hex + v` when inside the grid and null otherwise |
| Grids.Grid.LeftBorderHasNoWestCell | Grid.cs:116-124 | a cell is on its row's left (right) border iff its raw west (east) lookup is null |
| Grids.Grid.LeftBorderNeighbor | Grid.cs:130-139 | at the left border with wrapX, W is the row's right-border cell; on odd rows NW and SW are that cell's raw NE and SE lookups |
| Grids.Grid.RightBorderNeighbor | Grid.cs:140-149 | otherwise at the right border, E is the row's left-border cell; on even rows NE and SE are that cell's raw NW and SW lookups |
| Grids.Grid.LeftWrapped | Grid.cs:130-139 | the whole dictionary in the left-border case, as the raw dictionary rewired |
| Grids.Grid.RightWrapped | Grid.cs:140-149 | the whole dictionary in the right-border case, as the raw dictionary rewired |
| Grids.Grid.Unwrapped | Grid.cs:150-155 | with no wrap case applying, the dictionary is the raw one |
| Grids.Grid.SingleColumnWrap | Grid.cs:130-149 | on a one-column row the left case takes precedence: the cell is its own west neighbour and its east neighbour is null |
| Grids.Grid.WestThenEast | Grid.cs:130-149 | with wrapX and width ≥ 2 every cell has a west neighbour whose east neighbour is the cell |
| Grids.Grid.EastThenWest | Grid.cs:130-149 | with wrapX and width ≥ 2 every cell has an east neighbour whose west neighbour is the cell |
| Grids.Grid.WestEastInverse | Grid.cs:130-149 | the wrap closes every row into a ring: W and E always exist and undo each other |
| Grids.Grid.LeftSeam | Grid.cs:130-139 | on an odd row the left-border cell's NW and SW are the right-border cells of the rows above and below, null past the top or bottom |
| Grids.Grid.RightSeam | Grid.cs:140-149 | on an even row the right-border cell's NE and SE are the left-border cells of the rows above and below, null past the top or bottom |
| Grids.Grid.NineBySixCorner | Grid.cs:44-50 | in a 9 × 6 wrapping grid rows −3 and −2 span −3..5 and row −1 spans −4..4; the cell (−3, −3) has W = (5, −3), SW = (5, −2), E and SE direct, and no northern neighbours |
| Grids.Grid.ComputeNeighbors | Grid.cs:106-156 | the dictionary built step by step (raw lookups, then the wrap case) equals `NeighborsOf` |
| Grids.Grid.GetNeighbors | Grid.cs:102-157 | returns `NeighborsOf(hex)`; a hit leaves the cache unchanged; a miss inserts exactly that key; every cached entry stays correct |
| Grids.Grid.RandomHexAt | Grid.cs:69-78 | definition only; properties in RandomHexIsCell |
| Grids.Grid.RandomHexIsCell | Grid.cs:69-78 | a random cell exists iff the grid has rows; it is always a stored cell, never on the bottom row when Top < Bottom, and never in a row's last column when width ≥ 2 |
| Grids.Grid.GetRandomHex | Grid.cs:69-78 | throws without drawing on a grid without rows; otherwise draws the row then the column, two draws |
| Grids.Grid.SetTile | MapGenerator.cs:25 | gives one cell a new tile and changes no other |
| Grids.Grid.GetAllCells | Grid.cs:64-67 | lists every stored cell exactly once |
| Grids.Grid.GetArea | Grid.cs:165-182 | no duplicates; every member is a cell meeting the criteria; contains start iff criteria(start), and is empty otherwise; closed under neighbours that meet the criteria; begins with start, and every later member is a neighbour of an earlier one, so the area is exactly the qualifying cells connected to start |
| Grids.Grid.Visit | Grid.cs:169-177 | `Recursion(hex)` leaves the list unchanged when hex is null, rejected or already in it; otherwise it only extends the list, appending hex first and then only neighbours of cells it appended; every cell it appends is closed in the result |
| Grids.Grid.Descends | Grid.cs:169-177 | definition only; established by Visit and DescendsGrow |
| Grids.Grid.Visiting | Grid.cs:173-176 | definition only: the record the loop over the directions keeps |
| Grids.Grid.VisitDirection | Grid.cs:173-176 | the recursive call into the neighbour in direction i carries that record one direction further |
| Grids.Grid.DescendsGrow | Grid.cs:173-176 | a recursive visit of a neighbour keeps every appended cell reached from the root |
| Grids.Grid.VisitCloses | Grid.cs:173-176 | once all six directions are visited, the appended cell is closed in the area |
| MapGenerators.FlipTile | MapGenerator.cs:56 | definition only; properties in FlipTransitions |
| MapGenerators.FlipTransitions | MapGenerator.cs:56 | a flip never throws, turns Desert into Ocean and anything else into Desert, and undoes itself on well-formed tiles |
| MapGenerators.CountSame | MapGenerator.cs:48 | definition only; properties in CountSameIsSetSize, SameCountBounded |
| MapGenerators.CountSameIsSetSize | MapGenerator.cs:48 | `sameTypeCount` is the number of distinct directions whose neighbour is non-null and of the cell's type |
| MapGenerators.SameCountBounded | MapGenerator.cs:48 | `sameTypeCount` is at most 6 |
| MapGenerators.FlipChance | MapGenerator.cs:50-54 | definition only; properties in FlipChanceSteps |
| MapGenerators.FlipChanceSteps | MapGenerator.cs:50-54 | the chance is 0.7 below 4, 0.2 at exactly 4, 0.05 from 5 on, and never rises with the count |
| MapGenerators.Refined | MapGenerator.cs:55-56 | definition only; properties in RefinedFlipsOrKeeps |
| MapGenerators.RefinedFlipsOrKeeps | MapGenerator.cs:55-56 | a processed cell keeps its tile or is flipped, and it flips iff roll ≤ chance |
| MapGenerators.Unvisited | MapGenerator.cs:58-62 | definition only; properties in UnvisitedAreNeighbors |
| MapGenerators.UnvisitedAreNeighbors | MapGenerator.cs:58-62 | only non-null neighbours not yet visited are enqueued, at most six |
| MapGenerators.EnqueuedAreCells | MapGenerator.cs:58-62 | every neighbour a stored cell enqueues is a stored cell |
| MapGenerators.RefinedAt | MapGenerator.cs:47-56 | definition only: the tiles after processing one cell with a given roll |
| MapGenerators.SweepFrom | MapGenerator.cs:42-63 | definition only: the sweep loop as a function of tiles, queue, visited keys and draws; properties in SweptCells, SweptFlips, SweptCovers |
| MapGenerators.SweepFromSkips | MapGenerator.cs:44-46 | a dequeued cell already visited is dropped without a draw |
| MapGenerators.SweepFromTakes | MapGenerator.cs:44-62 | a dequeued unvisited cell is processed with the next draw, marked visited, and its unvisited neighbours are enqueued behind the rest of the queue |
| MapGenerators.SweptCells | MapGenerator.cs:42-63 | a sweep processes only stored cells that were not visited when it started, and none twice |
| MapGenerators.SweptFlips | MapGenerator.cs:42-63 | a sweep changes only the tiles of the cells it processes, each kept or flipped |
| MapGenerators.SweptCovers | MapGenerator.cs:42-63 | every cell queued when a sweep starts ends up visited or processed |
| MapGenerators.Upgrade | MapGenerator.cs:95-99 | definition only; properties in UpgradeThrows |
| MapGenerators.UpgradeThrows | MapGenerator.cs:93-100 | Mountain iff roll ≤ 0.2, Hill iff 0.2 < roll ≤ 0.4, otherwise no change; every upgrade throws after storing the type |
| MapGenerators.DistancesOver | MapGenerator.cs:104-112 | definition only; properties in DistancesAreNeighbors |
| MapGenerators.DistancesAreNeighbors | MapGenerator.cs:101-112 | every entry of the distance table is a non-null neighbour holding its `DistanceTo(end)`, and every non-null neighbour has an entry; with all six present the table lists them in direction order |
| MapGenerators.DistancesFull | MapGenerator.cs:104-112 | with every neighbour non-null, entry k of the table is direction k with its neighbour's `DistanceTo(end)` |
| MapGenerators.DistancesInOrder | MapGenerator.cs:104-112 | for any neighbours, entry i of the table is the neighbour in direction at[i], and the positions at[i] strictly increase: the table keeps NE, E, SE, SW, W, NW order |
| MapGenerators.Smallest | MapGenerator.cs:101-110 | definition only; properties in SmallestIsMinimum |
| MapGenerators.SmallestIsMinimum | MapGenerator.cs:101-112 | `smallestDistance` is at most every distance and, over 32-bit distances, attained by one |
| MapGenerators.SmallestOverNeighbors | MapGenerator.cs:101-112 | for a 32-bit `DistanceTo`, `smallestDistance` is at most the distance of every non-null neighbour, and is the distance of one of them when any exists |
| MapGenerators.SkipChance | MapGenerator.cs:116 | definition only: `steps * 0.45 + 0.05`, with the `double` result 0.9500000000000001 at two steps; properties in ChanceLevels |
| MapGenerators.Chance | MapGenerator.cs:116-118 | definition only; properties in ChanceLevels |
| MapGenerators.ChanceLevels | MapGenerator.cs:113-119 | the closest neighbours get 0.05, one step further 0.5, two steps further the rounded `double` just above 0.95, three or more the 0.95 cap; the chance grows up to two steps, and two steps is the largest chance of all |
| MapGenerators.Chances | MapGenerator.cs:113-119 | one chance per distance entry, in the same order |
| MapGenerators.InsertKeeps | MapGenerator.cs:122 | inserting into a descending list keeps it descending and loses nothing |
| MapGenerators.InsertStable | MapGenerator.cs:122 | inserting keeps the order of entries with equal chance |
| MapGenerators.SortDescending | MapGenerator.cs:122 | definition only; properties in SortKeeps |
| MapGenerators.SortKeeps | MapGenerator.cs:122 | `OrderBy(d => -d.Value)` gives a descending permutation that keeps ties in their original order |
| MapGenerators.TwoStepsBeforeCapped | MapGenerator.cs:113-122 | in the sorted chance table every neighbour two steps further than the closest comes before every capped neighbour, whatever their direction order |
| MapGenerators.FirstClosest | MapGenerator.cs:120-121 | returns the direction of the first entry at the smallest distance (no earlier entry has it), or nothing when no entry has it |
| MapGenerators.FirstAtDistance | MapGenerator.cs:121 | definition only; properties in ClosestIsFirstDirection and MoveRules |
| MapGenerators.ClosestIsFirstDirection | MapGenerator.cs:120-121 | with every neighbour present, the first closest entry is the first direction, in NE, E, SE, SW, W, NW order, whose neighbour is at the smallest distance |
| MapGenerators.Scan | MapGenerator.cs:122-129 | definition only; properties in ScanRules |
| MapGenerators.ScanRules | MapGenerator.cs:122-129 | one draw per entry scanned; the walk moves to the first entry whose roll is above its chance and whose cell is not in `range`, else nowhere after skipping all |
| MapGenerators.OrderListed | MapGenerator.cs:113-125 | every entry the scan visits names a non-null neighbour |
| MapGenerators.NextMove | MapGenerator.cs:101-129 | definition only; properties in MoveRules |
| MapGenerators.MoveRules | MapGenerator.cs:101-129 | the walk stays or moves to a neighbour; when all six neighbours are non-null and in `range` it jumps to the first neighbour, in NE, E, SE, SW, W, NW order, at the smallest distance, which is in `range`; otherwise a move goes only to a cell not in `range` |
| MapGenerators.MeasureDistances | MapGenerator.cs:101-112 | the loop builds the distance table and its minimum |
| MapGenerators.ChanceTable | MapGenerator.cs:113-119 | the loop builds the chance table |
| MapGenerators.UpgradeDraws | MapGenerator.cs:93-95 | definition only: one draw for a Desert cell, none otherwise |
| MapGenerators.Upgrades | MapGenerator.cs:93-99 | definition only: a Desert cell whose roll gives an upgrade |
| MapGenerators.Walked | MapGenerator.cs:89-129 | definition only: the record of the walk so far, each step an upgrade that did not throw and a `NextMove` over the range as it was |
| MapGenerators.WalkEnded | MapGenerator.cs:89-130 | definition only: the walk arrived, ran out of fuel, or threw from its last cell's upgrade |
| MapGenerators.WalkedEnters | MapGenerator.cs:92 | appending the current key to `range` keeps the walk's record |
| MapGenerators.WalkedMoves | MapGenerator.cs:93-129 | a step whose upgrade did not throw and whose move is `NextMove` from the draw after the upgrade extends the walk's record |
| MapGenerators.FlippedOnly | MapGenerator.cs:55-56 | definition only: only the given keys change, each kept or flipped |
| MapGenerators.FlippedStaysWellFormed | MapGenerator.cs:55-56 | keeping or flipping tiles keeps every tile well formed |
| MapGenerators.FlipThenRest | MapGenerator.cs:55-57 | refining one cell and then changing only other cells, each kept or flipped, changes only that cell and those |
| MapGenerators.MapGenerator.constructor | MapGenerator.cs:12-15 | the generator holds the given random source |
| MapGenerators.Seeded | MapGenerator.cs:23-25 | definition only; properties in SeedingSpec |
| MapGenerators.Seeding | MapGenerator.cs:21-26 | definition only; properties in SeedingSpec, SeedingWellFormed |
| MapGenerators.SeedingSpec | MapGenerator.cs:20-26 | after the first `n` cells of a listing with distinct keys, each of them holds a new Desert tile iff its own roll (draw `start + j`) is ≥ waterPercentage and is otherwise untouched; later cells and keys are untouched |
| MapGenerators.SeedingWellFormed | MapGenerator.cs:20-26 | the fill adds no key and, since it only writes new Desert tiles, keeps every tile well formed |
| MapGenerators.CellKeysDistinct | Grid.cs:64-67 | a listing of stored cells without repeats has distinct keys, so `SeedingSpec` applies to `GetAllCells` |
| MapGenerators.MapGenerator.SeedCell | MapGenerator.cs:22-25 | one draw; the cell gets a new Desert tile iff the roll ≥ waterPercentage; no other tile changes |
| MapGenerators.MapGenerator.SeedEach | MapGenerator.cs:21-26 | one draw per listed cell, in order; the tiles become `Seeding` of the old tiles over the listing |
| MapGenerators.MapGenerator.FillDeserts | MapGenerator.cs:20-26 | lists every cell once, takes one draw per cell, and leaves exactly `Seeding` of the old tiles over that listing |
| MapGenerators.MapGenerator.ProcessCell | MapGenerator.cs:47-56 | one draw; the cell's tile becomes `Refined` of its same-type count and roll; no other tile changes |
| MapGenerators.MapGenerator.EnqueueNeighbors | MapGenerator.cs:58-62 | appends the non-null, unvisited neighbours in direction order |
| MapGenerators.Round | MapGenerator.cs:30-64 | definition only: four picked seeds, then `SweepFrom` those seeds from the draw after them |
| MapGenerators.Rounds | MapGenerator.cs:66-70 | definition only: each round starts from the tiles and the draw where the previous one ended |
| MapGenerators.RoundDraws | MapGenerator.cs:35-63 | definition only: two draws per seed and one per processed cell, in each round |
| MapGenerators.RoundsDraw | MapGenerator.cs:66-70 | the rounds together take exactly `RoundDraws` draws |
| MapGenerators.RoundsExtend | MapGenerator.cs:66-70 | a round that starts where the last one ended extends the chain of rounds |
| MapGenerators.PickedExtends | MapGenerator.cs:35-40 | a run of `GetRandomHex` results extended by the call that starts right after it is still a run |
| MapGenerators.MapGenerator.PickOne | MapGenerator.cs:37 | one `GetRandomHex` call: two draws and a stored cell, or a throw without drawing on a grid without rows |
| MapGenerators.MapGenerator.PickCells | MapGenerator.cs:35-40 | `count` successive `GetRandomHex` calls, two draws each, all stored cells; the first throws on a grid without rows |
| MapGenerators.MapGenerator.SweepCell | MapGenerator.cs:47-62 | processing an unvisited cell takes one draw, marks it visited, sets its tile to `RefinedAt` with that roll, and enqueues its unvisited neighbours |
| MapGenerators.MapGenerator.Sweep | MapGenerator.cs:42-63 | the tiles and the processed cells are exactly `SweepFrom` the seeds with nothing visited; one draw per processed cell; the first seed first and every seed processed; none twice; only processed cells change, each kept or flipped |
| MapGenerators.MapGenerator.CellularAutomata | MapGenerator.cs:30-64 | four seeds from `GetRandomHex` (eight draws), then the sweep from them: the round is a `Round`; throws on a grid without rows, changing nothing |
| MapGenerators.MapGenerator.RefineRound | MapGenerator.cs:66-70 | one pass of the refine loop appends exactly one `Round` (the new tiles and draw count) to the chain of rounds, or throws on a grid without rows, changing nothing |
| MapGenerators.MapGenerator.CellularGenerator | MapGenerator.cs:17-71 | the Desert fill (`Seeding` over all cells, one draw each), then exactly 10 chained `Rounds` ending in the final tiles; draws total one per cell plus `RoundDraws`; tiles stay well formed; throws on a grid without rows, changing nothing |
| MapGenerators.MapGenerator.ScanMoves | MapGenerator.cs:122-129 | the scan loop returns `Scan`'s target and uses its number of draws |
| MapGenerators.MapGenerator.RaiseAt | MapGenerator.cs:93-100 | only a Desert cell draws; it gets Mountain or Hill by the roll (and throws) or stays |
| MapGenerators.MapGenerator.MoveFrom | MapGenerator.cs:101-129 | distances, chances, the dead-end jump and the scan compute exactly `NextMove` |
| MapGenerators.MapGenerator.WalkStep | MapGenerator.cs:93-129 | a Desert cell takes one draw and throws iff the roll gives an upgrade, its type becoming `Upgrade(roll)` and nothing else changing; otherwise no tile changes and the walk moves by `NextMove` from the following draw, to itself or a neighbour |
| MapGenerators.MapGenerator.WalkOn | MapGenerator.cs:91-129 | one pass of the loop: `range` gains the current key; a throw ends the walk as `WalkEnded` states; otherwise the walk's record grows by one step and no tile changes |
| MapGenerators.MapGenerator.Wander | MapGenerator.cs:88-130 | the walk ends at the goal, out of fuel, or with the upgrade's exception, and `WalkEnded` holds: every step's upgrade and move in draw order, and the final tiles |
| MapGenerators.MapGenerator.GenerateMountains | MapGenerator.cs:81-131 | start and end are the `GetRandomHex` results of the first four draws; the walk ends with `ArgumentOutOfRangeException` exactly when the grid has no rows, and then before any change; otherwise the walk from the fifth draw ends as `WalkEnded` states |

## Left out

- The console driver (`Program.cs`), `Grid.ToString` (Grid.cs:80-100) and the `Console.WriteLine` calls (MapGenerator.cs:38, 68). They only print.
- `GenerateBioms` (MapGenerator.cs:139-237) is not part of this model.
  - It asks `ChangeTile` for Tundra, Steppe and Grassland, which Tile.cs rejects.
  - Its spreading is recursion bounded only by floating-point draws.
  - `GenerateBlob` can dequeue from an empty queue.
  - Its neighbour order is a random shuffle.
- `System.Random` itself. Draws are an injected stream, so "same seed, same map" is not stated. `Random.Next(lo, hi)` is modelled as `lo + floor(u * (hi - lo))` for the next draw `u`; only the half-open range matters to the properties. A null `random` argument to `GetRandomHex` (Grid.cs:71-72) is not modelled.
- Floating-point rounding: probabilities and draws are `real`. The one exception is the skip chance two steps from the closest distance: `2 * 0.45 + 0.05` rounds to a `double` above the 0.95 cap, which changes the order of the walk's scan, so `SkipChance` uses that rounded value. Everywhere else the rounded and exact values compare alike.
- MapGenerator.cs uses `DistanceTo` and `Hex.Tile`, but Hex.cs declares neither.
  - `DistanceTo` is a function parameter. The model only assumes it returns a 32-bit `int`.
  - Each cell's tile is the `tiles` map of the grid, under the cell's key. Since Hex.cs declares no `Tile`, the model chooses to give every cell an initial Ocean tile when the grid is built (Grid.cs:36-39).
- Cells are values, not references. The source compares `Hex` objects by reference (`current != endCell`, `result.Contains(hex)`). Every `Hex` the model hands out comes from the table, so reference and coordinate equality agree.
- Dictionary enumeration is taken to be insertion order: NE, E, SE, SW, W, NW for neighbour dictionaries and filling order for `distances` and `chances`. `GetAllCells` order is left open.
- The `NotImplementedException` branches of `GetNeighbors` (Grid.cs:125-129, 150-154) are unreachable: `wrapY` is false in every grid (`NewGrid` rejects it). They appear as `assert false`.
- 32-bit overflow of `MapKey`, `height * width` and `distance - smallestDistance` is not modelled. Only rows are bounded (height < 32768).
- Grids.NewGrid: width and columns are unbounded. In a grid wider than about 131072 columns the C# key `column * 32768 + row` wraps, two cells share a key and `_map.Add` throws `ArgumentException` (Grid.cs:39). The model's keys are unbounded integers, so it builds that grid without error.
- Grids.Grid.constructor: requires height < 32768, so that keys cannot collide, and `height * width ≥ 0`; the negative-capacity exception is modelled by `NewGrid`.
- Grids.Grid.GetNeighbors: requires a stored cell. For a non-cell on a border the source would throw `KeyNotFoundException` (Grid.cs:132, 142).
- Grids.Grid.GetArea: requires a stored start cell and criteria that reject a missing neighbour. For criteria that accept null, the source would call `GetNeighbors(null)` and crash.
- Tiles.Tile.constructor: requires a known type. The throwing construction is `NewTile(t) == None`.
- MapGenerators.MapGenerator.GenerateMountains: the walk (`while (current != endCell)`, no step cap) takes a `fuel` bound and may stop with `OutOfFuel`. A walk longer than the fuel is not modelled.

## Findings

| source | as written | input that shows it | evidently intended | confidence | as-written member | corrected member |
|---|---|---|---|---|---|---|
| Hex.cs:54-62 | `IsAtLeftBorder`/`IsAtRightBorder` compute the row offset with `row % 2`, which is −1 on negative odd rows | width 2, row −1: the row spans columns −2..0, but the tests accept columns −1 and 1 | `Math.Abs(row % 2)`, as `RowBorders` does at Grid.cs:46 | not executed; medium: the tests are only reached through `IsInCorner`, which only a wrapY grid evaluates | Grids.BorderTestsMissNegativeOddRow | Grids.Grid.LeftBorderHasNoWestCell |
