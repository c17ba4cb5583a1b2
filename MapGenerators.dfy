/**
 * MapGenerator.cs: the land/water cellular automaton and the mountain
 * random walk. Both passes draw from an injected `Random` and change the
 * tiles of the grid's cells in place.
 */
module MapGenerators {
  import opened Wrappers
  import opened Runtime
  import opened Hexes
  import opened Tiles
  import opened Randomness
  import opened Grids

  /** `refine`: the number of automaton rounds. */
  const Refine: nat := 10

  /** Each automaton round starts from this many random cells. */
  const Seeds: nat := 4

  predicate Distinct<T(==)>(s: seq<T>)
  {
    forall i, j :: 0 <= i < j < |s| ==> s[i] != s[j]
  }

  // ---------------------------------------------------------------------
  // Cellular automaton: the per-cell rule
  // ---------------------------------------------------------------------

  /** The first pass: a roll at or above the water share makes the cell a new Desert tile. */
  function Seeded(tile: TileState, roll: Unit, waterPercentage: real): TileState
  {
    if roll >= waterPercentage then DesertTile else tile
  }

  /**
   * The tiles once the first pass has rolled for the first `n` cells of
   * `order`, the rolls taken from draw `start` on.
   */
  ghost function Seeding(tiles: map<int, TileState>, order: seq<Hex>, rolls: nat -> Unit, start: nat, waterPercentage: real, n: nat): map<int, TileState>
    requires n <= |order|
  {
    if n == 0 then tiles
    else
      var before := Seeding(tiles, order, rolls, start, waterPercentage, n - 1);
      var k := MapKey(order[n - 1]);
      if k in before then before[k := Seeded(before[k], Draw(rolls, start + n - 1), waterPercentage)] else before
  }

  /** One more cell: its tile, if it has one, is seeded with roll `b`, which is `start + n`. */
  lemma SeedingNext(tiles: map<int, TileState>, order: seq<Hex>, rolls: nat -> Unit, start: nat, waterPercentage: real, n: nat, b: nat)
    requires n < |order| && b == start + n
    ensures var before := Seeding(tiles, order, rolls, start, waterPercentage, n);
            var k := MapKey(order[n]);
            Seeding(tiles, order, rolls, start, waterPercentage, n + 1) ==
            if k in before then before[k := Seeded(before[k], Draw(rolls, b), waterPercentage)] else before
  {
  }

  /**
   * When the cells have distinct keys, each of the first `n` cells is seeded
   * with its own roll, every other tile is untouched, and no key is added.
   */
  lemma {:induction false} SeedingSpec(tiles: map<int, TileState>, order: seq<Hex>, rolls: nat -> Unit, start: nat, waterPercentage: real, n: nat)
    requires n <= |order|
    requires forall j, k :: 0 <= j < |order| && 0 <= k < |order| && j != k ==> MapKey(order[j]) != MapKey(order[k])
    ensures Seeding(tiles, order, rolls, start, waterPercentage, n).Keys == tiles.Keys
    ensures forall j :: 0 <= j < |order| && MapKey(order[j]) in tiles ==>
              Seeding(tiles, order, rolls, start, waterPercentage, n)[MapKey(order[j])] ==
              if j < n then Seeded(tiles[MapKey(order[j])], Draw(rolls, start + j), waterPercentage)
              else tiles[MapKey(order[j])]
  {
    if n > 0 {
      SeedingSpec(tiles, order, rolls, start, waterPercentage, n - 1);
    }
  }

  /**
   * Distinct stored cells have distinct keys, so a listing of cells without
   * repeats meets the condition of `SeedingSpec`.
   */
  lemma CellKeysDistinct(grid: Grid, order: seq<Hex>)
    requires Distinct(order) && forall h :: h in order ==> grid.IsCell(h)
    ensures forall j, k :: 0 <= j < |order| && 0 <= k < |order| && j != k ==> MapKey(order[j]) != MapKey(order[k])
  {
    forall j, k | 0 <= j < |order| && 0 <= k < |order| && j != k
      ensures MapKey(order[j]) != MapKey(order[k])
    {
      assert order[j] in order && order[k] in order;
      assert grid.cells[MapKey(order[j])] == order[j] && grid.cells[MapKey(order[k])] == order[k];
      if j < k {
        assert order[j] != order[k];
      } else {
        assert order[k] != order[j];
      }
    }
  }

  /** Seeding adds no key, and it only ever writes a new Desert tile, so well-formed tiles stay so. */
  lemma {:induction false} SeedingWellFormed(tiles: map<int, TileState>, order: seq<Hex>, rolls: nat -> Unit, start: nat, waterPercentage: real, n: nat)
    requires n <= |order|
    ensures Seeding(tiles, order, rolls, start, waterPercentage, n).Keys == tiles.Keys
    ensures AllWellFormed(tiles) ==> AllWellFormed(Seeding(tiles, order, rolls, start, waterPercentage, n))
  {
    if n > 0 {
      SeedingWellFormed(tiles, order, rolls, start, waterPercentage, n - 1);
      NewTileKnown();
    }
  }

  /** The type a flip asks for: Desert becomes Ocean, anything else Desert. */
  function Flip(t: TileType): TileType
  {
    if t == Desert then Ocean else Desert
  }

  /** `ChangeTile` with the flipped type. */
  function FlipTile(s: TileState): TileState
  {
    Changed(s, Flip(s.kind)).tile
  }

  /**
   * A flip never throws and always leaves a well-formed Ocean or Desert
   * tile; on a well-formed tile it toggles between the two, so flipping
   * twice restores the tile.
   */
  lemma FlipTransitions(s: TileState)
    ensures !Changed(s, Flip(s.kind)).thrown
    ensures s.kind == Desert ==> FlipTile(s) == OceanTile
    ensures s.kind != Desert ==> FlipTile(s) == DesertTile
    ensures WellFormed(FlipTile(s))
    ensures WellFormed(s) ==> FlipTile(FlipTile(s)) == s
  {
  }

  /** The neighbour in direction `d` exists and carries a tile of type `kind`. */
  predicate SameKind(tiles: map<int, TileState>, neighbors: Neighbors, kind: TileType, d: Direction)
  {
    && d in neighbors
    && neighbors[d].Some?
    && MapKey(neighbors[d].value) in tiles
    && tiles[MapKey(neighbors[d].value)].kind == kind
  }

  /** `sameTypeCount`: the neighbours, over the directions `ds`, whose tile has type `kind`. */
  function CountSame(tiles: map<int, TileState>, neighbors: Neighbors, kind: TileType, ds: seq<Direction>): nat
  {
    if ds == [] then 0
    else
      CountSame(tiles, neighbors, kind, ds[..|ds| - 1])
      + (if SameKind(tiles, neighbors, kind, ds[|ds| - 1]) then 1 else 0)
  }

  /** The count is the number of distinct directions whose neighbour matches. */
  lemma {:induction false} CountSameIsSetSize(tiles: map<int, TileState>, neighbors: Neighbors, kind: TileType, ds: seq<Direction>)
    requires Distinct(ds)
    ensures CountSame(tiles, neighbors, kind, ds) == |set d | d in ds && SameKind(tiles, neighbors, kind, d)|
  {
    if ds != [] {
      var init := ds[..|ds| - 1];
      var last := ds[|ds| - 1];
      assert Distinct(init) by {
        forall i, j | 0 <= i < j < |init|
          ensures init[i] != init[j]
        {
          assert init[i] == ds[i] && init[j] == ds[j];
        }
      }
      CountSameIsSetSize(tiles, neighbors, kind, init);
      var before := set d | d in init && SameKind(tiles, neighbors, kind, d);
      var after := set d | d in ds && SameKind(tiles, neighbors, kind, d);
      LastIsNew(ds);
      MatchingSplit(tiles, neighbors, kind, init, last);
      assert ds == init + [last];
      if SameKind(tiles, neighbors, kind, last) {
        assert after == before + {last};
        assert |after| == |before| + 1;
      } else {
        assert after == before;
      }
    }
  }

  /** In a sequence without repeats the last element does not occur earlier. */
  lemma LastIsNew<T>(s: seq<T>)
    requires Distinct(s) && s != []
    ensures s[|s| - 1] !in s[..|s| - 1]
  {
    var init := s[..|s| - 1];
    forall i | 0 <= i < |init|
      ensures init[i] != s[|s| - 1]
    {
      assert init[i] == s[i];
    }
  }

  /** The matching directions of `init + [last]` are those of `init`, plus `last` when it matches. */
  lemma MatchingSplit(tiles: map<int, TileState>, neighbors: Neighbors, kind: TileType, init: seq<Direction>, last: Direction)
    ensures (set d | d in init + [last] && SameKind(tiles, neighbors, kind, d))
         == (set d | d in init && SameKind(tiles, neighbors, kind, d))
            + (if SameKind(tiles, neighbors, kind, last) then {last} else {})
  {
  }

  /** At most one neighbour per direction counts. */
  lemma SameCountBounded(tiles: map<int, TileState>, neighbors: Neighbors, kind: TileType)
    ensures CountSame(tiles, neighbors, kind, Directions) <= 6
  {
    var ds := Directions;
    assert Distinct(ds);
    CountSameIsSetSize(tiles, neighbors, kind, ds);
    var matching := set d | d in ds && SameKind(tiles, neighbors, kind, d);
    assert matching <= set d | d in ds;
    AllDirectionsSet();
    SubsetSize(matching, set d | d in ds);
  }

  lemma AllDirectionsSet()
    ensures |set d | d in Directions| == 6
  {
    assert (set d | d in Directions) == {NorthEast, East, SouthEast, SouthWest, West, NorthWest};
  }

  lemma SubsetSize<T>(a: set<T>, b: set<T>)
    requires a <= b
    ensures |a| <= |b|
  {
    assert b == a + (b - a);
  }

  /**
   * `chanceToChange`: 0.7, lowered to 0.2 for exactly four neighbours of the
   * same type, and to 0.05 for five or more.
   */
  function FlipChance(sameTypeCount: int): real
  {
    var chance := 0.7;
    var chance := if sameTypeCount == 4 then 0.2 else chance;
    if sameTypeCount >= 5 then 0.05 else chance
  }

  /**
   * The chance to change only falls as more neighbours share the cell's
   * type: a cell surrounded by its own kind is the most stable.
   */
  lemma FlipChanceSteps(a: int, b: int)
    ensures a < 4 ==> FlipChance(a) == 0.7
    ensures a == 4 ==> FlipChance(a) == 0.2
    ensures a >= 5 ==> FlipChance(a) == 0.05
    ensures a <= b ==> FlipChance(b) <= FlipChance(a)
  {
  }

  /** One automaton step on a cell: flip when the roll is at most the chance. */
  function Refined(tile: TileState, sameTypeCount: int, roll: Unit): TileState
  {
    if roll <= FlipChance(sameTypeCount) then FlipTile(tile) else tile
  }

  /** A step leaves the tile or flips it, and it flips exactly when the roll is at most the chance. */
  lemma RefinedFlipsOrKeeps(tile: TileState, sameTypeCount: int, roll: Unit)
    requires WellFormed(tile)
    ensures Refined(tile, sameTypeCount, roll) == tile || Refined(tile, sameTypeCount, roll) == FlipTile(tile)
    ensures Refined(tile, sameTypeCount, roll) != tile <==> roll <= FlipChance(sameTypeCount)
    ensures WellFormed(Refined(tile, sameTypeCount, roll))
  {
    FlipTransitions(tile);
  }

  /** The neighbours the automaton enqueues after a cell, in direction order. */
  function Unvisited(neighbors: Neighbors, visited: set<int>, ds: seq<Direction>): seq<Hex>
  {
    if ds == [] then []
    else
      var d := ds[|ds| - 1];
      Unvisited(neighbors, visited, ds[..|ds| - 1])
      + (if d in neighbors && neighbors[d].Some? && MapKey(neighbors[d].value) !in visited
         then [neighbors[d].value] else [])
  }

  /** Only existing neighbours that have not been visited are enqueued. */
  lemma {:induction false} UnvisitedAreNeighbors(neighbors: Neighbors, visited: set<int>, ds: seq<Direction>)
    ensures forall h :: h in Unvisited(neighbors, visited, ds) ==>
              MapKey(h) !in visited && exists d :: d in ds && d in neighbors && neighbors[d] == Some(h)
    ensures |Unvisited(neighbors, visited, ds)| <= |ds|
  {
    if ds != [] {
      UnvisitedAreNeighbors(neighbors, visited, ds[..|ds| - 1]);
      assert forall d :: d in ds[..|ds| - 1] ==> d in ds;
    }
  }

  /** The enqueued neighbours of a stored cell are stored cells. */
  lemma EnqueuedAreCells(grid: Grid, hex: Hex, visited: set<int>)
    requires grid.Shape() && grid.IsCell(hex)
    ensures forall h :: h in Unvisited(grid.NeighborsOf(hex), visited, Directions) ==> grid.IsCell(h)
  {
    var neighbors := grid.NeighborsOf(hex);
    UnvisitedAreNeighbors(neighbors, visited, Directions);
    forall h | h in Unvisited(neighbors, visited, Directions)
      ensures grid.IsCell(h)
    {
      var d :| d in Directions && d in neighbors && neighbors[d] == Some(h);
      assert grid.Neighbor(hex, d) == Some(h);
    }
  }

  /** The tiles after `ProcessCell(hex)` with roll `roll`: its tile is `Refined` by its same-type count. */
  ghost function RefinedAt(grid: Grid, tiles: map<int, TileState>, hex: Hex, roll: Unit): map<int, TileState>
    requires grid.Shape() && grid.IsCell(hex)
  {
    var k := MapKey(hex);
    if k in tiles then tiles[k := Refined(tiles[k], CountSame(tiles, grid.NeighborsOf(hex), tiles[k].kind, Directions), roll)]
    else tiles
  }

  /** Refining one cell keeps or flips its tile and leaves every other tile as it was. */
  lemma RefinedAtKeepsOthers(grid: Grid, tiles: map<int, TileState>, hex: Hex, roll: Unit)
    requires grid.Shape() && grid.IsCell(hex)
    ensures var after := RefinedAt(grid, tiles, hex, roll);
            && after.Keys == tiles.Keys
            && (forall j :: j in after && j != MapKey(hex) ==> after[j] == tiles[j])
            && (MapKey(hex) in after ==> after[MapKey(hex)] == tiles[MapKey(hex)] || after[MapKey(hex)] == FlipTile(tiles[MapKey(hex)]))
  {
  }

  /** What a breadth-first sweep leaves: the tiles, and the cells it processed in order. */
  datatype Swept = Swept(tiles: map<int, TileState>, processed: seq<Hex>)

  /**
   * The `while (queue.Count > 0)` loop of `CellularAutomata` as a function of
   * the tiles, the queue and the visited keys, with the rolls taken from
   * draw `b` on: a visited cell is skipped without a draw; any other cell is
   * processed with the next roll, marked visited, and its unvisited
   * neighbours are enqueued.
   */
  ghost function SweepFrom(grid: Grid, tiles: map<int, TileState>, queue: seq<Hex>, visited: set<int>,
                           rolls: nat -> Unit, b: nat): Swept
    requires grid.Shape() && visited <= grid.cells.Keys && forall h :: h in queue ==> grid.IsCell(h)
    decreases |grid.cells.Keys - visited|, |queue|
  {
    if queue == [] then Swept(tiles, [])
    else
      var hex := queue[0];
      QueueSplits(grid, queue);
      if MapKey(hex) in visited then SweepFrom(grid, tiles, queue[1..], visited, rolls, b)
      else
        var visited' := visited + {MapKey(hex)};
        NewKeyShrinks(grid.cells.Keys, visited, MapKey(hex));
        EnqueuedAreCells(grid, hex, visited');
        var queue' := queue[1..] + Unvisited(grid.NeighborsOf(hex), visited', Directions);
        var rest := SweepFrom(grid, RefinedAt(grid, tiles, hex, Draw(rolls, b)), queue', visited', rolls, b + 1);
        Swept(rest.tiles, [hex] + rest.processed)
  }

  /** The head and the tail of a queue of stored cells are stored cells. */
  lemma QueueSplits(grid: Grid, queue: seq<Hex>)
    requires queue != [] && forall h :: h in queue ==> grid.IsCell(h)
    ensures grid.IsCell(queue[0]) && MapKey(queue[0]) in grid.cells.Keys
    ensures forall h :: h in queue[1..] ==> grid.IsCell(h)
  {
    assert queue[0] in queue && forall h :: h in queue[1..] ==> h in queue;
  }

  /** The sweep's loop invariant survives processing the head of the queue. */
  lemma SweepTakeKeeps(grid: Grid, whole: Swept, processed: seq<Hex>, tiles: map<int, TileState>,
                       queue: seq<Hex>, visited: set<int>, rolls: nat -> Unit, b: nat,
                       tiles': map<int, TileState>, queue': seq<Hex>, visited': set<int>, b': nat)
    requires grid.Shape() && visited <= grid.cells.Keys && forall h :: h in queue ==> grid.IsCell(h)
    requires queue != [] && MapKey(queue[0]) !in visited
    requires var rest := SweepFrom(grid, tiles, queue, visited, rolls, b);
             whole == Swept(rest.tiles, processed + rest.processed)
    requires visited' == visited + {MapKey(queue[0])}
    requires queue' == queue[1..] + Unvisited(grid.NeighborsOf(queue[0]), visited', Directions)
    requires tiles' == RefinedAt(grid, tiles, queue[0], Draw(rolls, b)) && b' == b + 1
    ensures visited' <= grid.cells.Keys && forall h :: h in queue' ==> grid.IsCell(h)
    ensures var rest := SweepFrom(grid, tiles', queue', visited', rolls, b');
            whole == Swept(rest.tiles, (processed + [queue[0]]) + rest.processed)
  {
    SweepFromTakes(grid, tiles, queue, visited, rolls, b);
    var rest := SweepFrom(grid, tiles', queue', visited', rolls, b');
    assert (processed + [queue[0]]) + rest.processed == processed + ([queue[0]] + rest.processed);
  }

  /** Every cell a sweep processes is a stored cell not visited before it started, and none twice. */
  lemma {:induction false} SweptCells(grid: Grid, tiles: map<int, TileState>, queue: seq<Hex>, visited: set<int>,
                                      rolls: nat -> Unit, b: nat)
    requires grid.Shape() && visited <= grid.cells.Keys && forall h :: h in queue ==> grid.IsCell(h)
    ensures var p := SweepFrom(grid, tiles, queue, visited, rolls, b).processed;
            && (forall h :: h in p ==> grid.IsCell(h) && MapKey(h) !in visited)
            && Distinct(p)
    decreases |grid.cells.Keys - visited|, |queue|
  {
    if queue == [] {
    } else if MapKey(queue[0]) in visited {
      SweepFromSkips(grid, tiles, queue, visited, rolls, b);
      SweptCells(grid, tiles, queue[1..], visited, rolls, b);
    } else {
      SweepFromTakes(grid, tiles, queue, visited, rolls, b);
      var hex := queue[0];
      var visited' := visited + {MapKey(hex)};
      var queue' := queue[1..] + Unvisited(grid.NeighborsOf(hex), visited', Directions);
      NewKeyShrinks(grid.cells.Keys, visited, MapKey(hex));
      SweptCells(grid, RefinedAt(grid, tiles, hex, Draw(rolls, b)), queue', visited', rolls, b + 1);
      var rest := SweepFrom(grid, RefinedAt(grid, tiles, hex, Draw(rolls, b)), queue', visited', rolls, b + 1).processed;
      assert hex !in rest;
      assert forall i :: 0 < i < |[hex] + rest| ==> ([hex] + rest)[i] == rest[i - 1];
    }
  }

  /** A sweep changes only the tiles of the cells it processes, each kept or flipped once. */
  lemma {:induction false} SweptFlips(grid: Grid, tiles: map<int, TileState>, queue: seq<Hex>, visited: set<int>,
                                      rolls: nat -> Unit, b: nat)
    requires grid.Shape() && visited <= grid.cells.Keys && forall h :: h in queue ==> grid.IsCell(h)
    ensures var r := SweepFrom(grid, tiles, queue, visited, rolls, b);
            FlippedOnly(tiles, r.tiles, KeysOf(r.processed))
    decreases |grid.cells.Keys - visited|, |queue|
  {
    if queue == [] {
    } else if MapKey(queue[0]) in visited {
      SweepFromSkips(grid, tiles, queue, visited, rolls, b);
      SweptFlips(grid, tiles, queue[1..], visited, rolls, b);
    } else {
      SweepFromTakes(grid, tiles, queue, visited, rolls, b);
      var hex := queue[0];
      var visited' := visited + {MapKey(hex)};
      var queue' := queue[1..] + Unvisited(grid.NeighborsOf(hex), visited', Directions);
      var mid := RefinedAt(grid, tiles, hex, Draw(rolls, b));
      NewKeyShrinks(grid.cells.Keys, visited, MapKey(hex));
      SweptFlips(grid, mid, queue', visited', rolls, b + 1);
      SweptCells(grid, mid, queue', visited', rolls, b + 1);
      var rest := SweepFrom(grid, mid, queue', visited', rolls, b + 1);
      KeysOfPrepend(rest.processed, hex);
      assert MapKey(hex) !in KeysOf(rest.processed);
      RefinedAtKeepsOthers(grid, tiles, hex, Draw(rolls, b));
      FlipThenRest(tiles, mid, rest.tiles, MapKey(hex), KeysOf(rest.processed));
    }
  }

  /** Every cell queued when a sweep starts ends up visited or processed. */
  lemma {:induction false} SweptCovers(grid: Grid, tiles: map<int, TileState>, queue: seq<Hex>, visited: set<int>,
                                       rolls: nat -> Unit, b: nat)
    requires grid.Shape() && visited <= grid.cells.Keys && forall h :: h in queue ==> grid.IsCell(h)
    ensures var p := SweepFrom(grid, tiles, queue, visited, rolls, b).processed;
            forall h :: h in queue ==> MapKey(h) in visited + KeysOf(p)
    decreases |grid.cells.Keys - visited|, |queue|
  {
    if queue == [] {
    } else if MapKey(queue[0]) in visited {
      SweepFromSkips(grid, tiles, queue, visited, rolls, b);
      SweptCovers(grid, tiles, queue[1..], visited, rolls, b);
      assert forall h :: h in queue ==> h == queue[0] || h in queue[1..];
    } else {
      SweepFromTakes(grid, tiles, queue, visited, rolls, b);
      var hex := queue[0];
      var visited' := visited + {MapKey(hex)};
      var queue' := queue[1..] + Unvisited(grid.NeighborsOf(hex), visited', Directions);
      var mid := RefinedAt(grid, tiles, hex, Draw(rolls, b));
      NewKeyShrinks(grid.cells.Keys, visited, MapKey(hex));
      SweptCovers(grid, mid, queue', visited', rolls, b + 1);
      var rest := SweepFrom(grid, mid, queue', visited', rolls, b + 1);
      KeysOfPrepend(rest.processed, hex);
      assert forall h :: h in queue ==> h == hex || h in queue';
    }
  }

  /** Prepending a cell adds its key. */
  lemma KeysOfPrepend(s: seq<Hex>, h: Hex)
    ensures KeysOf([h] + s) == {MapKey(h)} + KeysOf(s)
  {
    assert forall x :: x in [h] + s <==> x == h || x in s;
  }

  /** A queued cell already visited is dropped without a draw. */
  lemma SweepFromSkips(grid: Grid, tiles: map<int, TileState>, queue: seq<Hex>, visited: set<int>, rolls: nat -> Unit, b: nat)
    requires grid.Shape() && visited <= grid.cells.Keys && forall h :: h in queue ==> grid.IsCell(h)
    requires queue != [] && MapKey(queue[0]) in visited
    ensures forall h :: h in queue[1..] ==> grid.IsCell(h)
    ensures SweepFrom(grid, tiles, queue, visited, rolls, b) == SweepFrom(grid, tiles, queue[1..], visited, rolls, b)
  {
    QueueSplits(grid, queue);
  }

  /** A queued cell not yet visited is processed with roll `b` and its unvisited neighbours are enqueued. */
  lemma SweepFromTakes(grid: Grid, tiles: map<int, TileState>, queue: seq<Hex>, visited: set<int>, rolls: nat -> Unit, b: nat)
    requires grid.Shape() && visited <= grid.cells.Keys && forall h :: h in queue ==> grid.IsCell(h)
    requires queue != [] && MapKey(queue[0]) !in visited
    ensures grid.IsCell(queue[0]) && visited + {MapKey(queue[0])} <= grid.cells.Keys
    ensures var visited' := visited + {MapKey(queue[0])};
            var queue' := queue[1..] + Unvisited(grid.NeighborsOf(queue[0]), visited', Directions);
            && (forall h :: h in queue' ==> grid.IsCell(h))
            && var rest := SweepFrom(grid, RefinedAt(grid, tiles, queue[0], Draw(rolls, b)), queue', visited', rolls, b + 1);
               SweepFrom(grid, tiles, queue, visited, rolls, b) == Swept(rest.tiles, [queue[0]] + rest.processed)
  {
    QueueSplits(grid, queue);
    EnqueuedAreCells(grid, queue[0], visited + {MapKey(queue[0])});
  }

  // ---------------------------------------------------------------------
  // Mountain walk: the per-step rules
  // ---------------------------------------------------------------------

  /** The upgrade a Desert cell gets from its roll: Mountain up to 0.2, Hill up to 0.4. */
  function Upgrade(roll: Unit): Option<TileType>
  {
    if roll <= 0.2 then Some(Mountain)
    else if roll <= 0.4 then Some(Hill)
    else None
  }

  /**
   * Every upgrade asks `ChangeTile` for a type Tile.cs has no mapping for,
   * so it throws after storing the new type.
   */
  lemma UpgradeThrows(s: TileState, roll: Unit)
    ensures Upgrade(roll).Some? <==> roll <= 0.4
    ensures Upgrade(roll) == Some(Mountain) <==> roll <= 0.2
    ensures Upgrade(roll) == Some(Hill) <==> 0.2 < roll <= 0.4
    ensures Upgrade(roll).Some? ==>
              Changed(s, Upgrade(roll).value) == ChangeResult(s.(kind := Upgrade(roll).value), true)
  {
    if Upgrade(roll).Some? {
      ChangedRejects(s, Upgrade(roll).value);
    }
  }

  /** An entry of the `distances` dictionary. */
  datatype Distance = Distance(dir: Direction, value: int)

  /** An entry of the `chances` dictionary. */
  datatype Entry = Entry(dir: Direction, chance: real)

  /** `distances`: one entry per existing neighbour, in direction order. */
  function DistancesOver(ds: seq<Direction>, neighbors: Neighbors, end: Hex, distanceTo: (Hex, Hex) -> int): seq<Distance>
  {
    if ds == [] then []
    else
      var d := ds[|ds| - 1];
      DistancesOver(ds[..|ds| - 1], neighbors, end, distanceTo)
      + (if d in neighbors && neighbors[d].Some?
         then [Distance(d, distanceTo(neighbors[d].value, end))] else [])
  }

  /**
   * Each distance entry is an existing neighbour's distance to the end cell,
   * and every existing neighbour has an entry.
   */
  lemma {:induction false} DistancesAreNeighbors(ds: seq<Direction>, neighbors: Neighbors, end: Hex, distanceTo: (Hex, Hex) -> int)
    ensures forall e :: e in DistancesOver(ds, neighbors, end, distanceTo) ==>
              && e.dir in ds && e.dir in neighbors && neighbors[e.dir].Some?
              && e.value == distanceTo(neighbors[e.dir].value, end)
    ensures forall d :: d in ds && d in neighbors && neighbors[d].Some? ==>
              exists e :: e in DistancesOver(ds, neighbors, end, distanceTo) && e.dir == d
    ensures (forall d :: d in ds ==> d in neighbors && neighbors[d].Some?) ==>
              |DistancesOver(ds, neighbors, end, distanceTo)| == |ds|
              && forall i :: 0 <= i < |ds| ==> DistancesOver(ds, neighbors, end, distanceTo)[i].dir == ds[i]
  {
    if ds != [] {
      var init := ds[..|ds| - 1];
      DistancesAreNeighbors(init, neighbors, end, distanceTo);
      assert ds == init + [ds[|ds| - 1]];
      var r := DistancesOver(ds, neighbors, end, distanceTo);
      var r0 := DistancesOver(init, neighbors, end, distanceTo);
      assert forall e :: e in r0 ==> e in r;
      forall d | d in ds && d in neighbors && neighbors[d].Some?
        ensures exists e :: e in r && e.dir == d
      {
        if d == ds[|ds| - 1] {
          assert r[|r| - 1] in r;
        } else {
          assert d in init;
        }
      }
      if forall d :: d in ds ==> d in neighbors && neighbors[d].Some? {
        DistancesFull(ds, neighbors, end, distanceTo);
      }
    }
  }

  /** With every neighbour present the table holds each direction's distance, at the direction's own index. */
  lemma {:induction false} DistancesFull(ds: seq<Direction>, neighbors: Neighbors, end: Hex, distanceTo: (Hex, Hex) -> int)
    requires forall d :: d in ds ==> d in neighbors && neighbors[d].Some?
    ensures |DistancesOver(ds, neighbors, end, distanceTo)| == |ds|
    ensures forall k :: 0 <= k < |ds| ==>
              DistancesOver(ds, neighbors, end, distanceTo)[k] == Distance(ds[k], distanceTo(neighbors[ds[k]].value, end))
  {
    if ds != [] {
      var init := ds[..|ds| - 1];
      assert forall d :: d in init ==> d in ds;
      DistancesFull(init, neighbors, end, distanceTo);
    }
  }

  /**
   * The entries keep the order of the directions they were measured in:
   * entry `i` is direction `at[i]` of `ds`, and the positions increase.
   */
  lemma {:induction false} DistancesInOrder(ds: seq<Direction>, neighbors: Neighbors, end: Hex, distanceTo: (Hex, Hex) -> int)
    returns (at: seq<nat>)
    ensures var r := DistancesOver(ds, neighbors, end, distanceTo);
      && |at| == |r|
      && (forall i :: 0 <= i < |r| ==> at[i] < |ds| && ds[at[i]] == r[i].dir)
      && (forall i, j :: 0 <= i < j < |r| ==> at[i] < at[j])
  {
    if ds == [] {
      at := [];
    } else {
      var init := ds[..|ds| - 1];
      var before := DistancesInOrder(init, neighbors, end, distanceTo);
      var d := ds[|ds| - 1];
      if d in neighbors && neighbors[d].Some? {
        at := before + [|ds| - 1];
      } else {
        at := before;
      }
    }
  }

  /** `smallestDistance`: starts at `int.MaxValue` and takes every smaller distance. */
  function Smallest(distances: seq<Distance>): int
  {
    if distances == [] then IntMaxValue
    else
      var s := Smallest(distances[..|distances| - 1]);
      var v := distances[|distances| - 1].value;
      if v < s then v else s
  }

  /**
   * The smallest distance is at most every entry, and with 32-bit entries
   * some entry attains it.
   */
  lemma {:induction false} SmallestIsMinimum(distances: seq<Distance>)
    ensures Smallest(distances) <= IntMaxValue
    ensures forall e :: e in distances ==> Smallest(distances) <= e.value
    ensures distances != [] && (forall e :: e in distances ==> e.value <= IntMaxValue) ==>
              exists e :: e in distances && e.value == Smallest(distances)
  {
    if distances != [] {
      var init := distances[..|distances| - 1];
      SmallestIsMinimum(init);
      assert forall e :: e in distances ==> e in init || e == distances[|distances| - 1];
      assert forall e :: e in init ==> e in distances;
    }
  }

  /**
   * `smallestDistance` over the neighbours themselves: at most the distance
   * of every existing neighbour, and the distance of one of them when some
   * neighbour exists.
   */
  lemma SmallestOverNeighbors(neighbors: Neighbors, end: Hex, distanceTo: (Hex, Hex) -> int)
    requires Bounded(distanceTo)
    ensures var s := Smallest(DistancesOver(Directions, neighbors, end, distanceTo));
      && (forall d :: d in neighbors && neighbors[d].Some? ==> s <= distanceTo(neighbors[d].value, end))
      && ((exists d :: d in neighbors && neighbors[d].Some?) ==>
            exists d :: d in neighbors && neighbors[d].Some? && distanceTo(neighbors[d].value, end) == s)
  {
    var distances := DistancesOver(Directions, neighbors, end, distanceTo);
    AllDirections();
    DistancesAreNeighbors(Directions, neighbors, end, distanceTo);
    SmallestIsMinimum(distances);
    if exists d :: d in neighbors && neighbors[d].Some? {
      var d :| d in neighbors && neighbors[d].Some?;
      var e :| e in distances && e.dir == d;
      var m :| m in distances && m.value == Smallest(distances);
      assert neighbors[m.dir].Some? && distanceTo(neighbors[m.dir].value, end) == Smallest(distances);
    }
  }

  /**
   * The `double` that `2 * 0.45 + 0.05` rounds to: 0.9500000000000001, one
   * unit in the last place above the `double` nearest 0.95.
   */
  const TwoStepChance: real := 8556839292003943.0 / 9007199254740992.0

  /**
   * `steps * 0.45 + 0.05` as the program's `double` arithmetic rounds it,
   * where rounding changes how two values compare. At zero and one step the
   * result is exactly 0.05 and 0.5; from three steps on it exceeds 1 either
   * way. At two steps the rounded result lies above the 0.95 cap.
   */
  function SkipChance(steps: int): real
  {
    if steps == 2 then TwoStepChance else steps as real * 0.45 + 0.05
  }

  /** The chance to skip a neighbour: `(d - smallest) * 0.45 + 0.05`, replaced by 0.95 above 1. */
  function Chance(distance: int, smallest: int): real
  {
    var chance := SkipChance(distance - smallest);
    if chance > 1.0 then 0.95 else chance
  }

  /**
   * From a neighbour at the smallest distance the chance is 0.05, one step
   * further 0.5, two steps further just above 0.95, and from three steps on
   * the cap of 0.95. So the chance grows up to two steps, and a neighbour two
   * steps further has the largest chance of all, above every capped one.
   */
  lemma ChanceLevels(distance: int, smallest: int, other: int)
    ensures distance == smallest ==> Chance(distance, smallest) == 0.05
    ensures distance == smallest + 1 ==> Chance(distance, smallest) == 0.5
    ensures distance == smallest + 2 ==> Chance(distance, smallest) == TwoStepChance
    ensures distance >= smallest + 3 ==> Chance(distance, smallest) == 0.95
    ensures 0.95 < TwoStepChance
    ensures smallest <= distance <= other <= smallest + 2 ==> Chance(distance, smallest) <= Chance(other, smallest)
    ensures smallest <= distance ==> Chance(distance, smallest) <= Chance(smallest + 2, smallest)
  {
  }

  /** `chances`: one entry per distance entry, in the same order. */
  function Chances(distances: seq<Distance>, smallest: int): (r: seq<Entry>)
    ensures |r| == |distances|
    ensures forall i :: 0 <= i < |r| ==> r[i] == Entry(distances[i].dir, Chance(distances[i].value, smallest))
  {
    if distances == [] then []
    else
      var last := distances[|distances| - 1];
      Chances(distances[..|distances| - 1], smallest) + [Entry(last.dir, Chance(last.value, smallest))]
  }

  /** `x` goes before the first entry whose chance is not above its own. */
  function InsertDescending(x: Entry, s: seq<Entry>): seq<Entry>
  {
    if s == [] then [x]
    else if x.chance >= s[0].chance then [x] + s
    else [s[0]] + InsertDescending(x, s[1..])
  }

  /** `chances.OrderBy(d => -d.Value)`: a stable sort by descending chance. */
  function SortDescending(entries: seq<Entry>): seq<Entry>
  {
    if entries == [] then []
    else InsertDescending(entries[0], SortDescending(entries[1..]))
  }

  /** Each entry's chance is at least the next one's. */
  predicate Descending(s: seq<Entry>)
  {
    forall i :: 0 < i < |s| ==> s[i - 1].chance >= s[i].chance
  }

  /** The entries with chance `c`, in their order. */
  function WithChance(s: seq<Entry>, c: real): seq<Entry>
  {
    if s == [] then []
    else (if s[0].chance == c then [s[0]] else []) + WithChance(s[1..], c)
  }

  lemma InsertKeeps(x: Entry, s: seq<Entry>)
    requires Descending(s)
    ensures Descending(InsertDescending(x, s))
    ensures multiset(InsertDescending(x, s)) == multiset([x] + s)
  {
    InsertSorted(x, s);
    InsertPermutes(x, s);
  }

  /** Inserting into a descending sequence keeps it descending; the head is `x` or the old head. */
  lemma {:induction false} InsertSorted(x: Entry, s: seq<Entry>)
    requires Descending(s)
    ensures Descending(InsertDescending(x, s))
    ensures |InsertDescending(x, s)| == |s| + 1
    ensures InsertDescending(x, s)[0] == x || (s != [] && InsertDescending(x, s)[0] == s[0])
  {
    if s != [] && x.chance < s[0].chance {
      var tail := s[1..];
      InsertSorted(x, tail);
      var r := InsertDescending(x, tail);
      var out := [s[0]] + r;
      assert InsertDescending(x, s) == out;
      forall i | 0 < i < |out|
        ensures out[i - 1].chance >= out[i].chance
      {
        if i > 1 {
          assert out[i - 1] == r[i - 2] && out[i] == r[i - 1];
        } else if r[0] != x {
          assert r[0] == s[1];
        }
      }
    }
  }

  /** Inserting adds `x` and loses nothing. */
  lemma {:induction false} InsertPermutes(x: Entry, s: seq<Entry>)
    ensures multiset(InsertDescending(x, s)) == multiset([x] + s)
  {
    if s != [] && x.chance < s[0].chance {
      var tail := s[1..];
      InsertPermutes(x, tail);
      assert s == [s[0]] + tail;
      assert InsertDescending(x, s) == [s[0]] + InsertDescending(x, tail);
    }
  }

  lemma {:induction false} InsertStable(x: Entry, s: seq<Entry>, c: real)
    ensures WithChance(InsertDescending(x, s), c) == WithChance([x] + s, c)
  {
    if s != [] && x.chance < s[0].chance {
      var tail := s[1..];
      InsertStable(x, tail, c);
      var r := InsertDescending(x, tail);
      assert s == [s[0]] + tail;
      WithChanceCons(s[0], r, c);
      WithChanceCons(x, tail, c);
      WithChanceCons(x, s, c);
      WithChanceCons(s[0], tail, c);
    }
  }

  lemma WithChanceCons(e: Entry, s: seq<Entry>, c: real)
    ensures WithChance([e] + s, c) == (if e.chance == c then [e] else []) + WithChance(s, c)
  {
    assert ([e] + s)[1..] == s;
  }

  lemma {:induction false} SortKeeps(entries: seq<Entry>)
    ensures Descending(SortDescending(entries))
    ensures multiset(SortDescending(entries)) == multiset(entries)
    ensures forall c :: WithChance(SortDescending(entries), c) == WithChance(entries, c)
  {
    if entries != [] {
      SortKeeps(entries[1..]);
      InsertKeeps(entries[0], SortDescending(entries[1..]));
      forall c
        ensures WithChance(SortDescending(entries), c) == WithChance(entries, c)
      {
        InsertStable(entries[0], SortDescending(entries[1..]), c);
        WithChanceCons(entries[0], SortDescending(entries[1..]), c);
        WithChanceCons(entries[0], entries[1..], c);
      }
      assert entries == [entries[0]] + entries[1..];
    }
  }

  /** A descending table is ordered across any two positions, not only neighbouring ones. */
  lemma {:induction false} DescendingPairs(s: seq<Entry>)
    requires Descending(s)
    ensures forall i, j :: 0 <= i < j < |s| ==> s[i].chance >= s[j].chance
  {
    if |s| > 1 {
      DescendingPairs(s[1..]);
      forall i, j | 0 <= i < j < |s|
        ensures s[i].chance >= s[j].chance
      {
        assert s[1..][j - 1] == s[j];
        if i > 0 {
          assert s[1..][i - 1] == s[i];
        } else {
          assert s[1..][0] == s[1];
        }
      }
    }
  }

  /**
   * In the sorted table every neighbour two steps further than the closest
   * comes before every neighbour three or more steps further, whatever the
   * direction order: rounding puts its chance above the 0.95 cap.
   */
  lemma TwoStepsBeforeCapped(distances: seq<Distance>, smallest: int)
    ensures var order := SortDescending(Chances(distances, smallest));
      forall i, j :: 0 <= i < |order| && 0 <= j < |order| && order[i].chance == TwoStepChance && order[j].chance == 0.95 ==> i < j
  {
    var order := SortDescending(Chances(distances, smallest));
    SortKeeps(Chances(distances, smallest));
    DescendingPairs(order);
    ChanceLevels(smallest, smallest, smallest);
  }

  /** What the scan over the chances did: the cell it moved to, and the draws it used. */
  datatype ScanResult = ScanResult(target: Option<Hex>, used: nat)

  /** Every entry names an existing neighbour. */
  predicate Listed(order: seq<Entry>, neighbors: Neighbors)
  {
    forall e :: e in order ==> e.dir in neighbors && neighbors[e.dir].Some?
  }

  /** The scan passes over an entry when the roll is at most its chance or its cell is already in the range. */
  predicate Skipped(e: Entry, neighbors: Neighbors, range: seq<int>, roll: Unit)
    requires e.dir in neighbors && neighbors[e.dir].Some?
  {
    roll <= e.chance || MapKey(neighbors[e.dir].value) in range
  }

  /**
   * The scan over `order` starting at draw `next`: one draw per entry, and
   * the first entry not skipped is the cell the walk moves to.
   */
  function Scan(order: seq<Entry>, neighbors: Neighbors, range: seq<int>, rolls: nat -> Unit, next: nat): ScanResult
    requires Listed(order, neighbors)
    decreases |order|
  {
    if order == [] then ScanResult(None, 0)
    else if Skipped(order[0], neighbors, range, Draw(rolls, next)) then
      assert Listed(order[1..], neighbors) by {
        forall e | e in order[1..] ensures e in order { }
      }
      var rest := Scan(order[1..], neighbors, range, rolls, next + 1);
      ScanResult(rest.target, rest.used + 1)
    else ScanResult(Some(neighbors[order[0].dir].value), 1)
  }

  /**
   * The scan moves to the first entry, in the given order, whose roll is
   * above its chance and whose cell is not in the range, after one draw for
   * it and for each entry before it; it moves nowhere only after skipping
   * every entry, one draw each.
   */
  lemma {:induction false} ScanRules(order: seq<Entry>, neighbors: Neighbors, range: seq<int>, rolls: nat -> Unit, next: nat)
    requires Listed(order, neighbors)
    ensures var r := Scan(order, neighbors, range, rolls, next);
      && (r.target.None? ==>
            && r.used == |order|
            && forall i :: 0 <= i < |order| ==> Skipped(order[i], neighbors, range, Draw(rolls, next + i)))
      && (r.target.Some? ==>
            && 1 <= r.used <= |order|
            && r.target == neighbors[order[r.used - 1].dir]
            && Draw(rolls, next + r.used - 1) > order[r.used - 1].chance
            && MapKey(r.target.value) !in range
            && forall i :: 0 <= i < r.used - 1 ==> Skipped(order[i], neighbors, range, Draw(rolls, next + i)))
    decreases |order|
  {
    if order != [] && Skipped(order[0], neighbors, range, Draw(rolls, next)) {
      assert Listed(order[1..], neighbors) by {
        forall e | e in order[1..] ensures e in order { }
      }
      ScanRules(order[1..], neighbors, range, rolls, next + 1);
      var rest := Scan(order[1..], neighbors, range, rolls, next + 1);
      forall i | 0 < i < |order| && (rest.target.None? || i < rest.used)
        ensures Skipped(order[i], neighbors, range, Draw(rolls, next + i))
      {
        assert order[1..][i - 1] == order[i];
        assert next + 1 + (i - 1) == next + i;
      }
      if rest.target.Some? {
        assert order[1..][rest.used - 1] == order[rest.used];
      }
    }
  }

  /** `neighbors.Values.All(p => p != null && range.Contains(p.MapKey()))` */
  predicate Deadlocked(neighbors: Neighbors, range: seq<int>)
  {
    forall d :: d in neighbors ==> neighbors[d].Some? && MapKey(neighbors[d].value) in range
  }

  /** The first distance entry at the smallest distance. */
  function FirstClosest(distances: seq<Distance>, smallest: int): (r: Option<Direction>)
    ensures r.Some? ==> exists e :: e in distances && e.dir == r.value && e.value == smallest
    ensures r.Some? ==> exists i :: 0 <= i < |distances| && distances[i].dir == r.value && distances[i].value == smallest
                                    && forall j :: 0 <= j < i ==> distances[j].value != smallest
    ensures r.None? ==> forall e :: e in distances ==> e.value != smallest
  {
    if distances == [] then None
    else if distances[0].value == smallest then Some(distances[0].dir)
    else FirstClosest(distances[1..], smallest)
  }

  /** `DistanceTo` returns a C# `int`. */
  ghost predicate Bounded(distanceTo: (Hex, Hex) -> int)
  {
    forall a, b :: distanceTo(a, b) <= IntMaxValue
  }

  /** The cell a walk step moves to, and the draws its scan used. */
  datatype Move = Move(next: Hex, used: nat)

  /** The entries of the distance table name existing neighbours. */
  lemma OrderListed(neighbors: Neighbors, end: Hex, distanceTo: (Hex, Hex) -> int)
    ensures var distances := DistancesOver(Directions, neighbors, end, distanceTo);
      Listed(SortDescending(Chances(distances, Smallest(distances))), neighbors)
  {
    var distances := DistancesOver(Directions, neighbors, end, distanceTo);
    var chances := Chances(distances, Smallest(distances));
    DistancesAreNeighbors(Directions, neighbors, end, distanceTo);
    SortKeeps(chances);
    forall e | e in SortDescending(chances)
      ensures e.dir in neighbors && neighbors[e.dir].Some?
    {
      assert e in multiset(SortDescending(chances));
      assert e in chances;
      var i :| 0 <= i < |chances| && chances[i] == e;
      assert distances[i] in distances;
    }
  }

  /**
   * One step of the walk after the upgrade: measure the distances of the
   * existing neighbours, turn them into chances, jump to the first closest
   * neighbour when every neighbour exists and is already in the range, then
   * scan the chances in descending order.
   */
  function NextMove(current: Hex, neighbors: Neighbors, end: Hex, range: seq<int>,
                    distanceTo: (Hex, Hex) -> int, rolls: nat -> Unit, next: nat): Move
  {
    var distances := DistancesOver(Directions, neighbors, end, distanceTo);
    var smallest := Smallest(distances);
    var closest := FirstClosest(distances, smallest);
    var jumped :=
      if Deadlocked(neighbors, range) && closest.Some? && closest.value in neighbors && neighbors[closest.value].Some?
      then neighbors[closest.value].value else current;
    var order := SortDescending(Chances(distances, smallest));
    // every entry names an existing neighbour (OrderListed), so the scan always runs
    var scan := if Listed(order, neighbors) then Scan(order, neighbors, range, rolls, next) else ScanResult(None, 0);
    Move(if scan.target.Some? then scan.target.value else jumped, scan.used)
  }

  /**
   * The move rules. The walk stays or moves to a neighbour. When every
   * neighbour exists and is in the range, the scan skips them all and the
   * walk jumps to a neighbour at the smallest distance, which is in the
   * range. Otherwise it either stays or moves to a neighbour not in the range.
   */
  lemma MoveRules(current: Hex, neighbors: Neighbors, end: Hex, range: seq<int>,
                  distanceTo: (Hex, Hex) -> int, rolls: nat -> Unit, next: nat)
    requires forall d :: d in neighbors
    requires Bounded(distanceTo)
    ensures var m := NextMove(current, neighbors, end, range, distanceTo, rolls, next);
      && (m.next == current || exists d :: neighbors[d] == Some(m.next))
      && (Deadlocked(neighbors, range) ==>
            && MapKey(m.next) in range
            && exists d :: neighbors[d] == Some(m.next)
                           && distanceTo(m.next, end) == Smallest(DistancesOver(Directions, neighbors, end, distanceTo)))
      && (!Deadlocked(neighbors, range) && m.next != current ==> MapKey(m.next) !in range)
    ensures var m := NextMove(current, neighbors, end, range, distanceTo, rolls, next);
            var smallest := Smallest(DistancesOver(Directions, neighbors, end, distanceTo));
      Deadlocked(neighbors, range) ==>
        exists i :: FirstAtDistance(Directions, neighbors, end, distanceTo, i, smallest)
                    && neighbors[Directions[i]] == Some(m.next)
  {
    var distances := DistancesOver(Directions, neighbors, end, distanceTo);
    var smallest := Smallest(distances);
    var order := SortDescending(Chances(distances, smallest));
    OrderListed(neighbors, end, distanceTo);
    var scan := Scan(order, neighbors, range, rolls, next);
    if Deadlocked(neighbors, range) {
      assert scan.target.None? by {
        DistancesAreNeighbors(Directions, neighbors, end, distanceTo);
        ScanRules(order, neighbors, range, rolls, next);
        if scan.target.Some? {
          assert false;
        }
      }
      AllDirections();
      assert forall d :: d in Directions ==> d in neighbors && neighbors[d].Some?;
      ClosestIsFirstDirection(Directions, neighbors, end, distanceTo);
      assert FirstClosest(distances, smallest).Some? by {
        DistancesAreNeighbors(Directions, neighbors, end, distanceTo);
        SmallestIsMinimum(distances);
        assert distances[0] in distances;
      }
      var i :| FirstAtDistance(Directions, neighbors, end, distanceTo, i, smallest)
               && FirstClosest(distances, smallest) == Some(Directions[i]);
      var m := NextMove(current, neighbors, end, range, distanceTo, rolls, next);
      assert neighbors[Directions[i]] == Some(m.next);
    } else {
      DistancesAreNeighbors(Directions, neighbors, end, distanceTo);
      ScanRules(order, neighbors, range, rolls, next);
      if scan.target.Some? {
        assert order[scan.used - 1] in order;
      }
    }
  }

  /**
   * With all six neighbours present, the first closest entry is the first
   * direction, in NE, E, SE, SW, W, NW order, whose neighbour is at the
   * smallest distance.
   */
  lemma ClosestIsFirstDirection(ds: seq<Direction>, neighbors: Neighbors, end: Hex, distanceTo: (Hex, Hex) -> int)
    requires forall d :: d in ds ==> d in neighbors && neighbors[d].Some?
    ensures var distances := DistancesOver(ds, neighbors, end, distanceTo);
            var smallest := Smallest(distances);
      FirstClosest(distances, smallest).Some? ==>
        exists i :: FirstAtDistance(ds, neighbors, end, distanceTo, i, smallest)
                    && FirstClosest(distances, smallest) == Some(ds[i])
  {
    var distances := DistancesOver(ds, neighbors, end, distanceTo);
    var smallest := Smallest(distances);
    DistancesFull(ds, neighbors, end, distanceTo);
    var closest := FirstClosest(distances, smallest);
    if closest.Some? {
      var i :| 0 <= i < |distances| && distances[i].dir == closest.value && distances[i].value == smallest
               && forall j :: 0 <= j < i ==> distances[j].value != smallest;
      assert FirstAtDistance(ds, neighbors, end, distanceTo, i, smallest);
    }
  }

  /**
   * `ds[i]` is the first direction in `ds` whose neighbour lies at distance
   * `smallest` from the end cell; the neighbours before it all exist.
   */
  ghost predicate FirstAtDistance(ds: seq<Direction>, neighbors: Neighbors, end: Hex, distanceTo: (Hex, Hex) -> int,
                                  i: int, smallest: int)
  {
    && 0 <= i < |ds|
    && (forall j :: 0 <= j <= i ==> ds[j] in neighbors && neighbors[ds[j]].Some?)
    && distanceTo(neighbors[ds[i]].value, end) == smallest
    && forall j :: 0 <= j < i ==> distanceTo(neighbors[ds[j]].value, end) != smallest
  }

  /** The `foreach` over the neighbours that fills `distances` and `smallestDistance`. */
  method MeasureDistances(neighbors: Neighbors, end: Hex, distanceTo: (Hex, Hex) -> int)
    returns (distances: seq<Distance>, smallest: int)
    ensures distances == DistancesOver(Directions, neighbors, end, distanceTo)
    ensures smallest == Smallest(distances)
  {
    distances := [];
    smallest := IntMaxValue;
    for i := 0 to |Directions|
      invariant distances == DistancesOver(Directions[..i], neighbors, end, distanceTo)
      invariant smallest == Smallest(distances)
    {
      assert Directions[..i + 1][..i] == Directions[..i];
      var d := Directions[i];
      if d in neighbors && neighbors[d].Some? {
        var distance := distanceTo(neighbors[d].value, end);
        if distance < smallest {
          smallest := distance;
        }
        assert (distances + [Distance(d, distance)])[..|distances|] == distances;
        distances := distances + [Distance(d, distance)];
      }
    }
    assert Directions[..|Directions|] == Directions;
  }

  /** The `foreach` over `distances` that fills `chances`. */
  method ChanceTable(distances: seq<Distance>, smallest: int) returns (chances: seq<Entry>)
    ensures chances == Chances(distances, smallest)
  {
    chances := [];
    for i := 0 to |distances|
      invariant chances == Chances(distances[..i], smallest)
    {
      assert distances[..i + 1][..i] == distances[..i];
      var chance := SkipChance(distances[i].value - smallest);
      if chance > 1.0 {
        chance := 0.95;
      }
      chances := chances + [Entry(distances[i].dir, chance)];
    }
    assert distances[..|distances|] == distances;
  }

  /** How a mountain walk ended: at the end cell, out of fuel, or with an exception. */
  datatype Walk = Arrived | OutOfFuel | Threw(error: Exception)

  /** The keys of a sequence of cells. */
  ghost function KeysOf(s: seq<Hex>): set<int>
  {
    set h | h in s :: MapKey(h)
  }

  /** What a `GetRandomHex` call that starts at draw `b` returns. */
  ghost function Picked(grid: Grid, rolls: nat -> Unit, b: nat): Result<Option<Hex>, Exception>
    requires grid.Shape()
  {
    grid.RandomHexAt(Draw(rolls, b), Draw(rolls, b + 1))
  }

  /** `picks` are what consecutive `GetRandomHex` calls from draw `start` returned, two draws each. */
  ghost predicate PickedRun(grid: Grid, rolls: nat -> Unit, start: nat, picks: seq<Hex>)
    requires grid.Shape()
  {
    forall j :: 0 <= j < |picks| ==> Picked(grid, rolls, start + 2 * j) == Success(Some(picks[j]))
  }

  /**
   * One refinement round that starts from `before` at draw `mark`: `Seeds`
   * cells picked with the draws from `mark` on, then the sweep from those
   * seeds with the draws after them, ending with `after` at draw `next`.
   */
  ghost predicate Round(grid: Grid, rolls: nat -> Unit, before: map<int, TileState>, mark: nat,
                        seeds: seq<Hex>, processed: seq<Hex>, after: map<int, TileState>, next: nat)
    requires grid.Shape()
  {
    && |seeds| == Seeds && PickedRun(grid, rolls, mark, seeds)
    && (forall h :: h in seeds ==> grid.IsCell(h))
    && SweepFrom(grid, before, seeds, {}, rolls, mark + 2 * Seeds) == Swept(after, processed)
    && next == mark + 2 * Seeds + |processed|
  }

  /**
   * `CellularGenerator`'s refinement rounds: round `i` turns `states[i]` at
   * draw `marks[i]` into `states[i + 1]` at draw `marks[i + 1]`.
   */
  ghost predicate Rounds(grid: Grid, rolls: nat -> Unit, states: seq<map<int, TileState>>, marks: seq<nat>,
                         seeds: seq<seq<Hex>>, rounds: seq<seq<Hex>>)
    requires grid.Shape()
  {
    && |states| == |marks| == |seeds| + 1 && |rounds| == |seeds|
    && forall i {:trigger seeds[i]} :: 0 <= i < |seeds| ==>
         Round(grid, rolls, states[i], marks[i], seeds[i], rounds[i], states[i + 1], marks[i + 1])
  }

  /** The draws a sequence of rounds takes: two per seed and one per processed cell, in each round. */
  function RoundDraws(rounds: seq<seq<Hex>>): nat
  {
    if rounds == [] then 0 else RoundDraws(rounds[..|rounds| - 1]) + 2 * Seeds + |rounds[|rounds| - 1]|
  }

  /** The rounds together take exactly `RoundDraws` draws after the first mark. */
  lemma {:induction false} RoundsDraw(grid: Grid, rolls: nat -> Unit, states: seq<map<int, TileState>>, marks: seq<nat>,
                                      seeds: seq<seq<Hex>>, rounds: seq<seq<Hex>>)
    requires grid.Shape() && Rounds(grid, rolls, states, marks, seeds, rounds)
    ensures marks[|seeds|] == marks[0] + RoundDraws(rounds)
    decreases |seeds|
  {
    if seeds != [] {
      var n := |seeds| - 1;
      RoundsPrefix(grid, rolls, states, marks, seeds, rounds);
      RoundsDraw(grid, rolls, states[..n + 1], marks[..n + 1], seeds[..n], rounds[..n]);
      assert Round(grid, rolls, states[n], marks[n], seeds[n], rounds[n], states[n + 1], marks[n + 1]);
    }
  }

  /** Dropping the last round leaves a chain of rounds. */
  lemma RoundsPrefix(grid: Grid, rolls: nat -> Unit, states: seq<map<int, TileState>>, marks: seq<nat>,
                     seeds: seq<seq<Hex>>, rounds: seq<seq<Hex>>)
    requires grid.Shape() && Rounds(grid, rolls, states, marks, seeds, rounds) && seeds != []
    ensures var n := |seeds| - 1;
            Rounds(grid, rolls, states[..n + 1], marks[..n + 1], seeds[..n], rounds[..n])
  {
    var n := |seeds| - 1;
    forall i | 0 <= i < n
      ensures Round(grid, rolls, states[..n + 1][i], marks[..n + 1][i], seeds[..n][i], rounds[..n][i],
                    states[..n + 1][i + 1], marks[..n + 1][i + 1])
    {
      assert seeds[i] == seeds[..n][i];
    }
  }

  /** One more round, from where the last one ended. */
  lemma RoundsExtend(grid: Grid, rolls: nat -> Unit, states: seq<map<int, TileState>>, marks: seq<nat>,
                     seeds: seq<seq<Hex>>, rounds: seq<seq<Hex>>,
                     picks: seq<Hex>, processed: seq<Hex>, after: map<int, TileState>, next: nat)
    requires grid.Shape() && Rounds(grid, rolls, states, marks, seeds, rounds)
    requires Round(grid, rolls, states[|states| - 1], marks[|marks| - 1], picks, processed, after, next)
    ensures Rounds(grid, rolls, states + [after], marks + [next], seeds + [picks], rounds + [processed])
  {
    var states', marks' := states + [after], marks + [next];
    var seeds', rounds' := seeds + [picks], rounds + [processed];
    forall i | 0 <= i < |seeds'|
      ensures Round(grid, rolls, states'[i], marks'[i], seeds'[i], rounds'[i], states'[i + 1], marks'[i + 1])
    {
      if i < |seeds| {
        assert seeds[i] == seeds'[i];
      }
    }
  }

  /** A run of picks extended by the one that starts right after it. */
  lemma PickedExtends(grid: Grid, rolls: nat -> Unit, start: nat, picks: seq<Hex>, b: nat, next: Hex)
    requires grid.Shape() && b == start + 2 * |picks|
    requires PickedRun(grid, rolls, start, picks)
    requires Picked(grid, rolls, b) == Success(Some(next))
    ensures PickedRun(grid, rolls, start, picks + [next])
  {
    forall j | 0 <= j < |picks| + 1
      ensures Picked(grid, rolls, start + 2 * j) == Success(Some((picks + [next])[j]))
    {
      if j < |picks| {
        assert (picks + [next])[j] == picks[j];
      } else {
        assert start + 2 * j == b;
      }
    }
  }

  /** Every tile has its derived fields right. */
  ghost predicate AllWellFormed(tiles: map<int, TileState>)
  {
    forall k :: k in tiles ==> WellFormed(tiles[k])
  }

  class MapGenerator {
    /** `_random`, handed in instead of created. */
    const random: Random

    constructor (random: Random)
      ensures this.random == random
    {
      this.random := random;
    }

    /**
     * The first pass of `CellularGenerator`: one roll per cell, in the order
     * `GetAllCells` lists them; a roll at or above `waterPercentage` gives the
     * cell a new Desert tile, any other roll leaves it alone.
     */
    method FillDeserts(grid: Grid, waterPercentage: real) returns (order: seq<Hex>)
      requires grid.Valid()
      modifies grid`tiles, random`drawn
      ensures grid.Valid()
      ensures Distinct(order) && (forall h :: h in order <==> grid.IsCell(h)) && |order| == |grid.cells|
      ensures random.drawn == old(random.drawn) + |order|
      ensures grid.tiles == Seeding(old(grid.tiles), order, random.stream, old(random.drawn), waterPercentage, |order|)
    {
      order := grid.GetAllCells();
      SeedEach(grid, order, waterPercentage);
    }

    /** The loop of the first pass over the listed cells. */
    method SeedEach(grid: Grid, order: seq<Hex>, waterPercentage: real)
      requires grid.Valid() && forall h :: h in order ==> grid.IsCell(h)
      modifies grid`tiles, random`drawn
      ensures grid.Valid()
      ensures random.drawn == old(random.drawn) + |order|
      ensures grid.tiles == Seeding(old(grid.tiles), order, random.stream, old(random.drawn), waterPercentage, |order|)
    {
      ghost var tiles0 := grid.tiles;
      ghost var start := random.drawn;
      for i := 0 to |order|
        invariant grid.Valid()
        invariant random.drawn == start + i
        invariant grid.tiles == Seeding(tiles0, order, random.stream, start, waterPercentage, i)
      {
        assert order[i] in order;
        SeedingNext(tiles0, order, random.stream, start, waterPercentage, i, random.drawn);
        SeedCell(grid, order[i], waterPercentage);
      }
    }

    /** The loop body of the first pass: one roll, and a new Desert tile when it is at or above the water share. */
    method SeedCell(grid: Grid, hex: Hex, waterPercentage: real)
      requires grid.Valid() && grid.IsCell(hex)
      modifies grid`tiles, random`drawn
      ensures grid.Valid()
      ensures random.drawn == old(random.drawn) + 1
      ensures grid.tiles == old(grid.tiles)[MapKey(hex) :=
                Seeded(old(grid.tiles)[MapKey(hex)], Draw(random.stream, old(random.drawn)), waterPercentage)]
    {
      NewTileKnown();
      var roll := random.NextDouble();
      if roll >= waterPercentage {
        grid.SetTile(hex, NewTile(Desert).value);
      } else {
        assert grid.tiles == grid.tiles[MapKey(hex) := grid.tiles[MapKey(hex)]];
      }
    }

    /**
     * The loop body of `CellularAutomata` for an unvisited cell: count the
     * neighbours of the same type, draw once, and flip the tile when the
     * roll is at most the chance.
     */
    method ProcessCell(grid: Grid, hex: Hex) returns (neighbors: Neighbors)
      requires grid.Valid() && grid.IsCell(hex)
      modifies grid`tiles, grid`neighborCache, random`drawn
      ensures grid.Valid()
      ensures neighbors == grid.NeighborsOf(hex)
      ensures random.drawn == old(random.drawn) + 1
      ensures var tile := old(grid.tiles)[MapKey(hex)];
              grid.tiles == old(grid.tiles)[MapKey(hex) :=
                Refined(tile, CountSame(old(grid.tiles), neighbors, tile.kind, Directions), Draw(random.stream, old(random.drawn)))]
    {
      neighbors := grid.GetNeighbors(hex);
      var tile := grid.tiles[MapKey(hex)];
      var sameTypeCount := CountSame(grid.tiles, neighbors, tile.kind, Directions);
      var chanceToChange := FlipChance(sameTypeCount);
      var roll := random.NextDouble();
      if roll <= chanceToChange {
        grid.SetTile(hex, Changed(tile, Flip(tile.kind)).tile);
      } else {
        assert grid.tiles == grid.tiles[MapKey(hex) := tile];
      }
    }

    /** The `foreach` that enqueues the existing, unvisited neighbours. */
    method EnqueueNeighbors(queue: seq<Hex>, neighbors: Neighbors, visited: set<int>) returns (q: seq<Hex>)
      ensures q == queue + Unvisited(neighbors, visited, Directions)
    {
      q := queue;
      for i := 0 to |Directions|
        invariant q == queue + Unvisited(neighbors, visited, Directions[..i])
      {
        assert Directions[..i + 1][..i] == Directions[..i];
        var d := Directions[i];
        if d in neighbors && neighbors[d].Some? && MapKey(neighbors[d].value) !in visited {
          q := q + [neighbors[d].value];
        }
      }
      assert Directions[..|Directions|] == Directions;
    }

    /**
     * One refinement round (`CellularAutomata`): four random seed cells,
     * then a breadth-first sweep in which each cell is processed at most once.
     * A processed cell keeps its tile or has it flipped; no other tile changes.
     * On a grid without rows the first seed throws.
     */
    method CellularAutomata(grid: Grid) returns (error: Option<Exception>, ghost seeds: seq<Hex>, ghost processed: seq<Hex>)
      requires grid.Valid()
      modifies grid`tiles, grid`neighborCache, random`drawn
      ensures grid.Valid()
      ensures error.Some? <==> grid.TopBorder > grid.BottomBorder
      ensures error.Some? ==>
                && error.value == ArgumentOutOfRangeException
                && grid.tiles == old(grid.tiles) && random.drawn == old(random.drawn)
      ensures error.None? ==>
                && Distinct(processed) && (forall h :: h in processed ==> grid.IsCell(h))
                && random.drawn == old(random.drawn) + 2 * Seeds + |processed|
                && |processed| >= 1
                && grid.RandomHexAt(Draw(random.stream, old(random.drawn)), Draw(random.stream, old(random.drawn) + 1)) == Success(Some(processed[0]))
                && FlippedOnly(old(grid.tiles), grid.tiles, KeysOf(processed))
      ensures error.None? ==>
                && Round(grid, random.stream, old(grid.tiles), old(random.drawn), seeds, processed, grid.tiles, random.drawn)
                && forall h :: h in seeds ==> MapKey(h) in KeysOf(processed)
    {
      ghost var start := random.drawn;
      var picked := PickCells(grid, Seeds);
      if picked.Failure? {
        return Some(picked.error), [], [];
      }
      assert Picked(grid, random.stream, start) == Success(Some(picked.value[0]));
      seeds := picked.value;
      processed := Sweep(grid, picked.value);
      error := None;
    }

    /**
     * The `while` loop of `CellularAutomata`: dequeue a cell, skip it when
     * visited, otherwise process it, mark it visited and enqueue its
     * unvisited neighbours. The first seed is processed first, every seed
     * is processed, each cell at most once, and only processed cells may
     * change, each kept or flipped.
     */
    method Sweep(grid: Grid, seeds: seq<Hex>) returns (ghost processed: seq<Hex>)
      requires grid.Valid() && |seeds| > 0 && forall h :: h in seeds ==> grid.IsCell(h)
      modifies grid`tiles, grid`neighborCache, random`drawn
      ensures grid.Valid()
      ensures SweepFrom(grid, old(grid.tiles), seeds, {}, random.stream, old(random.drawn)) == Swept(grid.tiles, processed)
      ensures random.drawn == old(random.drawn) + |processed|
      ensures Distinct(processed) && (forall h :: h in processed ==> grid.IsCell(h))
      ensures |processed| >= 1 && processed[0] == seeds[0]
      ensures forall h :: h in seeds ==> MapKey(h) in KeysOf(processed)
      ensures FlippedOnly(old(grid.tiles), grid.tiles, KeysOf(processed))
    {
      var queue := seeds;
      var visited: set<int> := {};
      processed := [];
      ghost var whole := SweepFrom(grid, grid.tiles, seeds, {}, random.stream, random.drawn);
      while |queue| > 0
        invariant grid.Valid()
        invariant (forall h :: h in queue ==> grid.IsCell(h)) && visited <= grid.cells.Keys
        invariant random.drawn == old(random.drawn) + |processed|
        invariant var rest := SweepFrom(grid, grid.tiles, queue, visited, random.stream, random.drawn);
                  whole == Swept(rest.tiles, processed + rest.processed)
        decreases |grid.cells.Keys - visited|, |queue|
      {
        var hex := queue[0];
        ghost var before, tiles, b := queue, grid.tiles, random.drawn;
        QueueSplits(grid, queue);
        queue := queue[1..];
        if MapKey(hex) in visited {
          SweepFromSkips(grid, tiles, before, visited, random.stream, b);
          continue;
        }
        NewKeyShrinks(grid.cells.Keys, visited, MapKey(hex));
        ghost var visitedBefore := visited;
        queue, visited := SweepCell(grid, hex, queue, visited);
        SweepTakeKeeps(grid, whole, processed, tiles, before, visitedBefore, random.stream, b, grid.tiles, queue, visited, random.drawn);
        processed := processed + [hex];
      }
      SweptCells(grid, old(grid.tiles), seeds, {}, random.stream, old(random.drawn));
      SweptFlips(grid, old(grid.tiles), seeds, {}, random.stream, old(random.drawn));
      SweptCovers(grid, old(grid.tiles), seeds, {}, random.stream, old(random.drawn));
      SweepFromTakes(grid, old(grid.tiles), seeds, {}, random.stream, old(random.drawn));
    }

    /**
     * A sweep step on an unvisited cell: process it, mark it visited and
     * enqueue its unvisited neighbours.
     */
    method SweepCell(grid: Grid, hex: Hex, queue: seq<Hex>, visited: set<int>)
      returns (queue': seq<Hex>, visited': set<int>)
      requires grid.Valid() && grid.IsCell(hex) && forall h :: h in queue ==> grid.IsCell(h)
      modifies grid`tiles, grid`neighborCache, random`drawn
      ensures grid.Valid()
      ensures random.drawn == old(random.drawn) + 1
      ensures visited' == visited + {MapKey(hex)}
      ensures queue' == queue + Unvisited(grid.NeighborsOf(hex), visited', Directions)
      ensures forall h :: h in queue' ==> grid.IsCell(h)
      ensures grid.tiles == RefinedAt(grid, old(grid.tiles), hex, Draw(random.stream, old(random.drawn)))
    {
      var neighbors := ProcessCell(grid, hex);
      visited' := visited + {MapKey(hex)};
      EnqueuedAreCells(grid, hex, visited');
      queue' := EnqueueNeighbors(queue, neighbors, visited');
    }

    /** One `GetRandomHex` call, starting at draw `b`. */
    method PickOne(grid: Grid, ghost b: nat) returns (hex: Result<Option<Hex>, Exception>)
      requires grid.Shape() && random.drawn == b
      modifies random`drawn
      ensures hex == Picked(grid, random.stream, b)
      ensures hex.Success? ==> hex.value.Some? && grid.IsCell(hex.value.value)
      ensures hex.Success? <==> grid.TopBorder <= grid.BottomBorder
      ensures hex.Failure? ==> hex.error == ArgumentOutOfRangeException
      ensures random.drawn == old(random.drawn) + if hex.Success? then 2 else 0
    {
      hex := grid.GetRandomHex(random);
      grid.RandomHexIsCell(Draw(random.stream, b), Draw(random.stream, b + 1));
    }

    /**
     * `count` successive `GetRandomHex` calls, two draws each: the four seeds
     * of a refinement round, or the start and end cells of a mountain walk.
     */
    method PickCells(grid: Grid, count: nat) returns (r: Result<seq<Hex>, Exception>)
      requires grid.Shape() && count > 0
      modifies random`drawn
      ensures r.Failure? <==> grid.TopBorder > grid.BottomBorder
      ensures r.Failure? ==> r.error == ArgumentOutOfRangeException && random.drawn == old(random.drawn)
      ensures r.Success? ==>
                && |r.value| == count
                && random.drawn == old(random.drawn) + 2 * count
                && PickedRun(grid, random.stream, old(random.drawn), r.value)
                && forall h :: h in r.value ==> grid.IsCell(h)
    {
      ghost var start := random.drawn;
      var queue: seq<Hex> := [];
      for i := 0 to count
        invariant |queue| == i
        invariant random.drawn == start + 2 * i
        invariant i > 0 ==> grid.TopBorder <= grid.BottomBorder
        invariant PickedRun(grid, random.stream, start, queue)
        invariant forall h :: h in queue ==> grid.IsCell(h)
      {
        var hex := PickOne(grid, start + 2 * i);
        if hex.Failure? {
          return Failure(hex.error);
        }
        PickedExtends(grid, random.stream, start, queue, start + 2 * i, hex.value.value);
        queue := queue + [hex.value.value];
      }
      r := Success(queue);
    }

    /**
     * `CellularGenerator(grid, waterPercentage)`: the Desert fill over the
     * listed cells, then ten refinement rounds, each starting where the
     * previous one ended. Both passes produce only well-formed Ocean and
     * Desert tiles, so a grid whose tiles are well formed stays so.
     */
    method CellularGenerator(grid: Grid, waterPercentage: real)
      returns (error: Option<Exception>, ghost order: seq<Hex>, ghost states: seq<map<int, TileState>>,
               ghost marks: seq<nat>, ghost seeds: seq<seq<Hex>>, ghost rounds: seq<seq<Hex>>)
      requires grid.Valid()
      modifies grid`tiles, grid`neighborCache, random`drawn
      ensures grid.Valid()
      ensures error.Some? <==> grid.TopBorder > grid.BottomBorder
      ensures error.Some? ==>
                && error.value == ArgumentOutOfRangeException
                && grid.tiles == old(grid.tiles) && random.drawn == old(random.drawn)
      ensures error.None? ==>
                && Distinct(order) && (forall h :: h in order <==> grid.IsCell(h))
                && Rounds(grid, random.stream, states, marks, seeds, rounds) && |rounds| == Refine
                && states[0] == Seeding(old(grid.tiles), order, random.stream, old(random.drawn), waterPercentage, |order|)
                && marks[0] == old(random.drawn) + |order|
                && grid.tiles == states[Refine] && random.drawn == marks[Refine]
                && random.drawn == old(random.drawn) + |order| + RoundDraws(rounds)
                && forall r :: r in rounds ==> Distinct(r)
      ensures AllWellFormed(old(grid.tiles)) ==> AllWellFormed(grid.tiles)
    {
      grid.CellsAreCells();
      order := FillDeserts(grid, waterPercentage);
      if grid.TopBorder > grid.BottomBorder {
        grid.NoRowsNoCells();
      }
      SeedingWellFormed(old(grid.tiles), order, random.stream, old(random.drawn), waterPercentage, |order|);
      states, marks, seeds, rounds := [grid.tiles], [random.drawn], [], [];
      for i := 0 to Refine
        invariant grid.Valid()
        invariant Rounds(grid, random.stream, states, marks, seeds, rounds) && |rounds| == i
        invariant states[0] == Seeding(old(grid.tiles), order, random.stream, old(random.drawn), waterPercentage, |order|)
        invariant marks[0] == old(random.drawn) + |order|
        invariant grid.tiles == states[i] && random.drawn == marks[i]
        invariant forall r :: r in rounds ==> Distinct(r)
        invariant AllWellFormed(old(grid.tiles)) ==> AllWellFormed(grid.tiles)
        invariant grid.TopBorder > grid.BottomBorder ==> i == 0 && grid.tiles == old(grid.tiles) && random.drawn == old(random.drawn)
      {
        var e;
        e, states, marks, seeds, rounds := RefineRound(grid, states, marks, seeds, rounds);
        if e.Some? {
          return e, order, states, marks, seeds, rounds;
        }
      }
      RoundsDraw(grid, random.stream, states, marks, seeds, rounds);
      error := None;
    }

    /** One pass of the refinement loop: a `CellularAutomata` round appended to the rounds so far. */
    method RefineRound(grid: Grid, ghost states: seq<map<int, TileState>>, ghost marks: seq<nat>,
                       ghost seeds: seq<seq<Hex>>, ghost rounds: seq<seq<Hex>>)
      returns (error: Option<Exception>, ghost states': seq<map<int, TileState>>, ghost marks': seq<nat>,
               ghost seeds': seq<seq<Hex>>, ghost rounds': seq<seq<Hex>>)
      requires grid.Valid() && Rounds(grid, random.stream, states, marks, seeds, rounds)
      requires grid.tiles == states[|rounds|] && random.drawn == marks[|rounds|]
      modifies grid`tiles, grid`neighborCache, random`drawn
      ensures grid.Valid()
      ensures error.Some? <==> grid.TopBorder > grid.BottomBorder
      ensures error.Some? ==>
                && error.value == ArgumentOutOfRangeException
                && grid.tiles == old(grid.tiles) && random.drawn == old(random.drawn)
                && states' == states && marks' == marks && seeds' == seeds && rounds' == rounds
      ensures error.None? ==>
                && states' == states + [grid.tiles] && marks' == marks + [random.drawn]
                && |seeds'| == |seeds| + 1 && |rounds'| == |rounds| + 1
                && seeds' == seeds + [seeds'[|seeds|]] && rounds' == rounds + [rounds'[|rounds|]]
                && Rounds(grid, random.stream, states', marks', seeds', rounds')
                && Distinct(rounds'[|rounds|])
      ensures AllWellFormed(old(grid.tiles)) ==> AllWellFormed(grid.tiles)
    {
      var e, picks, processed := CellularAutomata(grid);
      if e.Some? {
        return e, states, marks, seeds, rounds;
      }
      FlippedStaysWellFormed(old(grid.tiles), grid.tiles, KeysOf(processed));
      RoundsExtend(grid, random.stream, states, marks, seeds, rounds, picks, processed, grid.tiles, random.drawn);
      error := None;
      states', marks' := states + [grid.tiles], marks + [random.drawn];
      seeds', rounds' := seeds + [picks], rounds + [processed];
    }

    /**
     * The scan over the chances in descending order: one draw per entry,
     * moving to the first neighbour whose roll is above its chance and
     * which is not in the range.
     */
    method ScanMoves(order: seq<Entry>, neighbors: Neighbors, range: seq<int>) returns (target: Option<Hex>)
      requires Listed(order, neighbors)
      modifies random`drawn
      ensures var r := Scan(order, neighbors, range, random.stream, old(random.drawn));
              target == r.target && random.drawn == old(random.drawn) + r.used
    {
      var i := 0;
      while i < |order|
        invariant 0 <= i <= |order|
        invariant random.drawn == old(random.drawn) + i
        invariant Listed(order[i..], neighbors)
        invariant var rest := Scan(order[i..], neighbors, range, random.stream, random.drawn);
                  Scan(order, neighbors, range, random.stream, old(random.drawn)) == ScanResult(rest.target, rest.used + i)
      {
        var e := order[i];
        assert e in order[i..];
        var roll := random.NextDouble();
        if roll <= e.chance || MapKey(neighbors[e.dir].value) in range {
          assert order[i..][1..] == order[i + 1..];
          i := i + 1;
        } else {
          return Some(neighbors[e.dir].value);
        }
      }
      target := None;
    }

    /**
     * The upgrade of the current cell: a Desert cell draws once and asks
     * `ChangeTile` for Mountain or Hill by the roll; any other cell is left
     * alone without a draw. `thrown` reports the exception `ChangeTile`
     * raises.
     */
    method RaiseAt(grid: Grid, current: Hex) returns (thrown: bool)
      requires grid.Valid() && grid.IsCell(current)
      modifies grid`tiles, random`drawn
      ensures grid.Valid()
      ensures var tile := old(grid.tiles)[MapKey(current)];
        if tile.kind != Desert then
          !thrown && grid.tiles == old(grid.tiles) && random.drawn == old(random.drawn)
        else
          && random.drawn == old(random.drawn) + 1
          && var upgrade := Upgrade(Draw(random.stream, old(random.drawn)));
             if upgrade.None? then !thrown && grid.tiles == old(grid.tiles)
             else
               && thrown == Changed(tile, upgrade.value).thrown
               && grid.tiles == old(grid.tiles)[MapKey(current) := Changed(tile, upgrade.value).tile]
    {
      var tile := grid.tiles[MapKey(current)];
      thrown := false;
      if tile.kind == Desert {
        var chance := random.NextDouble();
        if chance <= 0.2 {
          var change := Changed(tile, Mountain);
          grid.SetTile(current, change.tile);
          thrown := change.thrown;
        } else if chance <= 0.4 {
          var change := Changed(tile, Hill);
          grid.SetTile(current, change.tile);
          thrown := change.thrown;
        }
      }
    }

    /**
     * The move part of a walk step: distances, chances, the jump out of a
     * dead end, then the scan; the result is the step function `NextMove`.
     */
    method MoveFrom(grid: Grid, current: Hex, end: Hex, range: seq<int>, distanceTo: (Hex, Hex) -> int)
      returns (next: Hex)
      requires grid.Valid() && grid.IsCell(current)
      modifies grid`neighborCache, random`drawn
      ensures grid.Valid()
      ensures var m := NextMove(current, grid.NeighborsOf(current), end, range, distanceTo, random.stream, old(random.drawn));
              next == m.next && random.drawn == old(random.drawn) + m.used
    {
      var neighbors := grid.GetNeighbors(current);
      var distances, smallest := MeasureDistances(neighbors, end, distanceTo);
      var chances := ChanceTable(distances, smallest);
      next := current;
      if Deadlocked(neighbors, range) {
        var closest := FirstClosest(distances, smallest);
        if closest.Some? {
          DistancesAreNeighbors(Directions, neighbors, end, distanceTo);
          next := neighbors[closest.value].value;
        }
      }
      OrderListed(neighbors, end, distanceTo);
      var target := ScanMoves(SortDescending(chances), neighbors, range);
      if target.Some? {
        next := target.value;
      }
    }

    /**
     * The body of the walk loop after `range.Add`: the upgrade, and when it
     * does not throw, the move. A Desert cell takes one draw for its upgrade
     * and throws exactly when that roll is at most 0.4; `mark` is the draw at
     * which the move's scan starts.
     */
    method WalkStep(grid: Grid, current: Hex, end: Hex, range: seq<int>, distanceTo: (Hex, Hex) -> int)
      returns (thrown: bool, next: Hex, ghost mark: nat)
      requires grid.Valid() && grid.IsCell(current) && Bounded(distanceTo)
      modifies grid`tiles, grid`neighborCache, random`drawn
      ensures grid.Valid()
      ensures var tile := old(grid.tiles)[MapKey(current)];
              var roll := Draw(random.stream, old(random.drawn));
              && mark == old(random.drawn) + UpgradeDraws(tile)
              && (thrown <==> Upgrades(tile, roll))
              && (thrown ==>
                    && random.drawn == mark
                    && grid.tiles == old(grid.tiles)[MapKey(current) := tile.(kind := Upgrade(roll).value)])
      ensures !thrown ==>
                && grid.tiles == old(grid.tiles)
                && (var m := NextMove(current, grid.NeighborsOf(current), end, range, distanceTo, random.stream, mark);
                    next == m.next && random.drawn == mark + m.used)
                && grid.IsCell(next)
                && (next == current || Some(next) in grid.NeighborsOf(current).Values)
    {
      ghost var before := random.drawn;
      thrown := RaiseAt(grid, current);
      UpgradeThrows(old(grid.tiles)[MapKey(current)], Draw(random.stream, before));
      mark := random.drawn;
      if thrown {
        return thrown, current, mark;
      }
      next := MoveFrom(grid, current, end, range, distanceTo);
      var neighbors := grid.NeighborsOf(current);
      MoveRules(current, neighbors, end, range, distanceTo, random.stream, mark);
      if next != current {
        var d :| neighbors[d] == Some(next);
        assert grid.Neighbor(current, d) == Some(next);
      }
    }

    /**
     * `GenerateMountains(grid)`: a start and an end cell from `GetRandomHex`,
     * then the walk between them with the draws after those four. On a grid
     * without rows the first `GetRandomHex` throws and nothing changes.
     */
    method GenerateMountains(grid: Grid, distanceTo: (Hex, Hex) -> int, fuel: nat)
      returns (walk: Walk, range: seq<int>, ghost goal: Hex, ghost trail: seq<Hex>,
               ghost heads: seq<nat>, ghost marks: seq<nat>)
      requires grid.Valid() && Bounded(distanceTo)
      modifies grid`tiles, grid`neighborCache, random`drawn
      ensures grid.Valid()
      ensures walk == Threw(ArgumentOutOfRangeException) <==> grid.TopBorder > grid.BottomBorder
      ensures walk == Threw(ArgumentOutOfRangeException) ==>
                range == [] && grid.tiles == old(grid.tiles) && random.drawn == old(random.drawn)
      ensures walk != Threw(ArgumentOutOfRangeException) ==>
                && |trail| >= 1 && |heads| >= 1
                && Picked(grid, random.stream, old(random.drawn)) == Success(Some(trail[0]))
                && Picked(grid, random.stream, old(random.drawn) + 2) == Success(Some(goal))
                && heads[0] == old(random.drawn) + 4
                && WalkEnded(grid, walk, range, goal, trail, heads, marks, fuel, distanceTo, random.stream,
                             old(grid.tiles), random.drawn)
    {
      ghost var first := random.drawn;
      ghost var tiles0 := grid.tiles;
      var cells := PickCells(grid, 2);
      assert grid.tiles == tiles0;
      if cells.Failure? {
        return Threw(cells.error), [], Hex(0, 0), [], [], [];
      }
      var startCell, endCell := cells.value[0], cells.value[1];
      assert startCell in cells.value && endCell in cells.value;
      PickedNth(grid, random.stream, first, cells.value, 0, first);
      PickedNth(grid, random.stream, first, cells.value, 1, first + 2);
      goal := endCell;
      walk, range, trail, heads, marks := Wander(grid, startCell, endCell, distanceTo, fuel);
      assert walk != Threw(ArgumentOutOfRangeException);
    }

    /**
     * The `while (current != endCell)` loop: record the current cell in
     * `range`, upgrade it, and move, until the end cell is reached; the walk
     * stops after `fuel` steps.
     */
    method Wander(grid: Grid, start: Hex, end: Hex, distanceTo: (Hex, Hex) -> int, fuel: nat)
      returns (walk: Walk, range: seq<int>, ghost trail: seq<Hex>, ghost heads: seq<nat>, ghost marks: seq<nat>)
      requires grid.Valid() && grid.IsCell(start) && grid.IsCell(end) && Bounded(distanceTo)
      modifies grid`tiles, grid`neighborCache, random`drawn
      ensures grid.Valid()
      ensures |trail| >= 1 && trail[0] == start && |heads| >= 1 && heads[0] == old(random.drawn)
      ensures WalkEnded(grid, walk, range, end, trail, heads, marks, fuel, distanceTo, random.stream,
                        old(grid.tiles), random.drawn)
    {
      var current := start;
      range := [];
      trail, heads, marks := [current], [random.drawn], [];
      walk := Arrived;
      while current != end
        invariant grid.Valid() && grid.IsCell(current)
        invariant Walked(grid, old(grid.tiles), trail, range, heads, marks, end, distanceTo, random.stream)
        invariant |trail| == |heads| == |range| + 1 && trail[|range|] == current && trail[0] == start
        invariant heads[0] == old(random.drawn) && random.drawn == heads[|range|]
        invariant grid.tiles == old(grid.tiles)
        invariant |range| <= fuel
        decreases fuel - |range|
      {
        if |range| == fuel {
          walk := OutOfFuel;
          break;
        }
        var thrown, next;
        thrown, next, range, trail, heads, marks := WalkOn(grid, current, end, range, distanceTo, fuel, trail, heads, marks);
        if thrown {
          walk := Threw(ArgumentException);
          break;
        }
        current := next;
      }
    }

    /**
     * One pass of the walk loop from `current`, which is not the end cell:
     * record it in `range`, upgrade it, and unless that throws, move.
     */
    method WalkOn(grid: Grid, current: Hex, end: Hex, range: seq<int>, distanceTo: (Hex, Hex) -> int, ghost fuel: nat,
                  ghost trail: seq<Hex>, ghost heads: seq<nat>, ghost marks: seq<nat>)
      returns (thrown: bool, next: Hex, range': seq<int>, ghost trail': seq<Hex>, ghost heads': seq<nat>, ghost marks': seq<nat>)
      requires grid.Valid() && grid.IsCell(current) && current != end && Bounded(distanceTo)
      requires Walked(grid, grid.tiles, trail, range, heads, marks, end, distanceTo, random.stream)
      requires |trail| == |heads| == |range| + 1 && trail[|range|] == current && random.drawn == heads[|range|]
      modifies grid`tiles, grid`neighborCache, random`drawn
      ensures grid.Valid() && range' == range + [MapKey(current)]
      ensures |trail'| >= 1 && |heads'| >= 1 && heads'[0] == heads[0] && trail'[0] == trail[0]
      ensures thrown ==>
                WalkEnded(grid, Threw(ArgumentException), range', end, trail', heads', marks', fuel, distanceTo, random.stream,
                          old(grid.tiles), random.drawn)
      ensures !thrown ==>
                && grid.IsCell(next) && grid.tiles == old(grid.tiles)
                && Walked(grid, old(grid.tiles), trail', range', heads', marks', end, distanceTo, random.stream)
                && |trail'| == |heads'| == |range'| + 1 && trail'[|range'|] == next && random.drawn == heads'[|range'|]
    {
      WalkedEnters(grid, grid.tiles, trail, range, heads, marks, end, distanceTo, random.stream);
      range' := range + [MapKey(current)];
      ghost var mark;
      thrown, next, mark := WalkStep(grid, current, end, range', distanceTo);
      if thrown {
        assert range'[|range'| - 1] == MapKey(current);
        return thrown, next, range', trail, heads, marks;
      }
      WalkedMoves(grid, old(grid.tiles), trail, range', heads, marks, end, distanceTo, random.stream, next, mark, random.drawn);
      trail', heads', marks' := trail + [next], heads + [random.drawn], marks + [mark];
    }
  }

  /** The draws the upgrade of a cell takes: one for a Desert cell, none otherwise. */
  function UpgradeDraws(tile: TileState): nat
  {
    if tile.kind == Desert then 1 else 0
  }

  /** Whether the upgrade of a cell with roll `roll` changes its type (and so throws). */
  predicate Upgrades(tile: TileState, roll: Unit)
  {
    tile.kind == Desert && Upgrade(roll).Some?
  }

  /**
   * What a mountain walk has done so far. `trail` holds the cells it stood
   * on, all stored cells; `range` the keys it recorded, one per cell it left
   * or raised, none of them the goal; every move goes from a cell to itself
   * or to one of its neighbours. Step `i` starts at draw `heads[i]`, its
   * upgrade did not throw, and its move is the step function `NextMove`
   * over the range as it was at that step with the draws from `marks[i]`.
   */
  ghost predicate Walked(grid: Grid, tiles: map<int, TileState>, trail: seq<Hex>, range: seq<int>,
                         heads: seq<nat>, marks: seq<nat>, goal: Hex, distanceTo: (Hex, Hex) -> int, rolls: nat -> Unit)
  {
    && grid.Shape()
    && 1 <= |trail| && |marks| == |trail| - 1 && |trail| - 1 <= |range| <= |trail|
    && (forall h :: h in trail ==> grid.IsCell(h))
    && (forall i :: 0 <= i < |range| ==> range[i] == MapKey(trail[i]) && trail[i] != goal)
    && Stepped(grid, tiles, trail, range, heads, marks, goal, distanceTo, rolls)
    && Adjacent(grid, trail)
  }

  /**
   * Step `i` of the walk: from draw `heads[i]`, the upgrade of the cell's
   * tile in `tiles` takes `UpgradeDraws` draws without throwing, then the
   * move is the step function over the first `i + 1` recorded keys with the
   * draws from `marks[i]`, and the next step starts where the move's draws end.
   */
  ghost predicate Stepped(grid: Grid, tiles: map<int, TileState>, trail: seq<Hex>, range: seq<int>,
                          heads: seq<nat>, marks: seq<nat>, goal: Hex, distanceTo: (Hex, Hex) -> int, rolls: nat -> Unit)
  {
    && grid.Shape() && |marks| < |trail| == |heads| && |marks| <= |range|
    && forall i :: 0 <= i < |marks| ==>
         && grid.IsCell(trail[i]) && MapKey(trail[i]) in tiles
         && var tile := tiles[MapKey(trail[i])];
            && marks[i] == heads[i] + UpgradeDraws(tile)
            && !Upgrades(tile, Draw(rolls, heads[i]))
            && var m := NextMove(trail[i], grid.NeighborsOf(trail[i]), goal, range[..i + 1], distanceTo, rolls, marks[i]);
               trail[i + 1] == m.next && heads[i + 1] == marks[i] + m.used
  }

  /** Each cell of the trail is the previous one or one of its neighbours. */
  ghost predicate Adjacent(grid: Grid, trail: seq<Hex>)
  {
    && grid.Shape()
    && forall i :: 0 <= i < |trail| - 1 ==>
         grid.IsCell(trail[i]) &&
         (trail[i + 1] == trail[i] || Some(trail[i + 1]) in grid.NeighborsOf(trail[i]).Values)
  }

  /**
   * How a walk that did not fail at the start ended, with `drawn` the draw
   * count after it. It arrived at the goal, or ran out of fuel short of it,
   * with its draws ending where its last step would start and no tile
   * changed. Or it threw `ArgumentException` from the upgrade of its last
   * cell: a Desert cell whose roll was at most 0.4 got the type `Upgrade`
   * gives that roll, its other fields kept, and no other tile changed.
   */
  ghost predicate WalkEnded(grid: Grid, walk: Walk, range: seq<int>, goal: Hex, trail: seq<Hex>,
                            heads: seq<nat>, marks: seq<nat>, fuel: nat, distanceTo: (Hex, Hex) -> int,
                            rolls: nat -> Unit, before: map<int, TileState>, drawn: nat)
    reads grid
  {
    && Walked(grid, before, trail, range, heads, marks, goal, distanceTo, rolls)
    && match walk
       case Arrived =>
         |trail| == |range| + 1 && trail[|range|] == goal && grid.tiles == before && drawn == heads[|range|]
       case OutOfFuel =>
         |range| == fuel && |trail| == fuel + 1 && trail[fuel] != goal && grid.tiles == before && drawn == heads[fuel]
       case Threw(error) =>
         && error == ArgumentException
         && |range| == |trail|
         && var k := range[|range| - 1];
            var roll := Draw(rolls, heads[|range| - 1]);
            && k in before
            && Upgrades(before[k], roll)
            && grid.tiles == before[k := before[k].(kind := Upgrade(roll).value)]
            && drawn == heads[|range| - 1] + 1
  }

  /** Recording the current cell, which is not the goal, keeps the walk's record. */
  lemma WalkedEnters(grid: Grid, tiles: map<int, TileState>, trail: seq<Hex>, range: seq<int>,
                     heads: seq<nat>, marks: seq<nat>, goal: Hex, distanceTo: (Hex, Hex) -> int, rolls: nat -> Unit)
    requires Walked(grid, tiles, trail, range, heads, marks, goal, distanceTo, rolls)
    requires |range| == |trail| - 1 && trail[|range|] != goal
    ensures Walked(grid, tiles, trail, range + [MapKey(trail[|range|])], heads, marks, goal, distanceTo, rolls)
  {
    SteppedEnters(grid, tiles, trail, range, heads, marks, goal, distanceTo, rolls, MapKey(trail[|range|]));
  }

  lemma SteppedEnters(grid: Grid, tiles: map<int, TileState>, trail: seq<Hex>, range: seq<int>,
                      heads: seq<nat>, marks: seq<nat>, goal: Hex, distanceTo: (Hex, Hex) -> int, rolls: nat -> Unit, k: int)
    requires Stepped(grid, tiles, trail, range, heads, marks, goal, distanceTo, rolls)
    ensures Stepped(grid, tiles, trail, range + [k], heads, marks, goal, distanceTo, rolls)
  {
    var range' := range + [k];
    forall i | 0 <= i < |marks|
      ensures grid.IsCell(trail[i]) && MapKey(trail[i]) in tiles
      ensures marks[i] == heads[i] + UpgradeDraws(tiles[MapKey(trail[i])])
      ensures !Upgrades(tiles[MapKey(trail[i])], Draw(rolls, heads[i]))
      ensures var m := NextMove(trail[i], grid.NeighborsOf(trail[i]), goal, range'[..i + 1], distanceTo, rolls, marks[i]);
              trail[i + 1] == m.next && heads[i + 1] == marks[i] + m.used
    {
      assert Stepped(grid, tiles, trail, range, heads, marks, goal, distanceTo, rolls);
      assert range'[..i + 1] == range[..i + 1];
    }
  }

  /** A step by the walk's rules from the last cell extends the walk's record. */
  lemma WalkedMoves(grid: Grid, tiles: map<int, TileState>, trail: seq<Hex>, range: seq<int>,
                    heads: seq<nat>, marks: seq<nat>, goal: Hex, distanceTo: (Hex, Hex) -> int, rolls: nat -> Unit,
                    next: Hex, mark: nat, head: nat)
    requires Walked(grid, tiles, trail, range, heads, marks, goal, distanceTo, rolls)
    requires |range| == |trail| && grid.IsCell(next)
    requires var current := trail[|trail| - 1];
      && MapKey(current) in tiles
      && mark == heads[|trail| - 1] + UpgradeDraws(tiles[MapKey(current)])
      && !Upgrades(tiles[MapKey(current)], Draw(rolls, heads[|trail| - 1]))
      && (var m := NextMove(current, grid.NeighborsOf(current), goal, range, distanceTo, rolls, mark);
          next == m.next && head == mark + m.used)
      && (next == current || Some(next) in grid.NeighborsOf(current).Values)
    ensures Walked(grid, tiles, trail + [next], range, heads + [head], marks + [mark], goal, distanceTo, rolls)
  {
    var trail' := trail + [next];
    assert forall h :: h in trail' ==> grid.IsCell(h);
    assert forall i :: 0 <= i < |range| ==> range[i] == MapKey(trail'[i]) && trail'[i] != goal by {
      forall i | 0 <= i < |range| ensures trail'[i] == trail[i] { }
    }
    SteppedMoves(grid, tiles, trail, range, heads, marks, goal, distanceTo, rolls, next, mark, head);
    AdjacentMoves(grid, trail, next);
  }

  lemma SteppedMoves(grid: Grid, tiles: map<int, TileState>, trail: seq<Hex>, range: seq<int>,
                     heads: seq<nat>, marks: seq<nat>, goal: Hex, distanceTo: (Hex, Hex) -> int, rolls: nat -> Unit,
                     next: Hex, mark: nat, head: nat)
    requires Stepped(grid, tiles, trail, range, heads, marks, goal, distanceTo, rolls)
    requires |range| == |trail| == |marks| + 1 && grid.IsCell(trail[|marks|])
    requires var current := trail[|marks|];
      && MapKey(current) in tiles
      && mark == heads[|marks|] + UpgradeDraws(tiles[MapKey(current)])
      && !Upgrades(tiles[MapKey(current)], Draw(rolls, heads[|marks|]))
      && var m := NextMove(current, grid.NeighborsOf(current), goal, range, distanceTo, rolls, mark);
         next == m.next && head == mark + m.used
    ensures Stepped(grid, tiles, trail + [next], range, heads + [head], marks + [mark], goal, distanceTo, rolls)
  {
    var trail', heads', marks' := trail + [next], heads + [head], marks + [mark];
    forall i | 0 <= i < |marks'|
      ensures grid.IsCell(trail'[i]) && MapKey(trail'[i]) in tiles
      ensures marks'[i] == heads'[i] + UpgradeDraws(tiles[MapKey(trail'[i])])
      ensures !Upgrades(tiles[MapKey(trail'[i])], Draw(rolls, heads'[i]))
      ensures var m := NextMove(trail'[i], grid.NeighborsOf(trail'[i]), goal, range[..i + 1], distanceTo, rolls, marks'[i]);
              trail'[i + 1] == m.next && heads'[i + 1] == marks'[i] + m.used
    {
      if i == |marks| {
        assert range[..i + 1] == range;
        assert trail'[i] == trail[|marks|] && heads'[i] == heads[|marks|] && marks'[i] == mark;
        assert trail'[i + 1] == next && heads'[i + 1] == head;
      } else {
        assert trail'[i] == trail[i] && trail'[i + 1] == trail[i + 1];
        assert heads'[i] == heads[i] && heads'[i + 1] == heads[i + 1] && marks'[i] == marks[i];
      }
    }
  }

  lemma AdjacentMoves(grid: Grid, trail: seq<Hex>, next: Hex)
    requires Adjacent(grid, trail) && |trail| >= 1 && grid.IsCell(trail[|trail| - 1])
    requires var current := trail[|trail| - 1];
      next == current || Some(next) in grid.NeighborsOf(current).Values
    ensures Adjacent(grid, trail + [next])
  {
    var trail' := trail + [next];
    forall i | 0 <= i < |trail'| - 1
      ensures grid.IsCell(trail'[i])
      ensures trail'[i + 1] == trail'[i] || Some(trail'[i + 1]) in grid.NeighborsOf(trail'[i]).Values
    {
      if i == |trail| - 1 {
        assert trail'[i] == trail[|trail| - 1];
      } else {
        assert trail'[i] == trail[i] && trail'[i + 1] == trail[i + 1];
      }
    }
  }

  /**
   * `after` has the keys of `before`, and differs from it only on `keys`,
   * where each tile is kept or flipped.
   */
  ghost predicate FlippedOnly(before: map<int, TileState>, after: map<int, TileState>, keys: set<int>)
  {
    && after.Keys == before.Keys
    && forall k :: k in after ==>
         if k in keys then after[k] == before[k] || after[k] == FlipTile(before[k])
         else after[k] == before[k]
  }

  /** Keeping or flipping tiles keeps them well formed. */
  lemma FlippedStaysWellFormed(before: map<int, TileState>, after: map<int, TileState>, keys: set<int>)
    requires FlippedOnly(before, after, keys)
    ensures AllWellFormed(before) ==> AllWellFormed(after)
  {
    forall k | k in after
      ensures AllWellFormed(before) ==> WellFormed(after[k])
    {
      FlipTransitions(before[k]);
    }
  }

  /** Refining one cell, then changing only other cells, changes only that cell and those. */
  lemma FlipThenRest(before: map<int, TileState>, mid: map<int, TileState>, after: map<int, TileState>, k: int, keys: set<int>)
    requires mid.Keys == before.Keys && forall j :: j in mid && j != k ==> mid[j] == before[j]
    requires k in mid ==> mid[k] == before[k] || mid[k] == FlipTile(before[k])
    requires FlippedOnly(mid, after, keys) && k !in keys
    ensures FlippedOnly(before, after, {k} + keys)
  {
  }

  /** The `j`-th pick of a sequence of picks starting at draw `start`, at the draw index `b` it used. */
  lemma PickedNth(grid: Grid, rolls: nat -> Unit, start: nat, picks: seq<Hex>, j: nat, b: nat)
    requires grid.Shape() && j < |picks| && b == start + 2 * j
    requires PickedRun(grid, rolls, start, picks)
    ensures Picked(grid, rolls, b) == Success(Some(picks[j]))
  {
  }

  /** Marking a new cell visited leaves fewer unvisited cells. */
  lemma NewKeyShrinks(keys: set<int>, visited: set<int>, k: int)
    requires k in keys && k !in visited
    ensures |keys - (visited + {k})| < |keys - visited|
  {
    assert keys - (visited + {k}) == (keys - visited) - {k};
  }
}
