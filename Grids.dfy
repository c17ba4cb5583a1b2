/**
 * Grid.cs: the cell table of an offset hex map, its row-border geometry,
 * lookups, random cell selection, six-direction neighbours with horizontal
 * wrap (memoised in a write-once cache) and the flood-fill area query.
 */
module Grids {
  import opened Wrappers
  import opened Runtime
  import opened Hexes
  import opened Tiles
  import opened Randomness

  datatype Direction = NorthEast | East | SouthEast | SouthWest | West | NorthWest

  /** The order in which the source's direction dictionary is filled and enumerated. */
  const Directions: seq<Direction> := [NorthEast, East, SouthEast, SouthWest, West, NorthWest]

  /** The direction vectors added to a cell to reach its raw neighbours. */
  function Offset(d: Direction): Hex
  {
    match d
    case NorthEast => Hex(1, -1)
    case East => Hex(1, 0)
    case SouthEast => Hex(0, 1)
    case SouthWest => Hex(-1, 1)
    case West => Hex(-1, 0)
    case NorthWest => Hex(0, -1)
  }

  lemma AllDirections()
    ensures forall d: Direction :: d in Directions
  {
    forall d: Direction
      ensures d in Directions
    {
      match d
      case NorthEast => assert Directions[0] == d;
      case East => assert Directions[1] == d;
      case SouthEast => assert Directions[2] == d;
      case SouthWest => assert Directions[3] == d;
      case West => assert Directions[4] == d;
      case NorthWest => assert Directions[5] == d;
    }
  }

  /** The dictionary `GetNeighbors` returns; `None` is a missing neighbour. */
  type Neighbors = map<Direction, Option<Hex>>

  /** The `(left, right)` tuple of `RowBorders`. */
  datatype RowSpan = RowSpan(left: int, right: int)

  /** The stagger of a row: rows 2k - 1 and 2k share the offset k. */
  function RowOffset(row: int): int
  {
    Half(row + Abs(HalfRem(row)))
  }

  /** The first and last column of a row; every row spans 2 * (width / 2) + 1 columns. */
  function RowBorders(width: int, row: int): (b: RowSpan)
    ensures b.right - b.left == 2 * Half(width)
  {
    HalfTruncates(width);
    HalfTruncates(-width);
    var rowOffset := RowOffset(row);
    RowSpan(Half(-width) - 1 + HalfRem(width) - rowOffset,
            Half(width) - 1 + HalfRem(width) - rowOffset)
  }

  /** A row holds `width` cells for an odd width and `width + 1` for an even one. */
  lemma RowLength(width: int, row: int)
    requires width >= 0
    ensures RowBorders(width, row).right - RowBorders(width, row).left + 1 ==
            if width % 2 == 1 then width else width + 1
  {
    HalfTruncates(width);
  }

  /**
   * Rows 2k - 1 and 2k have the same borders, and each such pair is
   * shifted one column left of the pair above it.
   */
  lemma StaggeredPairs(width: int, k: int)
    ensures RowBorders(width, 2 * k - 1) == RowBorders(width, 2 * k)
    ensures RowBorders(width, 2 * k).left == RowBorders(width, 0).left - k
    ensures RowBorders(width, 2 * k + 1).left == RowBorders(width, 2 * k).left - 1
  {
    RowOffsetPair(k);
    RowOffsetFloor(0);
    var left := Half(-width) - 1 + HalfRem(width);
    assert RowBorders(width, 0).left == left;
    assert RowBorders(width, 2 * k).left == left - k;
    assert RowBorders(width, 2 * k - 1).left == left - k;
    assert RowBorders(width, 2 * k + 1).left == left - k - 1;
  }

  /** Rows 2k - 1 and 2k have offset k, row 2k + 1 has offset k + 1. */
  lemma RowOffsetPair(k: int)
    ensures RowOffset(2 * k - 1) == k && RowOffset(2 * k) == k && RowOffset(2 * k + 1) == k + 1
  {
    RowOffsetFloor(2 * k - 1);
    RowOffsetFloor(2 * k);
    RowOffsetFloor(2 * k + 1);
  }

  /** An odd row shares its borders with the row below and sits one column left of the row above. */
  lemma OddRowStagger(width: int, row: int)
    requires row % 2 == 1
    ensures RowBorders(width, row + 1) == RowBorders(width, row)
    ensures RowBorders(width, row - 1).left == RowBorders(width, row).left + 1
    ensures RowBorders(width, row - 1).right == RowBorders(width, row).right + 1
  {
    RowOffsetFloor(row - 1);
    RowOffsetFloor(row);
    RowOffsetFloor(row + 1);
  }

  /** An even row shares its borders with the row above and sits one column right of the row below. */
  lemma EvenRowStagger(width: int, row: int)
    requires row % 2 == 0
    ensures RowBorders(width, row - 1) == RowBorders(width, row)
    ensures RowBorders(width, row + 1).left == RowBorders(width, row).left - 1
    ensures RowBorders(width, row + 1).right == RowBorders(width, row).right - 1
  {
    RowOffsetFloor(row - 1);
    RowOffsetFloor(row);
    RowOffsetFloor(row + 1);
  }

  /** With the absolute remainder, the offset is the floor of (row + 1) / 2 for every row. */
  lemma RowOffsetFloor(row: int)
    ensures RowOffset(row) == (row + 1) / 2
  {
    HalfTruncates(row);
    HalfTruncates(row + Abs(HalfRem(row)));
  }

  /** The border test the grid uses: the row's first column per `RowBorders`. */
  predicate OnLeftBorder(width: int, h: Hex)
  {
    h.column == RowBorders(width, h.row).left
  }

  /** The border test the grid uses: the row's last column per `RowBorders`. */
  predicate OnRightBorder(width: int, h: Hex)
  {
    h.column == RowBorders(width, h.row).right
  }

  /**
   * Hex's own border tests agree with `RowBorders` on every even row and on
   * every row at or below row 0.
   */
  lemma BorderTestsAgree(h: Hex, width: int)
    requires h.row >= 0 || h.row % 2 == 0
    ensures IsAtLeftBorder(h, width) <==> OnLeftBorder(width, h)
    ensures IsAtRightBorder(h, width) <==> OnRightBorder(width, h)
  {
    HalfTruncates(h.row);
  }

  /**
   * On a negative odd row, -2k - 1, they do not: `row % 2` is -1 there, so
   * each test accepts the column one right of the row's actual border.
   */
  lemma BorderTestsShift(h: Hex, width: int, k: nat)
    requires h.row == -2 * k - 1
    ensures IsAtLeftBorder(h, width) <==> h.column == RowBorders(width, h.row).left + 1
    ensures IsAtRightBorder(h, width) <==> h.column == RowBorders(width, h.row).right + 1
  {
    assert HalfRem(h.row) == -1 by {
      HalfTruncates(h.row);
    }
    assert Half(h.row - 1) + k == -1;
    assert RowOffset(h.row) + k == 0 by {
      RowOffsetFloor(h.row);
    }
  }

  /**
   * So on every negative odd row both tests miss the row's end cells. The
   * left test accepts the second cell of the row, an interior cell once the
   * width is 2 or more; the right test accepts a column past the row's end,
   * which is not a cell of any grid. (Width 2, row -1: the row runs from
   * column -2 to 0, and the tests pick columns -1 and 1.)
   */
  lemma BorderTestsMissNegativeOddRow(width: int, k: nat, top: int, bottom: int)
    ensures var row := -2 * k - 1;
            var span := RowBorders(width, row);
            && !IsAtLeftBorder(Hex(span.left, row), width) && IsAtLeftBorder(Hex(span.left + 1, row), width)
            && !IsAtRightBorder(Hex(span.right, row), width) && IsAtRightBorder(Hex(span.right + 1, row), width)
            && (width >= 2 ==> span.left + 1 < span.right)
            && !Within(width, top, bottom, Hex(span.right + 1, row))
  {
    var row := -2 * k - 1;
    var span := RowBorders(width, row);
    BorderTestsShift(Hex(span.left, row), width, k);
    BorderTestsShift(Hex(span.left + 1, row), width, k);
    BorderTestsShift(Hex(span.right, row), width, k);
    BorderTestsShift(Hex(span.right + 1, row), width, k);
    HalfTruncates(width);
  }

  /** `TopBorder = -height / 2` */
  function TopBorderOf(height: int): int
  {
    Half(-height)
  }

  /** `BottomBorder = (height + height % 2) / 2 - 1` */
  function BottomBorderOf(height: int): int
  {
    Half(height + HalfRem(height)) - 1
  }

  /** The borders enclose exactly `height` rows, and none when the height is not positive. */
  lemma RowCount(height: int)
    ensures height >= 1 ==> BottomBorderOf(height) - TopBorderOf(height) + 1 == height
    ensures height <= 0 ==> TopBorderOf(height) > BottomBorderOf(height)
  {
    HalfTruncates(height);
    HalfTruncates(-height);
    HalfTruncates(height + HalfRem(height));
  }

  /** The coordinates the constructor creates cells for. */
  ghost predicate Within(width: int, top: int, bottom: int, h: Hex)
  {
    && top <= h.row <= bottom
    && RowBorders(width, h.row).left <= h.column <= RowBorders(width, h.row).right
  }

  /** The neighbours in the first `n` directions that meet the criteria are all in `area`. */
  ghost predicate Reached(neighbors: Neighbors, n: nat, area: seq<Hex>, criteria: Option<Hex> -> bool)
  {
    forall j :: 0 <= j < n && j < |Directions| && Directions[j] in neighbors && criteria(neighbors[Directions[j]]) ==>
      neighbors[Directions[j]].Some? && neighbors[Directions[j]].value in area
  }

  /** Visiting direction `i` from an area that only grew extends `Reached` by that direction. */
  lemma ReachedNext(neighbors: Neighbors, i: nat, before: seq<Hex>, after: seq<Hex>, criteria: Option<Hex> -> bool)
    requires i < |Directions| && Reached(neighbors, i, before, criteria)
    requires forall x :: x in before ==> x in after
    requires Directions[i] in neighbors && criteria(neighbors[Directions[i]]) ==>
               neighbors[Directions[i]].Some? && neighbors[Directions[i]].value in after
    ensures Reached(neighbors, i + 1, after, criteria)
  {
    forall j | 0 <= j < i + 1 && Directions[j] in neighbors && criteria(neighbors[Directions[j]])
      ensures neighbors[Directions[j]].Some? && neighbors[Directions[j]].value in after
    {
      if j < i {
        assert neighbors[Directions[j]].value in before;
      }
    }
  }

  /** A grid 9 wide: rows -3 and -2 span columns -3 to 5, row -1 spans -4 to 4. */
  lemma NineWideRows()
    ensures RowBorders(9, -3) == RowSpan(-3, 5) && RowBorders(9, -2) == RowSpan(-3, 5)
    ensures RowBorders(9, -1) == RowSpan(-4, 4)
  {
    assert RowBorders(9, -3) == RowSpan(-3, 5);
    assert RowBorders(9, -2) == RowSpan(-3, 5);
    assert RowBorders(9, -1) == RowSpan(-4, 4);
  }

  class Grid {
    const Width: int
    const TopBorder: int
    const BottomBorder: int
    const wrapX: bool
    const wrapY: bool
    /** `_map`: every cell under its key. */
    const cells: map<int, Hex>
    /** The tile each cell carries, under the cell's key. */
    var tiles: map<int, TileState>
    /** `_neighbors`: neighbour dictionaries computed so far, under the cell's key. */
    var neighborCache: map<int, Neighbors>

    ghost predicate InGrid(h: Hex)
    {
      Within(Width, TopBorder, BottomBorder, h)
    }

    /** The table holds exactly the coordinates inside the borders, each under its own key. */
    ghost predicate Shape()
    {
      && !wrapY
      && (TopBorder <= BottomBorder ==> Width >= 0)
      && BottomBorder - TopBorder < ColumnKeyOffset - 1
      && (forall k :: k in cells ==> MapKey(cells[k]) == k && InGrid(cells[k]))
      && (forall h {:trigger InGrid(h)} :: InGrid(h) ==> MapKey(h) in cells)
    }

    /** `h` is the cell the table stores under its key. */
    predicate IsCell(h: Hex)
    {
      MapKey(h) in cells && cells[MapKey(h)] == h
    }

    /** Every cached dictionary is the one `GetNeighbors` computes for that cell. */
    ghost predicate CacheValid()
      reads this`neighborCache
    {
      && Shape()
      && forall k {:trigger neighborCache[k]} :: k in neighborCache ==> k in cells && neighborCache[k] == NeighborsOf(cells[k])
    }

    ghost predicate Valid()
      reads this`tiles, this`neighborCache
    {
      && Shape()
      && tiles.Keys == cells.Keys
      && CacheValid()
    }

    lemma CellsAreCells()
      requires Shape()
      ensures forall h :: IsCell(h) <==> InGrid(h)
      ensures forall k :: k in cells ==> IsCell(cells[k])
    {
      forall h | InGrid(h)
        ensures IsCell(h)
      {
        var c := cells[MapKey(h)];
        MapKeyInjective(c, h);
      }
    }

    /** `GetHexAt(Hex)`: the stored cell under the coordinate's key, `None` when there is none. */
    function GetHexAt(h: Hex): (r: Option<Hex>)
      requires Shape()
      ensures r.Some? ==> IsCell(r.value) && MapKey(r.value) == MapKey(h)
      ensures r.None? <==> MapKey(h) !in cells
    {
      var key := MapKey(h);
      if key in cells then Some(cells[key]) else None
    }

    /** `GetHexAt(column, row)`: the same lookup through the static key. */
    function GetHexAtPosition(column: int, row: int): (r: Option<Hex>)
      requires Shape()
      ensures r == GetHexAt(Hex(column, row))
    {
      var key := KeyOf(column, row);
      if key in cells then Some(cells[key]) else None
    }

    /**
     * For a coordinate less than 32768 rows away from every row of the
     * grid, the lookup finds the coordinate itself exactly when it lies
     * inside the borders.
     */
    lemma GetHexAtExact(h: Hex)
      requires Shape()
      requires BottomBorder - ColumnKeyOffset < h.row < TopBorder + ColumnKeyOffset
      ensures GetHexAt(h) == if InGrid(h) then Some(h) else None
    {
      if MapKey(h) in cells {
        MapKeyInjective(cells[MapKey(h)], h);
      }
    }

    /** The neighbour in direction `d` before wrap correction. */
    function Raw(h: Hex, d: Direction): Option<Hex>
      requires Shape()
    {
      GetHexAt(Add(h, Offset(d)))
    }

    /**
     * The neighbour `GetNeighbors` reports in direction `d`. With wrapX, a
     * cell on its row's left border takes the row's right border cell as its
     * west neighbour, and on odd rows that cell's north-east and south-east
     * lookups as its north-west and south-west neighbours; otherwise a cell on
     * the right border takes the left border cell as its east neighbour, and
     * on even rows that cell's north-west and south-west lookups as its
     * north-east and south-east neighbours. Everything else is the raw lookup.
     */
    function Neighbor(h: Hex, d: Direction): (r: Option<Hex>)
      requires Shape() && IsCell(h)
      ensures r.Some? ==> IsCell(r.value)
    {
      var span := RowBorders(Width, h.row);
      var isEvenRow := HalfRem(h.row) == 0;
      assert InGrid(Hex(span.left, h.row)) && InGrid(Hex(span.right, h.row));
      CellsAreCells();
      if wrapX && OnLeftBorder(Width, h) then
        var west := cells[KeyOf(span.right, h.row)];
        if d == West then Some(west)
        else if d == NorthWest && !isEvenRow then GetHexAt(Add(west, Offset(NorthEast)))
        else if d == SouthWest && !isEvenRow then GetHexAt(Add(west, Offset(SouthEast)))
        else Raw(h, d)
      else if wrapX && OnRightBorder(Width, h) then
        var east := cells[KeyOf(span.left, h.row)];
        if d == East then Some(east)
        else if d == NorthEast && isEvenRow then GetHexAt(Add(east, Offset(NorthWest)))
        else if d == SouthEast && isEvenRow then GetHexAt(Add(east, Offset(SouthWest)))
        else Raw(h, d)
      else
        Raw(h, d)
    }

    /** The whole dictionary for a cell. */
    function NeighborsOf(h: Hex): (r: Neighbors)
      requires Shape() && IsCell(h)
      ensures forall d :: d in r && r[d] == Neighbor(h, d)
    {
      AllDirections();
      map d | d in Directions :: Neighbor(h, d)
    }

    /**
     * `new Grid(width, height, wrapX)` with `wrapY` false: the borders from
     * the height, then one cell per coordinate of every row, row by row.
     */
    constructor (width: int, height: int, wrapX: bool)
      requires height * width >= 0
      requires height < ColumnKeyOffset
      ensures Width == width && TopBorder == TopBorderOf(height) && BottomBorder == BottomBorderOf(height)
      ensures this.wrapX == wrapX && !wrapY
      ensures Valid()
      ensures forall h :: IsCell(h) <==> InGrid(h)
      ensures tiles == map k | k in cells :: OceanTile
      ensures neighborCache == map[]
    {
      var top := TopBorderOf(height);
      var bottom := BottomBorderOf(height);
      RowCount(height);
      assert top <= bottom ==> width >= 0 by {
        if top <= bottom && width < 0 {
          assert false;
        }
      }
      var m: map<int, Hex> := map[];
      var y := top;
      while y <= bottom
        invariant top <= y && (top <= bottom ==> y <= bottom + 1)
        invariant forall k :: k in m ==> MapKey(m[k]) == k && Within(width, top, bottom, m[k]) && m[k].row < y
        invariant forall h :: Within(width, top, bottom, h) && h.row < y ==> MapKey(h) in m
      {
        var span := RowBorders(width, y);
        var x := span.left;
        while x <= span.right
          invariant span.left <= x <= span.right + 1
          invariant forall k :: k in m ==> MapKey(m[k]) == k && Within(width, top, bottom, m[k]) &&
                                             (m[k].row < y || (m[k].row == y && m[k].column < x))
          invariant forall h :: Within(width, top, bottom, h) && (h.row < y || (h.row == y && h.column < x)) ==>
                                  MapKey(h) in m
        {
          var hex := Hex(x, y);
          // Dictionary.Add would throw on a repeated key; none repeats.
          forall k | k in m
            ensures k != MapKey(hex)
          {
            KeysDiffer(m[k], hex);
          }
          m := m[MapKey(hex) := hex];
          x := x + 1;
        }
        y := y + 1;
      }
      Width, TopBorder, BottomBorder := width, top, bottom;
      this.wrapX, wrapY := wrapX, false;
      cells := m;
      tiles := map k | k in m :: OceanTile;
      neighborCache := map[];
      new;
      CellsAreCells();
    }
  
    /** Every cell on a row's left border has no raw west neighbour, and only those cells. */
    lemma LeftBorderHasNoWestCell(h: Hex)
      requires Shape() && IsCell(h)
      ensures OnLeftBorder(Width, h) <==> Raw(h, West).None?
      ensures OnRightBorder(Width, h) <==> Raw(h, East).None?
    {
      CellsAreCells();
      GetHexAtExact(Add(h, Offset(West)));
      GetHexAtExact(Add(h, Offset(East)));
    }

    /**
     * Away from the column borders, or without wrapX, the neighbour in
     * direction `d` is the coordinate `h + Offset(d)` itself when it lies
     * inside the borders, and missing otherwise.
     */
    lemma InteriorNeighbors(h: Hex, d: Direction)
      requires Shape() && IsCell(h)
      requires !wrapX || (!OnLeftBorder(Width, h) && !OnRightBorder(Width, h))
      ensures Neighbor(h, d) == if InGrid(Add(h, Offset(d))) then Some(Add(h, Offset(d))) else None
    {
      CellsAreCells();
      GetHexAtExact(Add(h, Offset(d)));
    }

    /** A coordinate inside the borders is stored under its static key. */
    lemma CellAt(column: int, row: int)
      requires Shape() && InGrid(Hex(column, row))
      ensures KeyOf(column, row) in cells && cells[KeyOf(column, row)] == Hex(column, row)
    {
      CellsAreCells();
      MapKeyIsKeyOf(Hex(column, row));
    }

    /**
     * With wrapX and a width of at least 2 every cell has a west neighbour,
     * and stepping west then east returns to the cell.
     */
    lemma WestThenEast(h: Hex)
      requires Shape() && IsCell(h) && wrapX && Width >= 2
      ensures Neighbor(h, West).Some?
      ensures Neighbor(Neighbor(h, West).value, East) == Some(h)
    {
      CellsAreCells();
      HalfTruncates(Width);
      var span := RowBorders(Width, h.row);
      if OnLeftBorder(Width, h) {
        CellAt(span.right, h.row);
        CellAt(span.left, h.row);
        assert Neighbor(h, West) == Some(Hex(span.right, h.row));
      } else {
        var w := Add(h, Offset(West));
        GetHexAtExact(w);
        assert Neighbor(h, West) == Some(w);
        GetHexAtExact(Add(w, Offset(East)));
        assert Add(w, Offset(East)) == h;
      }
    }

    /**
     * With wrapX and a width of at least 2 every cell has an east neighbour,
     * and stepping east then west returns to the cell.
     */
    lemma EastThenWest(h: Hex)
      requires Shape() && IsCell(h) && wrapX && Width >= 2
      ensures Neighbor(h, East).Some?
      ensures Neighbor(Neighbor(h, East).value, West) == Some(h)
    {
      CellsAreCells();
      HalfTruncates(Width);
      var span := RowBorders(Width, h.row);
      if OnRightBorder(Width, h) {
        CellAt(span.right, h.row);
        CellAt(span.left, h.row);
        assert Neighbor(h, East) == Some(Hex(span.left, h.row));
      } else {
        var e := Add(h, Offset(East));
        GetHexAtExact(e);
        assert Neighbor(h, East) == Some(e);
        GetHexAtExact(Add(e, Offset(West)));
        assert Add(e, Offset(West)) == h;
      }
    }

    /**
     * The wrap joins each row into a ring: west and east neighbours always
     * exist and undo each other.
     */
    lemma WestEastInverse(h: Hex)
      requires Shape() && IsCell(h) && wrapX && Width >= 2
      ensures Neighbor(h, West).Some? && Neighbor(h, East).Some?
      ensures Neighbor(Neighbor(h, West).value, East) == Some(h)
      ensures Neighbor(Neighbor(h, East).value, West) == Some(h)
    {
      WestThenEast(h);
      EastThenWest(h);
    }

    /**
     * The seam rewiring on an odd row lands on the border of the adjacent
     * rows: a cell on the left border has the right border cells of the rows
     * above and below as its north-west and south-west neighbours.
     */
    lemma LeftSeam(h: Hex)
      requires Shape() && IsCell(h) && wrapX && Width >= 2
      requires OnLeftBorder(Width, h) && h.row % 2 == 1
      ensures Neighbor(h, NorthWest) == (if h.row > TopBorder then Some(Hex(RowBorders(Width, h.row - 1).right, h.row - 1)) else None)
      ensures Neighbor(h, SouthWest) == (if h.row < BottomBorder then Some(Hex(RowBorders(Width, h.row + 1).right, h.row + 1)) else None)
    {
      LeftSeamNorth(h);
      LeftSeamSouth(h);
    }

    lemma LeftSeamNorth(h: Hex)
      requires Shape() && IsCell(h) && wrapX && Width >= 2
      requires OnLeftBorder(Width, h) && h.row % 2 == 1
      ensures Neighbor(h, NorthWest) == (if h.row > TopBorder then Some(Hex(RowBorders(Width, h.row - 1).right, h.row - 1)) else None)
    {
      OddRowStagger(Width, h.row);
      HalfTruncates(h.row);
      var span := RowBorders(Width, h.row);
      CellAt(span.right, h.row);
      var west := Hex(span.right, h.row);
      assert HalfRem(h.row) != 0;
      var above := Hex(RowBorders(Width, h.row - 1).right, h.row - 1);
      assert Add(west, Offset(NorthEast)) == above;
      LeftBorderNeighbor(h, NorthWest);
      GetHexAtExact(above);
    }

    lemma LeftSeamSouth(h: Hex)
      requires Shape() && IsCell(h) && wrapX && Width >= 2
      requires OnLeftBorder(Width, h) && h.row % 2 == 1
      ensures Neighbor(h, SouthWest) == (if h.row < BottomBorder then Some(Hex(RowBorders(Width, h.row + 1).right, h.row + 1)) else None)
    {
      OddRowStagger(Width, h.row);
      HalfTruncates(h.row);
      var span := RowBorders(Width, h.row);
      CellAt(span.right, h.row);
      var west := Hex(span.right, h.row);
      assert HalfRem(h.row) != 0;
      var below := Hex(RowBorders(Width, h.row + 1).right, h.row + 1);
      assert Add(west, Offset(SouthEast)) == below;
      LeftBorderNeighbor(h, SouthWest);
      GetHexAtExact(below);
    }

    /**
     * The seam rewiring on an even row: a cell on the right border has the
     * left border cells of the rows above and below as its north-east and
     * south-east neighbours.
     */
    lemma RightSeam(h: Hex)
      requires Shape() && IsCell(h) && wrapX && Width >= 2
      requires OnRightBorder(Width, h) && h.row % 2 == 0
      ensures Neighbor(h, NorthEast) == (if h.row > TopBorder then Some(Hex(RowBorders(Width, h.row - 1).left, h.row - 1)) else None)
      ensures Neighbor(h, SouthEast) == (if h.row < BottomBorder then Some(Hex(RowBorders(Width, h.row + 1).left, h.row + 1)) else None)
    {
      RightSeamNorth(h);
      RightSeamSouth(h);
    }

    lemma RightSeamNorth(h: Hex)
      requires Shape() && IsCell(h) && wrapX && Width >= 2
      requires OnRightBorder(Width, h) && h.row % 2 == 0
      ensures Neighbor(h, NorthEast) == (if h.row > TopBorder then Some(Hex(RowBorders(Width, h.row - 1).left, h.row - 1)) else None)
    {
      EvenRowStagger(Width, h.row);
      HalfTruncates(h.row);
      HalfTruncates(Width);
      var span := RowBorders(Width, h.row);
      assert !OnLeftBorder(Width, h);
      CellAt(span.left, h.row);
      var east := Hex(span.left, h.row);
      assert HalfRem(h.row) == 0;
      var above := Hex(RowBorders(Width, h.row - 1).left, h.row - 1);
      assert Add(east, Offset(NorthWest)) == above;
      RightBorderNeighbor(h, NorthEast);
      GetHexAtExact(above);
    }

    lemma RightSeamSouth(h: Hex)
      requires Shape() && IsCell(h) && wrapX && Width >= 2
      requires OnRightBorder(Width, h) && h.row % 2 == 0
      ensures Neighbor(h, SouthEast) == (if h.row < BottomBorder then Some(Hex(RowBorders(Width, h.row + 1).left, h.row + 1)) else None)
    {
      EvenRowStagger(Width, h.row);
      HalfTruncates(h.row);
      HalfTruncates(Width);
      var span := RowBorders(Width, h.row);
      assert !OnLeftBorder(Width, h);
      CellAt(span.left, h.row);
      var east := Hex(span.left, h.row);
      assert HalfRem(h.row) == 0;
      var below := Hex(RowBorders(Width, h.row + 1).left, h.row + 1);
      assert Add(east, Offset(SouthWest)) == below;
      RightBorderNeighbor(h, SouthEast);
      GetHexAtExact(below);
    }

    /**
     * A row of one column is on both borders at once. The left case is
     * tested first, so its cell is its own west neighbour while its east
     * neighbour stays the missing raw lookup.
     */
    lemma SingleColumnWrap(h: Hex)
      requires Shape() && IsCell(h) && wrapX && 0 <= Width <= 1
      ensures OnLeftBorder(Width, h) && OnRightBorder(Width, h)
      ensures Neighbor(h, West) == Some(h)
      ensures Neighbor(h, East) == None
    {
      CellsAreCells();
      HalfTruncates(Width);
      var span := RowBorders(Width, h.row);
      assert span.left == span.right;
      CellAt(span.right, h.row);
      GetHexAtExact(Add(h, Offset(East)));
    }

    /**
     * A wrapping grid 9 wide and 6 high has rows -3 to 2; rows -3 and -2
     * span columns -3 to 5 and row -1 spans -4 to 4. The cell (-3, -3)
     * starts the top row: its west neighbour comes through the wrap, its
     * south-west neighbour is the wrapped cell's south-east lookup, and
     * its two northern neighbours are missing, so it has four neighbours.
     */
    lemma NineBySixCorner()
      requires Shape() && wrapX && Width == 9 && TopBorder == -3 && BottomBorder == 2
      ensures RowBorders(9, -3) == RowSpan(-3, 5) && RowBorders(9, -2) == RowSpan(-3, 5)
      ensures RowBorders(9, -1) == RowSpan(-4, 4)
      ensures IsCell(Hex(-3, -3))
      ensures Neighbor(Hex(-3, -3), West) == Some(Hex(5, -3))
      ensures Neighbor(Hex(-3, -3), East) == Some(Hex(-2, -3))
      ensures Neighbor(Hex(-3, -3), SouthEast) == Some(Hex(-3, -2))
      ensures Neighbor(Hex(-3, -3), SouthWest) == Some(Hex(5, -2))
      ensures Neighbor(Hex(-3, -3), NorthEast) == None && Neighbor(Hex(-3, -3), NorthWest) == None
    {
      var h := Hex(-3, -3);
      NineWideRows();
      CellsAreCells();
      assert InGrid(h);
      CellAt(5, -3);
      NineBySixWrap(h);
      LeftBorderNeighbor(h, East);
      LeftBorderNeighbor(h, SouthEast);
      LeftBorderNeighbor(h, NorthEast);
      GetHexAtExact(Hex(-2, -3));
      GetHexAtExact(Hex(-3, -2));
      GetHexAtExact(Hex(-2, -4));
    }

    /** The wrapped neighbours of the corner cell of the 9 by 6 grid. */
    lemma NineBySixWrap(h: Hex)
      requires Shape() && wrapX && Width == 9 && TopBorder == -3 && BottomBorder == 2
      requires h == Hex(-3, -3) && IsCell(h) && IsCell(Hex(5, -3))
      requires RowBorders(9, -3) == RowSpan(-3, 5) && RowBorders(9, -2) == RowSpan(-3, 5)
      ensures Neighbor(h, West) == Some(Hex(5, -3))
      ensures Neighbor(h, SouthWest) == Some(Hex(5, -2))
      ensures Neighbor(h, NorthWest) == None
    {
      LeftBorderNeighbor(h, West);
      LeftBorderNeighbor(h, NorthWest);
      LeftBorderNeighbor(h, SouthWest);
      GetHexAtExact(Hex(6, -4));
      GetHexAtExact(Hex(5, -2));
    }

    /** `GetNeighbors`: a cached dictionary when there is one, else computed and cached. */
    method GetNeighbors(h: Hex) returns (r: Neighbors)
      requires Valid() && IsCell(h)
      modifies this`neighborCache
      ensures Valid()
      ensures r == NeighborsOf(h)
      ensures MapKey(h) in old(neighborCache) ==> neighborCache == old(neighborCache)
      ensures MapKey(h) !in old(neighborCache) ==> neighborCache == old(neighborCache)[MapKey(h) := r]
    {
      if MapKey(h) in neighborCache {
        return neighborCache[MapKey(h)];
      }
      r := ComputeNeighbors(h);
      neighborCache := neighborCache[MapKey(h) := r];
    }

    /** The dictionary of raw lookups, one per direction. */
    function RawNeighbors(h: Hex): (r: Neighbors)
      requires Shape()
      ensures forall d :: d in r && r[d] == Raw(h, d)
    {
      AllDirections();
      map d | d in Directions :: Raw(h, d)
    }

    /** The body of `GetNeighbors` below the cache lookup: raw lookups, then the wrap cases. */
    method ComputeNeighbors(h: Hex) returns (result: Neighbors)
      requires Shape() && IsCell(h)
      ensures result == NeighborsOf(h)
    {
      result := map[];
      for i := 0 to |Directions|
        invariant forall j :: 0 <= j < i ==> Directions[j] in result && result[Directions[j]] == Raw(h, Directions[j])
        invariant forall d :: d in result ==> d in Directions[..i]
      {
        var d := Directions[i];
        result := result[d := GetHexAt(Add(h, Offset(d)))];
      }
      RawLoopComplete(h, result);
      var isEvenRow := HalfRem(h.row) == 0;
      var rowBorders := RowBorders(Width, h.row);
      var leftBorder := rowBorders.left;
      var rightBorder := rowBorders.right;
      if wrapX && wrapY && IsInCorner(h, Width, TopBorder, BottomBorder) {
        // NotImplementedException: unreachable, the grid never wraps vertically
        assert false;
      } else if wrapX && h.column == leftBorder {
        BorderCells(h);
        var west := cells[KeyOf(rightBorder, h.row)];
        result := result[West := Some(west)];
        if !isEvenRow {
          result := result[NorthWest := GetHexAt(Add(west, Offset(NorthEast)))];
          result := result[SouthWest := GetHexAt(Add(west, Offset(SouthEast)))];
        }
        LeftWrapped(h);
      } else if wrapX && h.column == rightBorder {
        BorderCells(h);
        var east := cells[KeyOf(leftBorder, h.row)];
        result := result[East := Some(east)];
        if isEvenRow {
          result := result[NorthEast := GetHexAt(Add(east, Offset(NorthWest)))];
          result := result[SouthEast := GetHexAt(Add(east, Offset(SouthWest)))];
        }
        RightWrapped(h);
      } else if wrapY {
        // NotImplementedException: unreachable, the grid never wraps vertically
        assert false;
      } else {
        Unwrapped(h);
      }
    }

    lemma RawLoopComplete(h: Hex, result: Neighbors)
      requires Shape()
      requires forall j :: 0 <= j < |Directions| ==> Directions[j] in result && result[Directions[j]] == Raw(h, Directions[j])
      requires forall d :: d in result ==> d in Directions
      ensures result == RawNeighbors(h)
    {
      AllDirections();
      forall d: Direction
        ensures d in result && result[d] == Raw(h, d)
      {
        match d
        case NorthEast => assert Directions[0] == d;
        case East => assert Directions[1] == d;
        case SouthEast => assert Directions[2] == d;
        case SouthWest => assert Directions[3] == d;
        case West => assert Directions[4] == d;
        case NorthWest => assert Directions[5] == d;
      }
    }

    lemma BorderCells(h: Hex)
      requires Shape() && IsCell(h)
      ensures KeyOf(RowBorders(Width, h.row).left, h.row) in cells
      ensures KeyOf(RowBorders(Width, h.row).right, h.row) in cells
    {
      CellsAreCells();
      assert InGrid(Hex(RowBorders(Width, h.row).left, h.row));
      assert InGrid(Hex(RowBorders(Width, h.row).right, h.row));
    }

    lemma LeftWrapped(h: Hex)
      requires Shape() && IsCell(h) && wrapX && OnLeftBorder(Width, h)
      ensures KeyOf(RowBorders(Width, h.row).right, h.row) in cells
      ensures
        var west := cells[KeyOf(RowBorders(Width, h.row).right, h.row)];
        var r := RawNeighbors(h)[West := Some(west)];
        NeighborsOf(h) == if HalfRem(h.row) == 0 then r
                          else r[NorthWest := GetHexAt(Add(west, Offset(NorthEast)))]
                                [SouthWest := GetHexAt(Add(west, Offset(SouthEast)))]
    {
      BorderCells(h);
      var west := cells[KeyOf(RowBorders(Width, h.row).right, h.row)];
      var r := RawNeighbors(h)[West := Some(west)];
      var expected := if HalfRem(h.row) == 0 then r
                      else r[NorthWest := GetHexAt(Add(west, Offset(NorthEast)))]
                            [SouthWest := GetHexAt(Add(west, Offset(SouthEast)))];
      forall d
        ensures d in expected && NeighborsOf(h)[d] == expected[d]
      {
        LeftBorderNeighbor(h, d);
        assert NeighborsOf(h)[d] == Neighbor(h, d);
        if d == West {
          assert expected[d] == Some(west);
        } else if (d == NorthWest || d == SouthWest) && HalfRem(h.row) != 0 {
        } else {
          assert expected[d] == RawNeighbors(h)[d] == Raw(h, d);
        }
      }
      SameNeighbors(NeighborsOf(h), expected);
    }

    lemma RightWrapped(h: Hex)
      requires Shape() && IsCell(h) && wrapX && !OnLeftBorder(Width, h) && OnRightBorder(Width, h)
      ensures KeyOf(RowBorders(Width, h.row).left, h.row) in cells
      ensures
        var east := cells[KeyOf(RowBorders(Width, h.row).left, h.row)];
        var r := RawNeighbors(h)[East := Some(east)];
        NeighborsOf(h) == if HalfRem(h.row) == 0
                          then r[NorthEast := GetHexAt(Add(east, Offset(NorthWest)))]
                                [SouthEast := GetHexAt(Add(east, Offset(SouthWest)))]
                          else r
    {
      BorderCells(h);
      var east := cells[KeyOf(RowBorders(Width, h.row).left, h.row)];
      var r := RawNeighbors(h)[East := Some(east)];
      var expected := if HalfRem(h.row) == 0
                      then r[NorthEast := GetHexAt(Add(east, Offset(NorthWest)))]
                            [SouthEast := GetHexAt(Add(east, Offset(SouthWest)))]
                      else r;
      forall d
        ensures d in expected && NeighborsOf(h)[d] == expected[d]
      {
        RightBorderNeighbor(h, d);
        assert NeighborsOf(h)[d] == Neighbor(h, d);
        if d == East {
          assert expected[d] == Some(east);
        } else if (d == NorthEast || d == SouthEast) && HalfRem(h.row) == 0 {
        } else {
          assert expected[d] == RawNeighbors(h)[d] == Raw(h, d);
        }
      }
      SameNeighbors(NeighborsOf(h), expected);
    }

    lemma LeftBorderNeighbor(h: Hex, d: Direction)
      requires Shape() && IsCell(h) && wrapX && OnLeftBorder(Width, h)
      ensures KeyOf(RowBorders(Width, h.row).right, h.row) in cells
      ensures
        var west := cells[KeyOf(RowBorders(Width, h.row).right, h.row)];
        var isEvenRow := HalfRem(h.row) == 0;
        Neighbor(h, d) == if d == West then Some(west)
                          else if d == NorthWest && !isEvenRow then GetHexAt(Add(west, Offset(NorthEast)))
                          else if d == SouthWest && !isEvenRow then GetHexAt(Add(west, Offset(SouthEast)))
                          else Raw(h, d)
    {
      BorderCells(h);
    }

    lemma RightBorderNeighbor(h: Hex, d: Direction)
      requires Shape() && IsCell(h) && wrapX && !OnLeftBorder(Width, h) && OnRightBorder(Width, h)
      ensures KeyOf(RowBorders(Width, h.row).left, h.row) in cells
      ensures
        var east := cells[KeyOf(RowBorders(Width, h.row).left, h.row)];
        var isEvenRow := HalfRem(h.row) == 0;
        Neighbor(h, d) == if d == East then Some(east)
                          else if d == NorthEast && isEvenRow then GetHexAt(Add(east, Offset(NorthWest)))
                          else if d == SouthEast && isEvenRow then GetHexAt(Add(east, Offset(SouthWest)))
                          else Raw(h, d)
    {
      BorderCells(h);
    }

    lemma SameNeighbors(a: Neighbors, b: Neighbors)
      requires forall d :: d in a && d in b && a[d] == b[d]
      ensures a == b
    {
    }

    lemma Unwrapped(h: Hex)
      requires Shape() && IsCell(h)
      requires !wrapX || (!OnLeftBorder(Width, h) && !OnRightBorder(Width, h))
      ensures NeighborsOf(h) == RawNeighbors(h)
    {
    }

    /** The function `GetRandomHex` computes from its two draws. */
    function RandomHexAt(rowDraw: Unit, columnDraw: Unit): Result<Option<Hex>, Exception>
      requires Shape()
    {
      if TopBorder > BottomBorder then Failure(ArgumentOutOfRangeException)
      else
        var row := Scale(TopBorder, BottomBorder, rowDraw);
        var span := RowBorders(Width, row);
        if span.left > span.right then Failure(ArgumentOutOfRangeException)
        else Success(GetHexAtPosition(Scale(span.left, span.right, columnDraw), row))
    }

    /**
     * A random cell exists exactly when the grid has a row. The row is drawn
     * from [TopBorder, BottomBorder) and the column from [left, right) of
     * that row, so the result is always a stored cell and never on the
     * bottom row or in a row's last column unless that range is a single value.
     */
    lemma RandomHexIsCell(rowDraw: Unit, columnDraw: Unit)
      requires Shape()
      ensures RandomHexAt(rowDraw, columnDraw).Success? <==> TopBorder <= BottomBorder
      ensures RandomHexAt(rowDraw, columnDraw).Success? ==>
                var r := RandomHexAt(rowDraw, columnDraw).value;
                && r.Some? && IsCell(r.value)
                && (TopBorder < BottomBorder ==> r.value.row < BottomBorder)
                && (Width >= 2 ==> r.value.column < RowBorders(Width, r.value.row).right)
    {
      if TopBorder <= BottomBorder {
        CellsAreCells();
        HalfTruncates(Width);
        var row := Scale(TopBorder, BottomBorder, rowDraw);
        var span := RowBorders(Width, row);
        GetHexAtExact(Hex(Scale(span.left, span.right, columnDraw), row));
      }
    }

    /** `GetRandomHex(random)`: two integer draws, row first. */
    method GetRandomHex(random: Random) returns (r: Result<Option<Hex>, Exception>)
      requires Shape()
      modifies random`drawn
      ensures r == RandomHexAt(Draw(random.stream, old(random.drawn)), Draw(random.stream, old(random.drawn) + 1))
      ensures random.drawn == old(random.drawn) + if TopBorder <= BottomBorder then 2 else 0
    {
      var row := random.Next(TopBorder, BottomBorder);
      if row.Failure? {
        return Failure(row.error);
      }
      var rowBorders := RowBorders(Width, row.value);
      var column := random.Next(rowBorders.left, rowBorders.right);
      if column.Failure? {
        return Failure(column.error);
      }
      r := Success(GetHexAtPosition(column.value, row.value));
    }

    /** A grid without rows has no cells. */
    lemma NoRowsNoCells()
      requires Shape() && TopBorder > BottomBorder
      ensures cells == map[]
    {
      forall k | k in cells
        ensures false
      {
      }
      assert cells.Keys == {};
    }

    /** Gives the cell `h` the tile `t` (`hex.Tile = …` or an in-place change of it). */
    method SetTile(h: Hex, t: TileState)
      requires Valid() && IsCell(h)
      modifies this`tiles
      ensures Valid() && tiles == old(tiles)[MapKey(h) := t]
    {
      tiles := tiles[MapKey(h) := t];
    }

    /** `GetAllCells()`: every cell once, in an order the model leaves open. */
    method GetAllCells() returns (all: seq<Hex>)
      requires Shape()
      ensures forall i, j :: 0 <= i < j < |all| ==> all[i] != all[j]
      ensures forall h :: h in all <==> IsCell(h)
      ensures |all| == |cells|
    {
      all := [];
      var rest := cells.Keys;
      while rest != {}
        invariant rest <= cells.Keys
        invariant |all| + |rest| == |cells|
        invariant forall i, j :: 0 <= i < j < |all| ==> all[i] != all[j]
        invariant forall h :: h in all <==> IsCell(h) && MapKey(h) !in rest
        decreases rest
      {
        assert exists k :: k in rest by {
          if forall k :: k !in rest {
            assert false;
          }
        }
        var k :| k in rest;
        all := all + [cells[k]];
        rest := rest - {k};
      }
    }

    /** An area so far: stored cells meeting the criteria, none twice. */
    ghost predicate IsArea(area: seq<Hex>, criteria: Option<Hex> -> bool)
    {
      && (forall i, j :: 0 <= i < j < |area| ==> area[i] != area[j])
      && (forall x :: x in area ==> IsCell(x) && criteria(Some(x)))
    }

    /** Every neighbour of `x` that meets the criteria is in `area`. */
    ghost predicate Closed(x: Hex, area: seq<Hex>, criteria: Option<Hex> -> bool)
      requires Shape() && IsCell(x)
    {
      forall d :: criteria(Neighbor(x, d)) ==> Neighbor(x, d).Some? && Neighbor(x, d).value in area
    }

    /**
     * The members of `area` from index `from` on were reached from `root`:
     * the first is `root`, and each later one is a neighbour of an earlier one.
     */
    ghost predicate Descends(area: seq<Hex>, from: nat, root: Hex)
      requires Shape() && from <= |area| && forall x :: x in area ==> IsCell(x)
    {
      && (from < |area| ==> area[from] == root)
      && forall i :: from < i < |area| ==>
           exists j, d :: from <= j < i && Neighbor(area[j], d) == Some(area[i])
    }

    /** The cells not yet in the area. */
    ghost function Unvisited(area: seq<Hex>): set<Hex>
    {
      cells.Values - set x | x in area
    }

    /**
     * `GetArea(start, criteria)`: the flood fill from `start` through the
     * neighbour dictionaries. The criteria never accept a missing neighbour.
     * The result repeats no cell, holds only cells meeting the criteria,
     * holds `start` exactly when it meets them, and is closed: every
     * neighbour of a member that meets the criteria is a member. It is empty
     * when `start` fails the criteria; otherwise it begins with `start`, and
     * every later member is a neighbour of an earlier one.
     */
    method GetArea(start: Hex, criteria: Option<Hex> -> bool) returns (area: seq<Hex>)
      requires Valid() && IsCell(start) && !criteria(None)
      modifies this`neighborCache
      ensures Valid()
      ensures old(neighborCache).Keys <= neighborCache.Keys
      ensures IsArea(area, criteria)
      ensures start in area <==> criteria(Some(start))
      ensures forall x :: x in area ==> Closed(x, area, criteria)
      ensures !criteria(Some(start)) ==> area == []
      ensures Descends(area, 0, start)
    {
      area := Visit(Some(start), criteria, []);
    }

    /**
     * The local `Recursion(hex)`: nothing when the criteria reject the
     * neighbour or it is already in the area; otherwise append it and recurse
     * into its neighbours in direction order. The area only grows, and every
     * cell the call appends is closed in the area it returns; the first one
     * appended is `hex`, and each later one a neighbour of an earlier one.
     */
    method Visit(hex: Option<Hex>, criteria: Option<Hex> -> bool, area: seq<Hex>) returns (result: seq<Hex>)
      requires Valid() && !criteria(None)
      requires hex.Some? ==> IsCell(hex.value)
      requires IsArea(area, criteria)
      modifies this`neighborCache
      ensures Valid()
      ensures old(neighborCache).Keys <= neighborCache.Keys
      ensures IsArea(result, criteria)
      ensures |area| <= |result| && result[..|area|] == area
      ensures criteria(hex) ==> hex.Some? && hex.value in result
      ensures forall x :: x in result[|area|..] ==> Closed(x, result, criteria)
      ensures hex.None? || !criteria(hex) || hex.value in area ==> result == area
      ensures hex.Some? ==> Descends(result, |area|, hex.value)
      decreases Unvisited(area), 0
    {
      if !criteria(hex) || hex.value in area {
        return area;
      }
      var h := hex.value;
      result := area + [h];
      var neighbors := GetNeighbors(h);
      for i := 0 to |Directions|
        invariant Valid()
        invariant old(neighborCache).Keys <= neighborCache.Keys
        invariant Visiting(area, h, neighbors, i, result, criteria)
      {
        VisitShrinks(area, h, result);
        result := VisitDirection(area, h, neighbors, i, result, criteria);
      }
      VisitCloses(area, h, neighbors, result, criteria);
    }

    /**
     * What the loop over the directions of `Recursion(h)` keeps: the area
     * so far extends `area + [h]`, every neighbour met in the first `i`
     * directions that meets the criteria is in it, the cells appended after
     * `h` are closed, and they were all reached from `h`.
     */
    ghost predicate Visiting(area: seq<Hex>, h: Hex, neighbors: Neighbors, i: nat, result: seq<Hex>,
                             criteria: Option<Hex> -> bool)
      requires Shape()
    {
      && IsCell(h) && h !in area && neighbors == NeighborsOf(h) && i <= |Directions|
      && IsArea(result, criteria)
      && |area| < |result| && result[..|area| + 1] == area + [h]
      && Reached(neighbors, i, result, criteria)
      && (forall x :: x in result[|area| + 1..] ==> Closed(x, result, criteria))
      && Descends(result, |area|, h)
    }

    /** One pass of that loop: the recursion into the neighbour in direction `i`. */
    method VisitDirection(area: seq<Hex>, h: Hex, neighbors: Neighbors, i: nat, result: seq<Hex>,
                          criteria: Option<Hex> -> bool) returns (result': seq<Hex>)
      requires Valid() && !criteria(None) && i < |Directions|
      requires Visiting(area, h, neighbors, i, result, criteria)
      modifies this`neighborCache
      ensures Valid()
      ensures old(neighborCache).Keys <= neighborCache.Keys
      ensures Visiting(area, h, neighbors, i + 1, result', criteria)
      decreases Unvisited(result), 1
    {
      result' := Visit(neighbors[Directions[i]], criteria, result);
      AreaGrows(result, result', |area| + 1, criteria);
      ReachedNext(neighbors, i, result, result', criteria);
      DescendsGrow(result, result', |area|, h, Directions[i]);
    }

    /** Once every direction is visited, the appended cell and all after it are closed. */
    lemma VisitCloses(area: seq<Hex>, h: Hex, neighbors: Neighbors, result: seq<Hex>, criteria: Option<Hex> -> bool)
      requires Shape() && IsCell(h) && neighbors == NeighborsOf(h)
      requires IsArea(result, criteria)
      requires |area| < |result| && result[..|area| + 1] == area + [h]
      requires Reached(neighbors, |Directions|, result, criteria)
      requires forall x :: x in result[|area| + 1..] ==> Closed(x, result, criteria)
      ensures result[..|area|] == area && h in result
      ensures forall x :: x in result[|area|..] ==> Closed(x, result, criteria)
    {
      forall d
        ensures criteria(Neighbor(h, d)) ==> Neighbor(h, d).Some? && Neighbor(h, d).value in result
      {
        var j := DirectionIndex(d);
      }
      assert Closed(h, result, criteria);
      assert result[|area|] == h by {
        assert result[..|area| + 1][|area|] == h;
      }
      assert result[..|area|] == area by {
        assert result[..|area|] == result[..|area| + 1][..|area|];
      }
      forall x | x in result[|area|..]
        ensures Closed(x, result, criteria)
      {
        if x != h {
          var k :| |area| <= k < |result| && result[k] == x;
          assert result[|area| + 1..][k - |area| - 1] == x;
        }
      }
    }

    /**
     * A visit of a neighbour of the cell at `from` keeps the appended cells
     * reached from that cell.
     */
    lemma DescendsGrow(before: seq<Hex>, after: seq<Hex>, from: nat, root: Hex, d: Direction)
      requires Shape() && from < |before| <= |after| && after[..|before|] == before
      requires forall x :: x in after ==> IsCell(x)
      requires Descends(before, from, root)
      requires var next := Neighbor(before[from], d);
               after == before || (next.Some? && Descends(after, |before|, next.value))
      ensures Descends(after, from, root)
    {
      assert forall x :: x in before ==> x in after;
      forall i | from < i < |after|
        ensures exists j, d' :: from <= j < i && Neighbor(after[j], d') == Some(after[i])
      {
        if i < |before| {
          assert after[i] == before[i];
          var j, d' :| from <= j < i && Neighbor(before[j], d') == Some(before[i]);
          assert after[j] == before[j];
        } else if i == |before| {
          assert after[from] == before[from];
        } else {
          var j, d' :| |before| <= j < i && Neighbor(after[j], d') == Some(after[i]);
        }
      }
      assert after[from] == before[from];
    }

    /** Appending a cell not yet in the area leaves fewer cells unvisited. */
    lemma VisitShrinks(area: seq<Hex>, h: Hex, result: seq<Hex>)
      requires IsCell(h) && h !in area
      requires |area| < |result| && result[..|area| + 1] == area + [h]
      ensures Unvisited(result) < Unvisited(area)
    {
      assert h in cells.Values by {
        assert cells[MapKey(h)] == h;
      }
      assert h == result[|area|];
      forall x | x in area
        ensures x in result
      {
        var i :| 0 <= i < |area| && area[i] == x;
        assert result[i] == x;
      }
      assert h in Unvisited(area) && h !in Unvisited(result);
    }

    /**
     * Extending an area keeps its members, and cells closed in the shorter
     * area stay closed in the longer one.
     */
    lemma AreaGrows(before: seq<Hex>, after: seq<Hex>, from: nat, criteria: Option<Hex> -> bool)
      requires Shape()
      requires IsArea(before, criteria) && IsArea(after, criteria) && from <= |before|
      requires |before| <= |after| && after[..|before|] == before
      requires forall x :: x in before[from..] ==> Closed(x, before, criteria)
      requires forall x :: x in after[|before|..] ==> Closed(x, after, criteria)
      ensures forall x :: x in before ==> x in after
      ensures forall x :: x in after[from..] ==> Closed(x, after, criteria)
      ensures after[..from] == before[..from]
    {
      assert after[..from] == after[..|before|][..from];
      forall x | x in before
        ensures x in after
      {
        var i :| 0 <= i < |before| && before[i] == x;
        assert after[i] == x;
      }
      forall x | x in after[from..]
        ensures Closed(x, after, criteria)
      {
        var i :| from <= i < |after| && after[i] == x;
        if i < |before| {
          assert x in before[from..] by {
            assert before[i] == x;
          }
        } else {
          assert x in after[|before|..] by {
            assert after[|before|..][i - |before|] == x;
          }
        }
      }
    }
  }

  /** The position of a direction in the enumeration order. */
  lemma DirectionIndex(d: Direction) returns (j: nat)
    ensures j < |Directions| && Directions[j] == d
  {
    match d
    case NorthEast => j := 0;
    case East => j := 1;
    case SouthEast => j := 2;
    case SouthWest => j := 3;
    case West => j := 4;
    case NorthWest => j := 5;
  }

  /**
   * `new Grid(width, height, wrapX, wrapY)` with its two failures: wrapY
   * throws NotImplementedException before any cell is made, and a negative
   * `height * width` capacity throws ArgumentOutOfRangeException.
   */
  method NewGrid(width: int, height: int, wrapX: bool, wrapY: bool) returns (r: Result<Grid, Exception>)
    requires height < ColumnKeyOffset
    ensures wrapY ==> r == Failure(NotImplementedException)
    ensures !wrapY && height * width < 0 ==> r == Failure(ArgumentOutOfRangeException)
    ensures !wrapY && height * width >= 0 ==>
              && r.Success? && fresh(r.value) && r.value.Valid()
              && r.value.Width == width && r.value.wrapX == wrapX
              && r.value.TopBorder == TopBorderOf(height) && r.value.BottomBorder == BottomBorderOf(height)
              && (forall h :: r.value.IsCell(h) <==> r.value.InGrid(h))
              && r.value.tiles == (map k | k in r.value.cells :: OceanTile)
              && r.value.neighborCache == map[]
  {
    if wrapY {
      return Failure(NotImplementedException);
    }
    if height * width < 0 {
      return Failure(ArgumentOutOfRangeException);
    }
    var grid := new Grid(width, height, wrapX);
    r := Success(grid);
  }
}
