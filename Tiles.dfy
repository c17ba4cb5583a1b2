/**
 * Tile.cs: the terrain held by a cell. `ChangeTile` is the only mutator;
 * it stores the new type first and then derives the water flag and the
 * glyph, throwing `ArgumentException` for a type it has no mapping for.
 * Only Ocean and Desert have a mapping.
 */
module Tiles {
  import opened Wrappers

  datatype TileType =
    | Ocean | Desert | Mountain | Hill | Grassland
    | Steppe | Tundra | Jungle | Forest | Swamp

  /** The three properties of a tile: `Type`, `IsWater`, `Printable`. */
  datatype TileState = TileState(kind: TileType, isWater: bool, printable: string)

  /** What `ChangeTile` leaves behind, and whether it threw. */
  datatype ChangeResult = ChangeResult(tile: TileState, thrown: bool)

  const OceanGlyph: string := "▓▓▓"
  const DesertGlyph: string := "░░░"

  /** The types `ChangeTile` has a mapping for. */
  predicate Known(t: TileType)
  {
    t == Ocean || t == Desert
  }

  /** The derived fields agree with the type. */
  predicate WellFormed(s: TileState)
  {
    && Known(s.kind)
    && (s.isWater <==> s.kind == Ocean)
    && s.printable == (if s.kind == Ocean then OceanGlyph else DesertGlyph)
  }

  /**
   * `ChangeTile(t)` applied to a tile in state `s`. The type is written
   * before the switch, so a rejected type is stored while the water flag
   * and the glyph keep their previous values.
   */
  function Changed(s: TileState, t: TileType): (r: ChangeResult)
    ensures r.thrown <==> !Known(t)
    ensures r.tile.kind == t
  {
    var s := s.(kind := t);
    match s.kind
    case Ocean => ChangeResult(s.(isWater := true, printable := OceanGlyph), false)
    case Desert => ChangeResult(s.(isWater := false, printable := DesertGlyph), false)
    case _ => ChangeResult(s, true)
  }

  /** The two accepted types fix all three fields, whatever the tile held before. */
  lemma ChangedKnown(s: TileState)
    ensures Changed(s, Ocean) == ChangeResult(TileState(Ocean, true, OceanGlyph), false)
    ensures Changed(s, Desert) == ChangeResult(TileState(Desert, false, DesertGlyph), false)
  {
  }

  /** A rejected type throws after overwriting only the type. */
  lemma ChangedRejects(s: TileState, t: TileType)
    requires !Known(t)
    ensures Changed(s, t) == ChangeResult(TileState(t, s.isWater, s.printable), true)
  {
  }

  /** After a change that did not throw, the tile is well formed: water exactly when Ocean. */
  lemma ChangedWellFormed(s: TileState, t: TileType)
    ensures !Changed(s, t).thrown ==> WellFormed(Changed(s, t).tile)
    ensures !Changed(s, t).thrown ==> (Changed(s, t).tile.isWater <==> t == Ocean)
  {
  }

  /** Changing to the same type twice leaves what changing once left, thrown or not. */
  lemma ChangedIdempotent(s: TileState, t: TileType)
    ensures Changed(Changed(s, t).tile, t) == Changed(s, t)
  {
  }

  /** The fields of a freshly allocated tile, before its constructor body runs. */
  const Blank: TileState := TileState(Ocean, false, "")

  /** `new Tile(t)`: `ChangeTile(t)` on a blank tile; `None` when it throws. */
  function NewTile(t: TileType): (r: Option<TileState>)
    ensures r.Some? <==> Known(t)
    ensures r.Some? ==> WellFormed(r.value) && r.value.kind == t
  {
    var c := Changed(Blank, t);
    if c.thrown then None else Some(c.tile)
  }

  /** The tile every cell starts with. */
  const OceanTile: TileState := TileState(Ocean, true, OceanGlyph)
  const DesertTile: TileState := TileState(Desert, false, DesertGlyph)

  lemma NewTileKnown()
    ensures NewTile(Ocean) == Some(OceanTile)
    ensures NewTile(Desert) == Some(DesertTile)
  {
  }

  class Tile {
    var kind: TileType
    var isWater: bool
    var printable: string

    function State(): TileState
      reads this
    {
      TileState(kind, isWater, printable)
    }

    /** `new Tile(type)`; the throwing case is `NewTile(type) == None`. */
    constructor (t: TileType)
      requires Known(t)
      ensures Some(State()) == NewTile(t)
    {
      kind, isWater, printable := Blank.kind, Blank.isWater, Blank.printable;
      new;
      var thrown := ChangeTile(t);
    }

    /** `ChangeTile(type)`; `thrown` stands for the `ArgumentException`. */
    method ChangeTile(t: TileType) returns (thrown: bool)
      modifies this
      ensures Changed(old(State()), t) == ChangeResult(State(), thrown)
    {
      kind := t;
      match kind
      case Ocean =>
        isWater := true;
        printable := OceanGlyph;
        thrown := false;
      case Desert =>
        isWater := false;
        printable := DesertGlyph;
        thrown := false;
      case _ =>
        thrown := true;
    }

    /** `ToString()` prints the glyph. */
    function ToString(): (s: string)
      reads this
      ensures s == printable
      ensures WellFormed(State()) ==> (s == OceanGlyph <==> isWater)
    {
      printable
    }
  }
}
