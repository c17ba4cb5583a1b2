/**
 * Hex.cs: an offset hex coordinate (column, row), its lookup key, vector
 * arithmetic and the border tests.
 */
module Hexes {
  import opened Runtime

  /** Keys are `column * ColumnKeyOffset + row`. */
  const ColumnKeyOffset: int := 32768

  /** A cell position; immutable, compared by its two coordinates. */
  datatype Hex = Hex(column: int, row: int)

  /** The instance `MapKey()` of a coordinate. */
  function MapKey(h: Hex): int
  {
    h.column * ColumnKeyOffset + h.row
  }

  /** The static `MapKey(column, row)`. */
  function KeyOf(column: int, row: int): int
  {
    column * ColumnKeyOffset + row
  }

  /** Both spellings of the key agree. */
  lemma MapKeyIsKeyOf(h: Hex)
    ensures MapKey(h) == KeyOf(h.column, h.row)
  {
  }

  /**
   * Two coordinates whose rows differ by less than the column offset share
   * a key only if they are equal: the key is injective on any band of fewer
   * than 32768 consecutive rows.
   */
  lemma MapKeyInjective(a: Hex, b: Hex)
    requires -ColumnKeyOffset < a.row - b.row < ColumnKeyOffset
    requires MapKey(a) == MapKey(b)
    ensures a == b
  {
  }

  lemma KeysDiffer(a: Hex, b: Hex)
    requires -ColumnKeyOffset < a.row - b.row < ColumnKeyOffset
    ensures a != b ==> MapKey(a) != MapKey(b)
  {
    if MapKey(a) == MapKey(b) {
      MapKeyInjective(a, b);
    }
  }

  /** A key always fits a 32-bit int while |column| < 65536 and |row| < 16384. */
  lemma KeyFitsInt32(h: Hex)
    requires -65536 < h.column < 65536 && -16384 < h.row < 16384
    ensures -0x8000_0000 <= MapKey(h) <= IntMaxValue
  {
    assert -65535 * ColumnKeyOffset <= h.column * ColumnKeyOffset <= 65535 * ColumnKeyOffset;
  }

  /** `operator +` */
  function Add(left: Hex, right: Hex): Hex
  {
    Hex(left.column + right.column, left.row + right.row)
  }

  /** `operator -` */
  function Sub(left: Hex, right: Hex): Hex
  {
    Hex(left.column - right.column, left.row - right.row)
  }

  /** `+` and `-` are component-wise: subtracting undoes adding, and (0, 0) is neutral. */
  lemma AddSubInverse(a: Hex, b: Hex)
    ensures Sub(Add(a, b), b) == a
    ensures Add(Sub(a, b), b) == a
    ensures Add(a, Hex(0, 0)) == a
    ensures MapKey(Add(a, b)) == MapKey(a) + MapKey(b)
  {
  }

  predicate IsAtTopBorder(h: Hex, topBorder: int)
  {
    h.row == topBorder
  }

  predicate IsAtBottomBorder(h: Hex, bottomBorder: int)
  {
    h.row == bottomBorder
  }

  /**
   * As written in the source: the row offset uses `row % 2` where the grid's
   * row-border formula uses `Math.Abs(row % 2)`.
   */
  predicate IsAtLeftBorder(h: Hex, width: int)
  {
    h.column == Half(-width) - 1 + HalfRem(width) - Half(h.row + HalfRem(h.row))
  }

  predicate IsAtRightBorder(h: Hex, width: int)
  {
    h.column == Half(width) - 1 + HalfRem(width) - Half(h.row + HalfRem(h.row))
  }

  predicate IsInCorner(h: Hex, width: int, topBorder: int, bottomBorder: int)
  {
    (IsAtLeftBorder(h, width) || IsAtRightBorder(h, width)) &&
    (IsAtTopBorder(h, topBorder) || IsAtBottomBorder(h, bottomBorder))
  }

  /** For a width above 1 no cell is on both the left and the right border of its row. */
  lemma BorderTestsExclusive(h: Hex, width: int)
    ensures width > 1 ==> !(IsAtLeftBorder(h, width) && IsAtRightBorder(h, width))
  {
    if width > 1 {
      HalfTruncates(width);
      HalfTruncates(-width);
    }
  }
}
