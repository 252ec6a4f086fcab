/**
 `olc::Tile`: a block of sprite-map cells drawn as one tile, with a set of
 attribute flags. The flags are an `enum class` over `int`, so every flag
 operation is a bitwise operation on a 32-bit value.
 */
module Tiles {
  import opened Cpp
  import opened Geometry
  import opened SpriteMaps

  /** `olc::TileAttributes`, as its underlying 32-bit `int`. */
  type Attributes = bv32

  const NoAttributes: Attributes := 0x0000
  const Walk: Attributes := 0x0001
  const RequiresCanoe: Attributes := 0x0002
  const RequiresBoat: Attributes := 0x0004
  const RequiresAirship: Attributes := 0x0008
  const PartialHidePlayer: Attributes := 0x0010

  /** Bit `i` of `x`. */
  predicate IsSet(x: Attributes, i: bv5)
  {
    (x >> i) & 1 == 1
  }

  /** The flag with only bit `i` set. */
  function Flag(i: bv5): Attributes
  {
    1 << i
  }

  /** The lowest set bit of a non-empty set of flags. */
  function Lowest(x: Attributes): (i: bv5)
    requires x != NoAttributes
    ensures IsSet(x, i)
  {
    if x & 1 == 1 then 0
    else
      var j := Lowest(x >> 1);
      ShiftedBit(x, j);
      j + 1
  }

  /** Bit `j` of `x >> 1` is bit `j + 1` of `x`. */
  lemma ShiftedBit(x: Attributes, j: bv5)
    requires IsSet(x >> 1, j)
    ensures IsSet(x, j + 1)
  {
  }

  /** The attributes that keep a tile from being walked on. */
  const Vehicles: Attributes := RequiresAirship | RequiresCanoe | RequiresBoat

  /** A tile. `sprites` holds the sprite-map index of each of its cells, row
      by row, `stride` cells to a row; `size` is stored but not used here. */
  datatype Tile = Tile(id: Int32, sprites: seq<Byte>, attributes: Attributes,
                       spritemap: SpriteMap, stride: Int32, height: Int32, size: IVec2)

  /** C++'s conversion of an `int` to `size_t` (64 bits): a negative value wraps. */
  function ToSize(i: int): nat
  {
    i % 0x1_0000_0000_0000_0000
  }

  /** C++'s conversion `(int)` of a `size_t`: keeps the low 32 bits, read as two's complement. */
  function ToInt(n: nat): Int32
  {
    (n + 0x8000_0000) % 0x1_0000_0000 - 0x8000_0000
  }

  /** The constructor. The row count divides the cell count by the stride
      after the stride has been converted to `size_t`, so a zero stride
      divides by zero. */
  function NewTile(spritemap: SpriteMap, id: Int32, sprites: seq<Byte>, stride: Int32,
                   size: IVec2, attributes: Attributes): (t: Tile)
    requires stride != 0
    ensures Valid(t)
    ensures t.id == id && t.sprites == sprites && t.stride == stride
    ensures t.spritemap == spritemap && t.size == size && t.attributes == attributes
    ensures t.height == RowCount(|sprites|, stride)
    ensures 0 < stride && |sprites| < 0x8000_0000 ==>
              0 <= t.height * stride <= |sprites| < (t.height + 1) * stride
    ensures stride < 0 && |sprites| < 0x8000_0000_0000_0000 ==> t.height == 0
  {
    HeightFits(|sprites|, stride);
    RowCountWholeRows(|sprites|, stride);
    Tile(id, sprites, attributes, spritemap, stride, RowCount(|sprites|, stride), size)
  }

  /** `(int)(sprites.size() / stride)`. */
  function RowCount(count: nat, stride: Int32): Int32
    requires stride != 0
  {
    ToInt(count / ToSize(stride))
  }

  /** With a positive stride and fewer than 2^31 cells the row count is the
      number of whole rows; with a negative stride the stride wraps to a
      huge `size_t` and there are no rows. */
  lemma RowCountWholeRows(count: nat, stride: Int32)
    requires stride != 0
    ensures 0 < stride && count < 0x8000_0000 ==>
              0 <= RowCount(count, stride) * stride <= count < (RowCount(count, stride) + 1) * stride
    ensures stride < 0 && count < 0x8000_0000_0000_0000 ==> RowCount(count, stride) == 0
  {
    if 0 < stride && count < 0x8000_0000 {
      RowCountPositive(count, stride);
    }
    if stride < 0 {
      NegativeStride(count, stride);
    }
  }

  /** The positive case: the row count is the number of whole rows. */
  lemma RowCountPositive(count: nat, stride: Int32)
    requires 0 < stride && count < 0x8000_0000
    ensures 0 <= RowCount(count, stride) * stride <= count < (RowCount(count, stride) + 1) * stride
  {
    PositiveStride(count, stride);
    var q := count / stride;
    assert q <= count by { MulMono(1, stride, q); }
    ToIntSmall(q);
    assert RowCount(count, stride) == q;
    MulMono(0, q, stride);
  }

  /** A positive stride converts to itself. */
  lemma PositiveStride(count: nat, stride: Int32)
    requires stride > 0
    ensures ToSize(stride) == stride
    ensures RowCount(count, stride) == ToInt(count / stride)
    ensures count / stride * stride <= count < (count / stride + 1) * stride
  {
  }

  /** A negative stride converts to a `size_t` above 2^63, larger than any
      vector. */
  lemma NegativeStride(count: nat, stride: Int32)
    requires stride < 0
    ensures ToSize(stride) == stride + 0x1_0000_0000_0000_0000
    ensures count < 0x8000_0000_0000_0000 ==> RowCount(count, stride) == 0
  {
    var d := stride + 0x1_0000_0000_0000_0000;
    assert ToSize(stride) == d;
    if count < 0x8000_0000_0000_0000 {
      var q := count / d;
      assert count == d * q + count % d;
      if q > 0 {
        MulMono(1, q, d);
        assert false;
      }
      assert q == 0;
    }
  }

  /** Narrowing keeps small values and never increases a value. */
  lemma ToIntSmall(n: nat)
    ensures ToInt(n) <= n
    ensures n < 0x8000_0000 ==> ToInt(n) == n
  {
  }

  /** Whatever the conversions do, the rows the constructor counts never ask
      for more cells than there are. */
  lemma HeightFits(count: nat, stride: Int32)
    requires stride != 0
    ensures stride > 0 ==> RowCount(count, stride) * stride <= count
  {
    if stride > 0 {
      var q := count / stride;
      PositiveStride(count, stride);
      ToIntSmall(q);
      MulMono(ToInt(q), q, stride);
    }
  }

  /** The tile's rows of cells cover no more cells than it holds; true of
      every tile the constructor makes. */
  predicate Valid(t: Tile)
  {
    t.stride > 0 ==> t.height * t.stride <= |t.sprites|
  }

  /** The number of rows and of columns the drawing loops run through. */
  function Rows(t: Tile): nat
  {
    if t.height > 0 then t.height else 0
  }

  function Cols(t: Tile): nat
  {
    if t.stride > 0 then t.stride else 0
  }

  /** Cell (row, col) of the tile is entry `row * stride + col`, which exists. */
  lemma CellInRange(t: Tile, row: int, col: int)
    requires Valid(t) && 0 <= row < Rows(t) && 0 <= col < Cols(t)
    ensures 0 <= row * t.stride + col < |t.sprites|
  {
    MulMono(0, row, t.stride);
    MulMono(row + 1, t.height, t.stride);
  }

  /** The `SpriteMap::Draw` call for cell (row, col): the cell's sprite, one
      unit right per column and one unit down per row from `position`. */
  function CellDraw(t: Tile, position: Vec2, scale: Vec2, tint: Pixel, row: int, col: int): SpriteDraw
    requires Valid(t) && 0 <= row < Rows(t) && 0 <= col < Cols(t)
  {
    CellInRange(t, row, col);
    SpriteDraw(t.sprites[row * t.stride + col], Vec2(position.x + col as real, position.y + row as real), scale, tint)
  }

  /** The inner drawing loop for row `row`, columns 0 .. n-1. */
  function RowDraws(t: Tile, position: Vec2, scale: Vec2, tint: Pixel, row: nat, n: nat): (ds: seq<SpriteDraw>)
    requires Valid(t) && row < Rows(t) && n <= Cols(t)
    ensures |ds| == n
  {
    if n == 0 then []
    else RowDraws(t, position, scale, tint, row, n - 1) + [CellDraw(t, position, scale, tint, row, n - 1)]
  }

  /** The outer drawing loop over rows 0 .. r-1. */
  function RowsDraws(t: Tile, position: Vec2, scale: Vec2, tint: Pixel, r: nat): seq<SpriteDraw>
    requires Valid(t) && r <= Rows(t)
  {
    if r == 0 then []
    else RowsDraws(t, position, scale, tint, r - 1) + RowDraws(t, position, scale, tint, r - 1, Cols(t))
  }

  /** `Tile::Draw`: every cell, row by row and left to right within a row,
      reading the cells in storage order. */
  method Draw(t: Tile, position: Vec2, scale: Vec2, tint: Pixel) returns (draws: seq<SpriteDraw>)
    requires Valid(t)
    ensures draws == RowsDraws(t, position, scale, tint, Rows(t))
  {
    draws := [];
    var idx := 0;
    var row := 0;
    while row < t.height
      invariant 0 <= row <= Rows(t)
      invariant idx == row * Cols(t)
      invariant draws == RowsDraws(t, position, scale, tint, row)
    {
      var col := 0;
      assert RowsDraws(t, position, scale, tint, row) + RowDraws(t, position, scale, tint, row, 0)
          == RowsDraws(t, position, scale, tint, row);
      while col < t.stride
        invariant 0 <= col <= Cols(t)
        invariant idx == row * Cols(t) + col
        invariant draws == RowsDraws(t, position, scale, tint, row) + RowDraws(t, position, scale, tint, row, col)
      {
        CellInRange(t, row, col);
        var offset := Vec2(position.x + col as real, position.y + row as real);
        ghost var done := draws;
        draws := draws + [SpriteDraw(t.sprites[idx], offset, scale, tint)];
        assert RowsDraws(t, position, scale, tint, row) + RowDraws(t, position, scale, tint, row, col + 1)
            == done + [CellDraw(t, position, scale, tint, row, col)];
        idx := idx + 1;
        col := col + 1;
      }
      row := row + 1;
    }
  }

  /** Drawing issues one call per cell, `height * stride` in all. */
  lemma {:induction false} DrawCount(t: Tile, position: Vec2, scale: Vec2, tint: Pixel, r: nat)
    requires Valid(t) && r <= Rows(t)
    ensures |RowsDraws(t, position, scale, tint, r)| == r * Cols(t)
  {
    if r > 0 {
      DrawCount(t, position, scale, tint, r - 1);
    }
  }

  lemma {:induction false} RowDrawsAt(t: Tile, position: Vec2, scale: Vec2, tint: Pixel, row: nat, n: nat, col: nat)
    requires Valid(t) && row < Rows(t) && n <= Cols(t) && col < n
    ensures RowDraws(t, position, scale, tint, row, n)[col] == CellDraw(t, position, scale, tint, row, col)
  {
    if col < n - 1 {
      RowDrawsAt(t, position, scale, tint, row, n - 1, col);
    }
  }

  lemma {:induction false} RowsDrawsAt(t: Tile, position: Vec2, scale: Vec2, tint: Pixel, r: nat, row: nat, col: nat)
    requires Valid(t) && r <= Rows(t) && row < r && col < Cols(t)
    ensures var ds, k := RowsDraws(t, position, scale, tint, r), row * Cols(t) + col;
            0 <= k < |ds| && ds[k] == CellDraw(t, position, scale, tint, row, col)
  {
    DrawCount(t, position, scale, tint, r);
    DrawCount(t, position, scale, tint, r - 1);
    MulMono(row + 1, r, Cols(t));
    if row < r - 1 {
      RowsDrawsAt(t, position, scale, tint, r - 1, row, col);
      MulMono(row + 1, r - 1, Cols(t));
    } else {
      RowDrawsAt(t, position, scale, tint, row, Cols(t), col);
    }
  }

  /** Draw number `row * stride + col` draws the sprite stored for cell
      (row, col) at `position + (col, row)`: the traversal is row-major and
      reads the cells in the order they are stored. */
  lemma DrawOrder(t: Tile, position: Vec2, scale: Vec2, tint: Pixel, row: nat, col: nat)
    requires Valid(t) && row < Rows(t) && col < Cols(t)
    ensures |RowsDraws(t, position, scale, tint, Rows(t))| == Rows(t) * Cols(t)
    ensures var k := row * t.stride + col;
            k < |t.sprites| && RowsDraws(t, position, scale, tint, Rows(t))[k]
              == SpriteDraw(t.sprites[k], Vec2(position.x + col as real, position.y + row as real), scale, tint)
  {
    DrawCount(t, position, scale, tint, Rows(t));
    RowsDrawsAt(t, position, scale, tint, Rows(t), row, col);
    CellInRange(t, row, col);
  }

  // ----- attributes -----
  // The operators `|`, `&` and `~` of `TileAttributes`, and `|=` and `&=`,
  // which store the same values, are the bit-vector operators on `bv32`.

  /** `Tile::canWalk`: none of the three vehicle requirements is set. */
  function CanWalk(t: Tile): bool
  {
    t.attributes & Vehicles == NoAttributes
  }

  /** A tile can be walked on exactly when it requires neither canoe, nor
      boat, nor airship. */
  lemma CanWalkNoVehicle(t: Tile)
    ensures CanWalk(t) <==> t.attributes & RequiresCanoe == NoAttributes
                            && t.attributes & RequiresBoat == NoAttributes
                            && t.attributes & RequiresAirship == NoAttributes
  {
    NoVehicle(t.attributes);
  }

  lemma NoVehicle(x: Attributes)
    ensures x & Vehicles == NoAttributes <==> x & RequiresCanoe == NoAttributes
                                              && x & RequiresBoat == NoAttributes
                                              && x & RequiresAirship == NoAttributes
  {
  }

  /** `Tile::hasAttribute`: the tile has at least one of the given flags. */
  function HasAttribute(t: Tile, a: Attributes): (r: bool)
    ensures a == NoAttributes ==> !r
  {
    a & t.attributes != NoAttributes
  }

  /** `Tile::setAttribute`: turns on the given flags. */
  function SetAttribute(t: Tile, a: Attributes): Tile
  {
    t.(attributes := t.attributes | a)
  }

  /** `Tile::unsetAttribute`: turns off the given flags. */
  function UnsetAttribute(t: Tile, a: Attributes): Tile
  {
    t.(attributes := t.attributes & !a)
  }

  /** `Tile::toggleAttribute`: turns the flags off when the tile has any of
      them, on otherwise, and says whether it turned them on. */
  function ToggleAttribute(t: Tile, a: Attributes): (r: (Tile, bool))
    ensures r.1 <==> t.attributes & a == NoAttributes
  {
    if HasAttribute(t, a) then (UnsetAttribute(t, a), false) else (SetAttribute(t, a), true)
  }

  /** When `toggleAttribute(a)` answers true, every flag of `a` is on ... */
  lemma ToggleOnSetsFlags(t: Tile, a: Attributes)
    ensures ToggleAttribute(t, a).1 ==> ToggleAttribute(t, a).0.attributes & a == a
  {
    if !HasAttribute(t, a) {
      assert ToggleAttribute(t, a).0 == SetAttribute(t, a);
      SetAttributeEffect(t, a);
    }
  }

  /** ... when it answers false, every flag of `a` is off ... */
  lemma ToggleOffClearsFlags(t: Tile, a: Attributes)
    ensures !ToggleAttribute(t, a).1 ==> ToggleAttribute(t, a).0.attributes & a == NoAttributes
  {
    if HasAttribute(t, a) {
      assert ToggleAttribute(t, a).0 == UnsetAttribute(t, a);
      UnsetAttributeEffect(t, a);
    }
  }

  /** ... and either way the flags outside `a` are as they were. */
  lemma ToggleKeepsOtherFlags(t: Tile, a: Attributes)
    ensures ToggleAttribute(t, a).0.attributes & !a == t.attributes & !a
  {
    if HasAttribute(t, a) {
      assert ToggleAttribute(t, a).0 == UnsetAttribute(t, a);
      UnsetAttributeEffect(t, a);
    } else {
      assert ToggleAttribute(t, a).0 == SetAttribute(t, a);
      SetAttributeEffect(t, a);
    }
  }

  /** The flag operations change the attributes and nothing else. */
  lemma FlagsChangeOnlyAttributes(t: Tile, a: Attributes)
    ensures SetAttribute(t, a).(attributes := t.attributes) == t
    ensures UnsetAttribute(t, a).(attributes := t.attributes) == t
    ensures ToggleAttribute(t, a).0.(attributes := t.attributes) == t
  {
  }

  /** After `setAttribute(a)` every flag of `a` is on and every other flag is
      as it was. */
  lemma SetAttributeEffect(t: Tile, a: Attributes)
    ensures SetAttribute(t, a).attributes & a == a
    ensures SetAttribute(t, a).attributes & !a == t.attributes & !a
  {
  }

  /** After `unsetAttribute(a)` every flag of `a` is off and every other flag
      is as it was. */
  lemma UnsetAttributeEffect(t: Tile, a: Attributes)
    ensures UnsetAttribute(t, a).attributes & a == NoAttributes
    ensures UnsetAttribute(t, a).attributes & !a == t.attributes & !a
  {
  }

  /** Bit by bit, `&` is "both". */
  lemma BothBits(a: Attributes, b: Attributes, i: bv5)
    ensures IsSet(a & b, i) <==> IsSet(a, i) && IsSet(b, i)
  {
  }

  /** `hasAttribute(a)` holds exactly when some flag of `a` is set on the tile. */
  lemma HasAttributeShares(t: Tile, a: Attributes)
    ensures HasAttribute(t, a) <==> exists i: bv5 :: IsSet(a, i) && IsSet(t.attributes, i)
  {
    var x := t.attributes;
    if a & x != NoAttributes {
      var i := Lowest(a & x);
      BothBits(a, x, i);
    } else {
      forall i: bv5
        ensures !(IsSet(a, i) && IsSet(x, i))
      {
        BothBits(a, x, i);
      }
    }
  }

  /** A bit of the attributes after `setAttribute(a)` is set exactly when it
      was set before or is one of `a`'s. */
  lemma SetAttributeBits(t: Tile, a: Attributes, i: bv5)
    ensures IsSet(SetAttribute(t, a).attributes, i) <==> IsSet(t.attributes, i) || IsSet(a, i)
  {
    var x := t.attributes;
    assert SetAttribute(t, a).attributes == x | a;
    EitherBits(x, a, i);
  }

  /** Bit by bit, `|` is "either". */
  lemma EitherBits(a: Attributes, b: Attributes, i: bv5)
    ensures IsSet(a | b, i) <==> IsSet(a, i) || IsSet(b, i)
  {
  }

  /** A bit of the attributes after `unsetAttribute(a)` is set exactly when it
      was set before and is not one of `a`'s. */
  lemma UnsetAttributeBits(t: Tile, a: Attributes, i: bv5)
    ensures IsSet(UnsetAttribute(t, a).attributes, i) <==> IsSet(t.attributes, i) && !IsSet(a, i)
  {
    var x := t.attributes;
    assert UnsetAttribute(t, a).attributes == x & !a;
    ClearedBits(x, a, i);
  }

  /** Bit by bit, `& ~` is "the first but not the second". */
  lemma ClearedBits(a: Attributes, b: Attributes, i: bv5)
    ensures IsSet(a & !b, i) <==> IsSet(a, i) && !IsSet(b, i)
  {
  }

  /** After setting any non-empty flags the tile has them; after unsetting
      them it has none of them. */
  lemma SetThenHas(t: Tile, a: Attributes)
    ensures a != NoAttributes ==> HasAttribute(SetAttribute(t, a), a)
    ensures !HasAttribute(UnsetAttribute(t, a), a)
  {
  }

  /** Setting twice is setting once. */
  lemma SetIdempotent(t: Tile, a: Attributes)
    ensures SetAttribute(SetAttribute(t, a), a) == SetAttribute(t, a)
  {
    var x := t.attributes;
    assert (x | a) | a == x | a;
  }

  /** Unsetting twice is unsetting once. */
  lemma UnsetIdempotent(t: Tile, a: Attributes)
    ensures UnsetAttribute(UnsetAttribute(t, a), a) == UnsetAttribute(t, a)
  {
    var x := t.attributes;
    assert (x & !a) & !a == x & !a;
  }

  /** Toggling a single flag twice gives the tile back. */
  lemma ToggleTwice(t: Tile, i: bv5)
    ensures ToggleAttribute(ToggleAttribute(t, Flag(i)).0, Flag(i)).0 == t
  {
    FlagNonEmpty(i);
    if Flag(i) & t.attributes != NoAttributes {
      FlagIsOn(t.attributes, i);
      ToggleAllTwice(t, Flag(i));
    } else {
      ToggleNoneTwice(t, Flag(i));
    }
  }

  /** Toggling twice restores a tile that has all of `a` ... */
  lemma ToggleAllTwice(t: Tile, a: Attributes)
    requires a != NoAttributes && t.attributes & a == a
    ensures ToggleAttribute(ToggleAttribute(t, a).0, a).0 == t
  {
    var u := UnsetAttribute(t, a);
    ToggleWhenHas(t, a);
    SetThenHas(t, a);
    ToggleWhenLacks(u, a);
    SetRestores(t, a);
  }

  /** ... and one that has none of it. */
  lemma ToggleNoneTwice(t: Tile, a: Attributes)
    requires a != NoAttributes && a & t.attributes == NoAttributes
    ensures ToggleAttribute(ToggleAttribute(t, a).0, a).0 == t
  {
    var u := SetAttribute(t, a);
    ToggleWhenLacks(t, a);
    SetThenHas(t, a);
    ToggleWhenHas(u, a);
    UnsetRestores(t, a);
  }

  lemma ToggleWhenHas(t: Tile, a: Attributes)
    requires HasAttribute(t, a)
    ensures ToggleAttribute(t, a).0 == UnsetAttribute(t, a)
  {
  }

  lemma ToggleWhenLacks(t: Tile, a: Attributes)
    requires !HasAttribute(t, a)
    ensures ToggleAttribute(t, a).0 == SetAttribute(t, a)
  {
  }

  /** Clearing flags the tile has all of, then setting them, gives the tile back. */
  lemma SetRestores(t: Tile, a: Attributes)
    requires t.attributes & a == a
    ensures SetAttribute(UnsetAttribute(t, a), a) == t
  {
    var x := t.attributes;
    assert SetAttribute(UnsetAttribute(t, a), a).attributes == (x & !a) | a;
    RestoreSet(x, a);
  }

  /** Setting flags the tile has none of, then clearing them, gives the tile back. */
  lemma UnsetRestores(t: Tile, a: Attributes)
    requires a & t.attributes == NoAttributes
    ensures UnsetAttribute(SetAttribute(t, a), a) == t
  {
    var x := t.attributes;
    assert UnsetAttribute(SetAttribute(t, a), a).attributes == (x | a) & !a;
    RestoreClear(x, a);
  }

  /** Clearing a flag that is on, then setting it, gives the value back. */
  lemma ClearThenSet(x: Attributes, i: bv5)
    requires Flag(i) & x != NoAttributes
    ensures Flag(i) & (x & !Flag(i)) == NoAttributes
    ensures (x & !Flag(i)) | Flag(i) == x
  {
    var f := Flag(i);
    FlagIsOn(x, i);
    ClearedMissing(x, f);
    RestoreSet(x, f);
  }

  /** Setting a flag that is off, then clearing it, gives the value back. */
  lemma SetThenClear(x: Attributes, i: bv5)
    requires Flag(i) & x == NoAttributes
    ensures Flag(i) & (x | Flag(i)) != NoAttributes
    ensures (x | Flag(i)) & !Flag(i) == x
  {
    var f := Flag(i);
    FlagNonEmpty(i);
    SetPresent(x, f);
    RestoreClear(x, f);
  }

  /** A single flag that shares a bit with `x` is wholly in `x`. */
  lemma FlagIsOn(x: Attributes, i: bv5)
    requires Flag(i) & x != NoAttributes
    ensures x & Flag(i) == Flag(i)
  {
  }

  lemma FlagNonEmpty(i: bv5)
    ensures Flag(i) != NoAttributes
  {
  }

  lemma ClearedMissing(x: Attributes, f: Attributes)
    ensures f & (x & !f) == NoAttributes
  {
  }

  lemma RestoreSet(x: Attributes, f: Attributes)
    requires x & f == f
    ensures (x & !f) | f == x
  {
  }

  lemma SetPresent(x: Attributes, f: Attributes)
    requires f != NoAttributes
    ensures f & (x | f) != NoAttributes
  {
  }

  lemma RestoreClear(x: Attributes, f: Attributes)
    requires f & x == NoAttributes
    ensures (x | f) & !f == x
  {
  }


  /** For several flags at once toggling is not an involution: a tile that
      can walk, toggled by walk-or-boat, loses walk and then gains both. */
  lemma ToggleSeveralTwice()
    ensures var t := Tile(0, [], Walk, SpriteMap(IVec2(0, 0), IVec2(1, 1), 0, 0), 1, 0, IVec2(0, 0));
            var a := Walk | RequiresBoat;
            ToggleAttribute(ToggleAttribute(t, a).0, a).0.attributes == Walk | RequiresBoat != t.attributes
  {
  }

  /** Whether a tile can be walked on depends only on the vehicle flags:
      setting `WALK`, `PARTIAL_HIDE_PLAYER` or any other flag outside the
      three requirements leaves it unchanged ... */
  lemma CanWalkIgnoresSet(t: Tile, a: Attributes)
    requires a & Vehicles == NoAttributes
    ensures CanWalk(SetAttribute(t, a)) == CanWalk(t)
  {
    SetOutside(t.attributes, a, Vehicles);
  }

  /** ... and so does clearing them. */
  lemma CanWalkIgnoresUnset(t: Tile, a: Attributes)
    requires a & Vehicles == NoAttributes
    ensures CanWalk(UnsetAttribute(t, a)) == CanWalk(t)
  {
    ClearOutside(t.attributes, a, Vehicles);
  }

  /** Setting flags outside a mask leaves the value's part inside the mask alone. */
  lemma SetOutside(x: Attributes, a: Attributes, m: Attributes)
    requires a & m == NoAttributes
    ensures (x | a) & m == x & m
  {
  }

  /** Clearing flags outside a mask leaves the value's part inside the mask alone. */
  lemma ClearOutside(x: Attributes, a: Attributes, m: Attributes)
    requires a & m == NoAttributes
    ensures (x & !a) & m == x & m
  {
  }

  /** In particular for the two flags that are not requirements. */
  lemma CanWalkIgnoresWalkAndHide(t: Tile)
    ensures CanWalk(SetAttribute(t, Walk | PartialHidePlayer)) == CanWalk(t)
    ensures CanWalk(UnsetAttribute(t, Walk | PartialHidePlayer)) == CanWalk(t)
  {
    CanWalkIgnoresSet(t, Walk | PartialHidePlayer);
    CanWalkIgnoresUnset(t, Walk | PartialHidePlayer);
  }
}
