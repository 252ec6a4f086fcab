/**
 `olc::SpriteMap`: a sprite sheet cut into a grid of equal cells, where a
 cell is addressed by a single index counted row by row.
 Drawing is recorded as the engine call it would make.
 */
module SpriteMaps {
  import opened Cpp
  import opened Geometry

  /** `sheet` is the size of the underlying sprite, `spriteSize` the size of
      one cell, and `width` x `height` the grid of whole cells. */
  datatype SpriteMap = SpriteMap(sheet: IVec2, spriteSize: IVec2, width: int, height: int)

  /** One call `SpriteMap::Draw(pge, index, position, scale, tint)`, as issued
      by the font and tile code. */
  datatype SpriteDraw = SpriteDraw(index: int, position: Vec2, scale: Vec2, tint: Pixel)

  /** The engine calls a sprite map makes. */
  datatype DecalCall =
    | DrawPartialDecal(position: Vec2, sourcePos: IVec2, sourceSize: IVec2, scale: Vec2, tint: Pixel)
    | DrawPartialRotatedDecal(position: Vec2, angle: real, center: Vec2, sourcePos: IVec2,
                              sourceSize: IVec2, scale: Vec2, tint: Pixel)

  /** Every sprite map comes from the constructor, which divides by both cell sides. */
  predicate Valid(sm: SpriteMap)
  {
    && sm.spriteSize.x != 0 && sm.spriteSize.y != 0
    && sm.width == TDiv(sm.sheet.x, sm.spriteSize.x)
    && sm.height == TDiv(sm.sheet.y, sm.spriteSize.y)
  }

  /** The constructor: the grid counts the whole cells that fit across and
      down the sheet. */
  function NewSpriteMap(sheet: IVec2, size: IVec2): (sm: SpriteMap)
    requires sheet.x >= 0 && sheet.y >= 0
    requires size.x != 0 && size.y != 0
    ensures Valid(sm) && sm.sheet == sheet && sm.spriteSize == size
    ensures size.x > 0 ==> 0 <= sm.width * size.x <= sheet.x < (sm.width + 1) * size.x
    ensures size.y > 0 ==> 0 <= sm.height * size.y <= sheet.y < (sm.height + 1) * size.y
  {
    CellCount(sheet.x, size.x);
    CellCount(sheet.y, size.y);
    SpriteMap(sheet, size, TDiv(sheet.x, size.x), TDiv(sheet.y, size.y))
  }

  /** Top-left corner, in the sheet, of the cell with the given index. */
  function CellOf(sm: SpriteMap, idx: int): IVec2
    requires sm.width != 0
  {
    var row := TDiv(idx, sm.width);
    var col := TRem(idx, sm.width);
    IVec2(col * sm.spriteSize.x, row * sm.spriteSize.y)
  }

  /** The index whose cell starts at `pos`: the inverse of `CellOf`. */
  function IndexOfCell(sm: SpriteMap, pos: IVec2): int
    requires Valid(sm) && sm.width != 0
  {
    TDiv(pos.y, sm.spriteSize.y) * sm.width + TDiv(pos.x, sm.spriteSize.x)
  }

  /** `SpriteMap::Draw`: draws the cell `idx` at `position`. */
  function Draw(sm: SpriteMap, idx: int, position: Vec2, scale: Vec2, tint: Pixel): (call: DecalCall)
    requires Valid(sm) && sm.width != 0
    ensures call.DrawPartialDecal?
    ensures call.position == position && call.scale == scale && call.tint == tint
    ensures call.sourceSize == sm.spriteSize
    ensures call.sourcePos == CellOf(sm, idx)
    ensures IndexOfCell(sm, call.sourcePos) == idx
    ensures sm.width > 0 && idx >= 0 ==>
              call.sourcePos == IVec2((idx % sm.width) * sm.spriteSize.x, (idx / sm.width) * sm.spriteSize.y)
  {
    CellRoundTrip(sm, idx);
    var call := DrawPartialDecal(position, CellOf(sm, idx), sm.spriteSize, scale, tint);
    if sm.width > 0 && idx >= 0 then CellOfRowMajor(sm, idx); call else call
  }

  /** `SpriteMap::DrawRotated`: the same cell as `Draw`, handed to the rotating blit
      (the integer position widens to the engine's float position). */
  function DrawRotated(sm: SpriteMap, idx: int, position: IVec2, angle: real, center: Vec2,
                       scale: Vec2, tint: Pixel): (call: DecalCall)
    requires Valid(sm) && sm.width != 0
    ensures call.DrawPartialRotatedDecal?
    ensures call.position == ToReal(position) && call.angle == angle && call.center == center
    ensures call.scale == scale && call.tint == tint && call.sourceSize == sm.spriteSize
    ensures call.sourcePos == Draw(sm, idx, ToReal(position), scale, tint).sourcePos
  {
    DrawPartialRotatedDecal(ToReal(position), angle, center, CellOf(sm, idx), sm.spriteSize, scale, tint)
  }

  /** For a non-negative index the cell is found row-major: column
      `idx % width`, row `idx / width`, where C++ and Dafny division agree. */
  lemma CellOfRowMajor(sm: SpriteMap, idx: int)
    requires sm.width > 0 && idx >= 0
    ensures CellOf(sm, idx) == IVec2((idx % sm.width) * sm.spriteSize.x, (idx / sm.width) * sm.spriteSize.y)
  {
    assert TDiv(idx, sm.width) == idx / sm.width;
    assert TRem(idx, sm.width) == idx % sm.width;
  }

  /** Every index, of either sign, is recovered from its cell's corner. */
  lemma CellRoundTrip(sm: SpriteMap, idx: int)
    requires Valid(sm) && sm.width != 0
    ensures IndexOfCell(sm, CellOf(sm, idx)) == idx
  {
    var row, col := TDiv(idx, sm.width), TRem(idx, sm.width);
    assert idx == sm.width * row + col;
    TDivOfMultiple(col, sm.spriteSize.x);
    TDivOfMultiple(row, sm.spriteSize.y);
    assert IndexOfCell(sm, CellOf(sm, idx)) == row * sm.width + col;
  }

  /** Distinct indices draw distinct cells. */
  lemma CellInjective(sm: SpriteMap, i: int, j: int)
    requires Valid(sm) && sm.width != 0
    requires i != j
    ensures CellOf(sm, i) != CellOf(sm, j)
  {
    CellRoundTrip(sm, i);
    CellRoundTrip(sm, j);
  }

  lemma MulMono(a: int, b: int, c: int)
    requires a <= b && c >= 0
    ensures a * c <= b * c
  {
    assert b * c - a * c == (b - a) * c;
  }

  /** For an index inside the grid, the whole source rectangle lies on the sheet. */
  lemma CellInSheet(sm: SpriteMap, idx: int)
    requires Valid(sm) && sm.sheet.x >= 0 && sm.sheet.y >= 0
    requires sm.spriteSize.x > 0 && sm.spriteSize.y > 0 && sm.width != 0
    requires 0 <= idx < sm.width * sm.height
    ensures 0 <= CellOf(sm, idx).x && CellOf(sm, idx).x + sm.spriteSize.x <= sm.sheet.x
    ensures 0 <= CellOf(sm, idx).y && CellOf(sm, idx).y + sm.spriteSize.y <= sm.sheet.y
  {
    var w, h := sm.width, sm.height;
    WholeCells(sm.sheet.x, sm.spriteSize.x);
    WholeCells(sm.sheet.y, sm.spriteSize.y);
    GridCell(w, h, idx);
    CellFits(TRem(idx, w), w, sm.spriteSize.x, sm.sheet.x);
    CellFits(TDiv(idx, w), h, sm.spriteSize.y, sm.sheet.y);
  }

  /** The whole cells counted across a side fit on that side. */
  lemma WholeCells(total: int, size: int)
    requires total >= 0 && size > 0
    ensures 0 <= TDiv(total, size) && TDiv(total, size) * size <= total
  {
    var q := TDiv(total, size);
    assert total - size * q >= 0;
    if q < 0 {
      MulMono(q, -1, size);
    }
  }

  /** Dividing a side into cells of positive size counts exactly the whole cells. */
  lemma CellCount(total: int, size: int)
    requires total >= 0 && size != 0
    ensures size > 0 ==> 0 <= TDiv(total, size) * size <= total < (TDiv(total, size) + 1) * size
  {
    if size > 0 {
      assert TDiv(total, size) == total / size;
      EuclidDiv(total, size);
      Floor(total, size, total / size, total % size);
    }
  }

  lemma EuclidDiv(total: int, size: int)
    requires total >= 0 && size > 0
    ensures total == size * (total / size) + total % size
    ensures 0 <= total % size < size && total / size >= 0
  {
  }

  /** Quotient and remainder bound the dividend by whole multiples. */
  lemma Floor(total: int, size: int, q: int, r: int)
    requires total == size * q + r && 0 <= r < size && q >= 0
    ensures 0 <= q * size <= total < (q + 1) * size
  {
    MulMono(0, q, size);
    assert (q + 1) * size == q * size + size;
  }

  /** Cell number `k` of `n` cells of side `size` ends inside `n * size`. */
  lemma CellFits(k: int, n: int, size: int, total: int)
    requires 0 <= k < n && size > 0 && n * size <= total
    ensures 0 <= k * size && k * size + size <= total
  {
    MulMono(0, k, size);
    MulMono(k + 1, n, size);
  }

  /** An index inside a `w` x `h` grid has its column below `w` and its row below `h`. */
  lemma GridCell(w: int, h: int, idx: int)
    requires w > 0 && 0 <= idx < w * h
    ensures 0 <= idx % w < w && 0 <= idx / w < h
  {
    var row, col := idx / w, idx % w;
    assert idx == w * row + col;
    if row >= h {
      MulMono(h, row, w);
      assert false;
    }
  }

  /** A negative index (a C++ `char` above 127) always reads from outside the sheet. */
  lemma NegativeIndexOffSheet(sm: SpriteMap, idx: int)
    requires Valid(sm) && sm.width > 0 && sm.spriteSize.x > 0 && sm.spriteSize.y > 0
    requires idx < 0
    ensures CellOf(sm, idx).x < 0 || CellOf(sm, idx).y < 0
  {
    var row, col := TDiv(idx, sm.width), TRem(idx, sm.width);
    if col == 0 {
      assert idx == sm.width * row;
      if row >= 0 { MulMono(0, row, sm.width); assert false; }
      assert row < 0;
      MulMono(row, -1, sm.spriteSize.y);
    } else {
      MulMono(col, -1, sm.spriteSize.x);
    }
  }
}
