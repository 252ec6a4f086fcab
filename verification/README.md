# pgefont in Dafny

A model of the three extensions in pgefont, a font and tile add-on for the
olc::PixelGameEngine:

- `olc::Font` lays text out over a sprite map of glyph cells and measures it.
  `olc::MonospaceFont` is a font whose glyphs are all one cell wide.
  `olc::TTFFont` renders a TrueType face into a one-row glyph atlas.
- `olc::SpriteMap` cuts a sprite sheet into a grid of equal cells and draws a
  cell by its index.
- `olc::Tile` is a block of sprite-map cells drawn as one tile, with a set of
  attribute flags.

The engine is not modelled. A call the extensions make into it becomes a
record: `SpriteDraw` is a call to `SpriteMap::Draw`, `DecalCall` is the
partial-decal blit that call makes, and `PixelWrite` is one `Sprite::SetPixel`.
An operation returns the sequence of records it issues. FreeType is also
outside the model. An opened face is given as its glyph count and, for each
`char` value, the bitmap and metrics that loading it yields, or `None` when
loading fails.

C++ details are written out where the code depends on them:

- A `char` is signed 8-bit (`Cpp.CChar`).
- `(char)c` keeps the low 8 bits (`Cpp.ToChar`).
- `int` division and remainder truncate toward zero (`Cpp.TDiv`, `Cpp.TRem`).
- An `int` becomes a `size_t` modulo 2^64 (`Tiles.ToSize`), and a `size_t`
  narrows back to `int` by keeping 32 bits (`Tiles.ToInt`).
- `TileAttributes` is a `bv32`.
- The engine's `float` vectors are reals.

Files:

| file | module | models |
|---|---|---|
| cpp.dfy | `Cpp` | C++ integer behaviour |
| geometry.dfy | `Geometry` | `vf2d`, `vi2d`, `Pixel` |
| spritemap.dfy | `SpriteMaps` | `src/olcPGEX_SpriteMap.h` |
| sprite.dfy | `Sprites` | the engine sprite that `BuildSprite` writes into |
| font.dfy | `Fonts` | `Font` and `MonospaceFont` in `src/olcPGEX_Font.h` |
| ttf.dfy | `TrueType` | `TTFFont` in `src/olcPGEX_Font.h` |
| tile.dfy | `Tiles` | `src/olcPGEX_Tile.h` |

Loops that the C++ runs are methods with loop invariants. Each method is tied
to a recursive reference definition of what it issues: `Fonts.Layout` for the
string walks, `Tiles.RowsDraws` for the tile traversal, and `TrueType.Writes`
and `TrueType.Stored` for the atlas builder. `Fonts.Pen` is the closed form of
the pen offset that `Layout` places each glyph at. Lemmas then state what those
definitions mean.

## Model

| member | source | states |
|---|---|---|
| Cpp.TDiv | src/olcPGEX_SpriteMap.h:84 | C++ `/`: the remainder it leaves is smaller than the divisor and has the dividend's sign, and it agrees with floor division on non-negative operands |
| Cpp.TRem | src/olcPGEX_SpriteMap.h:85 | C++ `%`: dividend = divisor * quotient + remainder, with the remainder smaller than the divisor and of the dividend's sign |
| Cpp.TDivUnique | src/olcPGEX_SpriteMap.h:84-85 | truncating division is the only quotient whose remainder is smaller than the divisor and has the dividend's sign |
| Cpp.ToChar | src/olcPGEX_Font.h:286 | `(char)c` differs from `c` by a multiple of 256 and lies in -128..127 |
| SpriteMaps.NewSpriteMap | src/olcPGEX_SpriteMap.h:74-79 | the grid counts the whole cells across and down the sheet: `width * cellW <= sheetW < (width + 1) * cellW`, and the same for the height |
| SpriteMaps.Draw | src/olcPGEX_SpriteMap.h:82-89 | issues one partial-decal blit of one cell at the given position, scale and tint; for a non-negative index the source corner is `(idx % width * cellW, idx / width * cellH)`, and for any index it maps back to the index |
| SpriteMaps.CellOfRowMajor | src/olcPGEX_SpriteMap.h:84-86 | for a non-negative index and a positive grid width, the cell is column `idx % width`, row `idx / width`, in plain floor division |
| SpriteMaps.DrawRotated | src/olcPGEX_SpriteMap.h:91-98 | the rotated blit reads the same source cell as `Draw`, and passes on the widened position, angle, centre, scale and tint |
| SpriteMaps.CellRoundTrip | src/olcPGEX_SpriteMap.h:84-86 | every index, negative ones included, is recovered from the corner of its cell |
| SpriteMaps.CellInjective | src/olcPGEX_SpriteMap.h:84-86 | distinct indices read distinct cells |
| SpriteMaps.CellInSheet | src/olcPGEX_SpriteMap.h:77-86 | for `0 <= idx < width * height` the whole source rectangle lies inside the sheet |
| SpriteMaps.NegativeIndexOffSheet | src/olcPGEX_SpriteMap.h:84-86 | a negative index, such as a `char` above 127 passed by the font, always reads from outside the sheet |
| Sprites.SetPixelEffect | src/olcPGEX_Font.h:308 | `SetPixel` changes exactly the addressed pixel when it is on the sprite, and nothing otherwise |
| Sprites.ApplyUntouched | src/olcPGEX_Font.h:303-310 | after a run of writes, a pixel that no write addresses keeps its colour |
| Sprites.ApplyLastWrite | src/olcPGEX_Font.h:303-310 | after a run of writes, a pixel holds the colour of the last write that addresses it |
| Sprites.ApplyKeepsColours | src/olcPGEX_Font.h:279-310 | any property that every original pixel and every written colour have holds of every pixel afterwards |
| Sprites.Clear | src/olcPGEX_Font.h:280-282 | the clearing loop leaves every pixel transparent, whatever the sprite held, and keeps its size |
| Fonts.DrawString | src/olcPGEX_Font.h:104-120 | issues exactly the draws of the horizontal layout: one per character that is not a newline, in order, each naming that character's cell |
| Fonts.PenStart | src/olcPGEX_Font.h:106 | the pen starts at (0, 0) |
| Fonts.PenNewline | src/olcPGEX_Font.h:109-113 | a newline sets pen.x to 0 and adds `font_height * scale.y` to pen.y |
| Fonts.PenGlyph | src/olcPGEX_Font.h:114-118 | any other character adds `widths[c] * scale.x` to pen.x and leaves pen.y unchanged |
| Fonts.DrawVerticalString | src/olcPGEX_Font.h:122-138 | issues exactly the draws of the vertical layout: one per character that is not a newline, in order, each naming that character's cell |
| Fonts.PenStepVertical | src/olcPGEX_Font.h:127-136 | vertically, a newline sets pen.y to 0 and adds `font_width * scale.x` to pen.x; any other character adds `font_height * scale.y` to pen.y |
| Fonts.VerticalIgnoresWidths | src/olcPGEX_Font.h:122-138 | vertical layout never reads the width table: fonts that differ only in their widths lay out every message identically |
| Fonts.LayoutIndices | src/olcPGEX_Font.h:107-118 | a layout has `|msg| - newlines` draws, and their cells are the message's non-newline characters in order |
| Fonts.LayoutPlacement | src/olcPGEX_Font.h:107-118 | the non-newline character at position `i` is draw number (visible characters before `i`), drawn at `pos` plus the pen after `msg[..i]` |
| Fonts.LayoutPrefix | src/olcPGEX_Font.h:107-119 | the draws for a prefix of a message are a prefix of the message's draws |
| Fonts.FirstGlyphAtOrigin | src/olcPGEX_Font.h:106-116 | a message that does not start with a newline draws its first character exactly at `pos` |
| Fonts.VisibleCount | src/olcPGEX_Font.h:107-118 | every character is either a newline or drawn, never both |
| Fonts.MeasureString | src/olcPGEX_Font.h:178-193 | width is the sum of `widths` over every character, newlines included; height is `sprite_size.y * (1 + newlines)`, so "" measures `(0, sprite_size.y)` |
| Fonts.WidthSumConcat | src/olcPGEX_Font.h:182-190 | the measured width is additive over concatenation: it is a sum over all characters, not the widest line |
| Fonts.NewlinesConcat | src/olcPGEX_Font.h:182-187 | the line count is additive over concatenation |
| Fonts.MeasureMatchesPen | src/olcPGEX_Font.h:178-193 | on a single line, the measured width times `scale.x` is exactly where `DrawString` leaves the pen |
| Fonts.MonospaceFont | src/olcPGEX_Font.h:227-237 | the cell is the glyph size, and the width table has `sheetW / cellW` entries, each `cellW` |
| Fonts.MonospaceMeasure | src/olcPGEX_Font.h:236 | a monospaced message measures `cellW * |message|` wide |
| Fonts.SheetFontLinePitchMismatch | src/olcPGEX_Font.h:86-93 | for every sheet font as written whose glyphs are not square and every message with a newline, `MeasureString` gives `font_width * (1 + newlines)`, not `font_height * (1 + newlines)`, while `DrawString` steps `font_height * scale.y` per newline |
| Fonts.SheetFontLineHeightMismatch | src/olcPGEX_Font.h:92 | with glyphs 8 wide and 16 tall, the cells come out 16 x 8, so a measured line is 8 tall while `DrawString` steps 16 per line: "\n" measures 16, exactly where its second line begins |
| Fonts.SheetFontFixed | src/olcPGEX_Font.h:86-93 | the sheet font with cells declared `{font_width, font_height}`: the cell size equals the glyph size |
| Fonts.SheetFontFixedLinePitch | src/olcPGEX_Font.h:92 | for the fixed sheet font, the measured height per line equals the line pitch of `DrawString` |
| TrueType.SizeArgumentIgnored | src/olcPGEX_Font.h:243-246 | whatever size the constructor is given, `BuildSprite` asks FreeType for 12 points |
| TrueType.SizeArgumentHonoured | src/olcPGEX_Font.h:268 | a constructor that stores its size argument asks FreeType for that size |
| TrueType.LoadCharWraps | src/olcPGEX_Font.h:286 | glyph numbers 256 apart load the same `char` |
| TrueType.BuildSprite | src/olcPGEX_Font.h:248-317 | fails exactly when FreeType cannot be set up. Otherwise: the atlas is the cleared `16n x 16` strip after every glyph blit; cells are 16 x 16; `widths[c]` and `heights[c]` are the advances of glyph `c` divided by 64, truncated, or 0 when it failed to load |
| TrueType.LoadGlyphs | src/olcPGEX_Font.h:284-311 | the glyph loop stores every glyph's advances and applies all the atlas writes, glyph by glyph |
| TrueType.LoadGlyph | src/olcPGEX_Font.h:286-310 | one glyph: a glyph that fails to load changes no entry and no pixel; a loaded glyph fills only its own two entries and appends its blit |
| TrueType.Blit | src/olcPGEX_Font.h:303-310 | the blit loops apply the glyph's writes, rows top to bottom, each row left to right |
| TrueType.StoredAt | src/olcPGEX_Font.h:277-299 | after the loop, entry `c` holds glyph `c`'s truncated advance if it loaded, else 0 |
| TrueType.GlyphWritesAt | src/olcPGEX_Font.h:301-308 | write number `row * width + col` puts bitmap pixel (row, col) at `(col + 16c + left, row + 14 - top)` as white at its coverage |
| TrueType.GlyphWritesAreBlits | src/olcPGEX_Font.h:303-309 | every write of a glyph's blit comes from one of its bitmap pixels |
| TrueType.GlyphStaysInCell | src/olcPGEX_Font.h:301-308 | a bitmap that fits its cell, bearings included, is written only inside the cell at x = `16c` |
| TrueType.AtlasCellOfGlyph | src/olcPGEX_Font.h:313-314 | the atlas sprite map has `n` cells in one row, and glyph `c` is read from x = `16c`, where it was blitted |
| TrueType.AtlasColours | src/olcPGEX_Font.h:279-308 | every atlas pixel is transparent or white, so tinting colours the glyphs |
| TrueType.AtlasUntouched | src/olcPGEX_Font.h:279-282 | an atlas pixel that no glyph writes to stays transparent |
| TrueType.BlankIsCleared | src/olcPGEX_Font.h:280-282 | a sprite whose every pixel is transparent is the blank sprite of its size |
| Tiles.NewTile | src/olcPGEX_Tile.h:43-52 | the constructor stores its arguments; with a positive stride and fewer than 2^31 cells, `height` is the number of whole rows (`height * stride <= cells < (height + 1) * stride`); with a negative stride it is 0 |
| Tiles.RowCountPositive | src/olcPGEX_Tile.h:49 | with a positive stride and fewer than 2^31 cells, the narrowed quotient is the number of whole rows |
| Tiles.RowCountWholeRows | src/olcPGEX_Tile.h:49 | with a positive stride, `height` is the number of whole rows of cells; a negative stride wraps to a huge `size_t` and gives 0 rows |
| Tiles.HeightFits | src/olcPGEX_Tile.h:49 | even after the `int` narrowing, `height * stride` never exceeds the number of cells |
| Tiles.Draw | src/olcPGEX_Tile.h:54-65 | the drawing loops issue exactly the row-major traversal of the tile's cells |
| Tiles.DrawCount | src/olcPGEX_Tile.h:56-63 | the traversal makes `height * stride` draws |
| Tiles.DrawOrder | src/olcPGEX_Tile.h:56-63 | draw `row * stride + col` uses `sprites[row * stride + col]`, an existing entry, at `position + (col, row)` |
| Tiles.EitherBits | src/olcPGEX_Tile.h:17-19 | bit by bit, `|` is "either" |
| Tiles.BothBits | src/olcPGEX_Tile.h:21-23 | bit by bit, `&` is "both" |
| Tiles.ClearedBits | src/olcPGEX_Tile.h:34-37 | bit by bit, `a &= ~b` keeps the bits of `a` that are not in `b` |
| Tiles.CanWalkNoVehicle | src/olcPGEX_Tile.h:67-70 | `canWalk` holds exactly when none of `REQUIRES_CANOE`, `REQUIRES_BOAT` and `REQUIRES_AIRSHIP` is set |
| Tiles.CanWalkIgnoresSet | src/olcPGEX_Tile.h:67-70 | setting any flags outside the three requirements leaves `canWalk` unchanged |
| Tiles.CanWalkIgnoresUnset | src/olcPGEX_Tile.h:67-70 | clearing any flags outside the three requirements leaves `canWalk` unchanged |
| Tiles.CanWalkIgnoresWalkAndHide | src/olcPGEX_Tile.h:67-70 | `WALK` and `PARTIAL_HIDE_PLAYER` do not affect `canWalk` |
| Tiles.HasAttribute | src/olcPGEX_Tile.h:72-75 | asking for no flags always answers false |
| Tiles.HasAttributeShares | src/olcPGEX_Tile.h:72-75 | `hasAttribute(a)` holds exactly when some bit of `a` is set on the tile |
| Tiles.FlagsChangeOnlyAttributes | src/olcPGEX_Tile.h:77-99 | setting, unsetting and toggling change the attributes and no other member |
| Tiles.SetAttributeEffect | src/olcPGEX_Tile.h:77-80 | after `setAttribute(a)` every flag of `a` is on and every other flag is unchanged |
| Tiles.SetAttributeBits | src/olcPGEX_Tile.h:77-80 | after `setAttribute(a)` a bit is set exactly when it was set before or is in `a` |
| Tiles.UnsetAttributeEffect | src/olcPGEX_Tile.h:82-85 | after `unsetAttribute(a)` every flag of `a` is off and every other flag is unchanged |
| Tiles.UnsetAttributeBits | src/olcPGEX_Tile.h:82-85 | after `unsetAttribute(a)` a bit is set exactly when it was set before and is not in `a` |
| Tiles.SetThenHas | src/olcPGEX_Tile.h:72-85 | after setting a non-empty `a` the tile has `a`; after unsetting `a` it has none of it |
| Tiles.SetIdempotent | src/olcPGEX_Tile.h:77-80 | setting twice equals setting once |
| Tiles.UnsetIdempotent | src/olcPGEX_Tile.h:82-85 | unsetting twice equals unsetting once |
| Tiles.ToggleAttribute | src/olcPGEX_Tile.h:87-99 | returns true exactly when the tile had none of the flags of `a` |
| Tiles.ToggleOnSetsFlags | src/olcPGEX_Tile.h:94-98 | when the toggle answers true, every flag of `a` is on afterwards |
| Tiles.ToggleOffClearsFlags | src/olcPGEX_Tile.h:89-93 | when the toggle answers false, every flag of `a` is off afterwards |
| Tiles.ToggleKeepsOtherFlags | src/olcPGEX_Tile.h:87-99 | either way, every flag outside `a` is as it was |
| Tiles.ToggleTwice | src/olcPGEX_Tile.h:87-99 | toggling a single-bit flag twice restores the tile |
| Tiles.ToggleAllTwice | src/olcPGEX_Tile.h:87-99 | toggling flags that are all on twice restores the tile: the first toggle clears them and the second sets them back |
| Tiles.ToggleNoneTwice | src/olcPGEX_Tile.h:87-99 | toggling flags that are all off twice restores the tile: the first toggle sets them and the second clears them again |
| Tiles.ClearThenSet | src/olcPGEX_Tile.h:87-99 | for a single flag that is on, clearing it and then setting it gives the attributes back |
| Tiles.SetThenClear | src/olcPGEX_Tile.h:87-99 | for a single flag that is off, setting it and then clearing it gives the attributes back |
| Tiles.ToggleSeveralTwice | src/olcPGEX_Tile.h:87-99 | for several flags at once, toggling twice need not restore the tile: `WALK` toggled twice by `WALK or REQUIRES_BOAT` becomes both |

## Left out

- Drawing itself. `DrawPartialDecal`, `DrawPartialRotatedDecal` and `DrawDecal` are engine calls, recorded and not executed. `SpriteMap::DrawSpriteMap` and `TTFFont::TestDraw` only forward a whole decal to the engine, so they have no model.
- FreeType. `FT_Init_FreeType`, `FT_New_Face` and `FT_Set_Char_Size` are one failure outcome: an absent face. `FT_Load_Char` is the per-`char` table in `TrueType.Face`.
- TrueType.BuildSprite: the value it returns on success is not stated. The function falls off its end, which is undefined behaviour in C++.
- TrueType.BuildSprite: `fill` is the content of a freshly made engine sprite, which the engine defines. The result does not depend on it, because the strip is cleared first.
- TrueType.BuildSprite: `widths[c] = horiAdvance / 64` assigns a `long` to a `char`. The model keeps the low 8 bits, which is what the common compilers do; the standard left this implementation-defined before C++20.
- `Font::LoadFontData` is file I/O: it reads raw `int`s in host byte order, seeks by a signed `char`, and does not check short reads. The sheet font takes the sheet size, metrics and width table as parameters instead.
- `DrawFormatString` and `DrawVerticalFormatString` format with C varargs into a 2048-byte buffer before calling `DrawString`. The formatting is outside the model.
- `Font::GetFontSize` only returns the cell size.
- Float arithmetic. Pen positions and scales are reals; the model makes no claim about `float` rounding.
- `int` overflow. Pen sums, `MeasureString`'s width and line counts, and `16 * c` are unbounded integers.
- Fonts.DrawString: requires every non-newline character to index `widths`. A negative `char` (above 127) or a code past the table is undefined behaviour in C++; `SpriteMaps.NegativeIndexOffSheet` shows where such an index would read.
- Fonts.MeasureString: requires every character, newlines included, to index `widths`. `(size_t)x` turns a negative `char` into an index far past the table.
- Fonts.MonospaceFont: requires the cell width to be below 128, so that it fits the `char` entries of the width table.
- Destructors, ownership of the heap-allocated sprite, decal and sprite map, and the default constructors. `Tile()` has no sprite map, and its height and stride are 0, so its `Draw` issues no calls.
- Tiles.NewTile: requires a non-zero stride. A zero stride divides by zero in C++.
- SpriteMaps.NewSpriteMap: requires both cell sides to be non-zero. A zero side divides by zero in C++.
- SpriteMaps.Draw: requires a grid at least one cell wide. On a sheet narrower than one cell, `idx / width` divides by zero in C++.
- SpriteMaps.DrawRotated: requires a grid at least one cell wide, for the same reason as `Draw`.
- Fonts.SheetFont: requires a non-zero font width and height, because the sprite map divides by both.
- Fonts.MonospaceFont: requires a positive cell width. With a negative width, `sheetW / width` is negative and the `std::vector` constructor throws, unless the width exceeds the sheet, in which case the table is empty.
- Fonts.DrawString: places each glyph at `pos` plus the pen, computed in reals. At src/olcPGEX_Font.h:116 the C++ adds the `vf2d` pen to the `vi2d` position. Depending on the engine version, this either converts the pen to `vi2d` first, truncating it toward zero, or keeps the float sum. The engine is not part of this model, so the placement is exact only for whole-pixel pens.
- Fonts.DrawVerticalString: the same placement caveat as `DrawString`, at src/olcPGEX_Font.h:134.
- The diagnostics that `BuildSprite` writes to `std::cerr` in `_DEBUG` builds. They do not change the result.
- The demo program example/basic_example.cpp.

## Findings

| source | as written | input that shows it | evidently intended | confidence | as-written member | corrected member |
|---|---|---|---|---|---|---|
| src/olcPGEX_Font.h:92 | the sheet font declares its cells `{font_height, font_width}`, so the x and y sides are swapped | glyphs 8 wide and 16 tall: cells come out 16 x 8, `MeasureString("\n")` gives height 16 while `DrawString` starts its second line at y = 16 | `{font_width, font_height}`, so the cell is one glyph and a line measures one line pitch | not executed | Fonts.SheetFontLinePitchMismatch | Fonts.SheetFontFixedLinePitch |
| src/olcPGEX_Font.h:243-246 | the `TTFFont` constructor ignores its `size` argument, so the `size` member stays 12 | `TTFFont(path, 24)`: `BuildSprite` calls `FT_Set_Char_Size` with `12 * 64` | store `size` in the member, so that FreeType is asked for `size * 64` | not executed | TrueType.SizeArgumentIgnored | TrueType.SizeArgumentHonoured |
