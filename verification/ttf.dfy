/**
 `olc::TTFFont`: builds a one-row glyph atlas from a FreeType face. Glyph
 `c` owns the 16 x 16 cell starting at x = 16 * c of a 16 * num_glyphs x 16
 sprite; its coverage bitmap is written there as white with alpha, and its
 advances (in 1/64 pixel) are stored, truncated, as its width and height.
 FreeType itself is outside the model: an opened face is given as its glyph
 count and the outcome of loading each `char` value.
 */
module TrueType {
  import opened Cpp
  import opened Geometry
  import opened SpriteMaps
  import opened Sprites
  import opened Fonts

  /** The side of a glyph cell. */
  const Cell := 16

  /** The row a glyph's top bearing is measured from. */
  const Baseline := 14

  /** What a successful `FT_Load_Char(face, ch, FT_LOAD_RENDER)` leaves in
      `face->glyph`: the coverage bitmap (`rows` x `width`, row-major), the
      bitmap's left and top bearings, and the advances in 1/64 pixel. */
  datatype GlyphImage = GlyphImage(rows: nat, width: nat, buffer: seq<Byte>, left: int, top: int,
                                   horiAdvance: int, vertAdvance: int)

  /** An opened face: `face->num_glyphs`, and for each `char` value `ch`
      (at position `ch + 128`) the outcome of loading it, `None` when
      FreeType reports an error. */
  datatype Face = Face(numGlyphs: nat, load: seq<Option<GlyphImage>>)

  /** `TTFFont`: the path of the font file and the size member. */
  datatype TTFFont = TTFFont(path: string, size: int)

  /** What building produced: nothing when FreeType could not be set up,
      otherwise the font and its atlas sprite. */
  datatype BuildResult = Failed | Built(font: Font, sprite: Sprite)

  /** The bitmap holds a full `rows` x `width` grid. */
  predicate WellFormed(g: GlyphImage)
  {
    g.rows * g.width <= |g.buffer|
  }

  predicate ValidFace(face: Face)
  {
    && |face.load| == 256
    && forall i | 0 <= i < |face.load| :: face.load[i].Some? ==> WellFormed(face.load[i].value)
  }

  /** The constructor `TTFFont(path, size)`: records the path only; the size
      member keeps its default of 12. */
  function NewTTFFont(path: string, size: int): TTFFont
  {
    TTFFont(path, 12)
  }

  /** The character height `BuildSprite` asks FreeType for, in 1/64 point. */
  function RequestedCharSize(f: TTFFont): int
  {
    f.size * 64
  }

  /** Whatever size the constructor is given, the face is set to 12 points. */
  lemma SizeArgumentIgnored(path: string, size: int)
    ensures NewTTFFont(path, size).path == path
    ensures RequestedCharSize(NewTTFFont(path, size)) == 12 * 64
  {
  }

  /** The constructor with the size argument stored in the size member. */
  function NewTTFFontFixed(path: string, size: int): TTFFont
  {
    TTFFont(path, size)
  }

  /** The fixed constructor asks FreeType for the size it was given. */
  lemma SizeArgumentHonoured(path: string, size: int)
    ensures NewTTFFontFixed(path, size).path == path
    ensures RequestedCharSize(NewTTFFontFixed(path, size)) == size * 64
  {
  }

  /** `FT_Load_Char(face, (char)c, ...)`: glyph number `c` is loaded by the
      `char` it narrows to. */
  function LoadChar(face: Face, c: int): Option<GlyphImage>
    requires |face.load| == 256
  {
    face.load[ToChar(c) + 128]
  }

  /** Glyph numbers 256 apart load the same character. */
  lemma LoadCharWraps(face: Face, c: int)
    requires |face.load| == 256
    ensures LoadChar(face, c + 256) == LoadChar(face, c)
  {
    assert ToChar(c + 256) == ToChar(c) by {
      assert (c + 256 + 128) % 256 == (c + 128) % 256;
    }
  }

  /** Position of bitmap pixel (row, col) in the row-major buffer. */
  function Flat(g: GlyphImage, row: int, col: int): int
  {
    row * g.width + col
  }

  /** The `SetPixel` call for bitmap pixel (row, col) of glyph `c`. */
  function BlitWrite(c: int, g: GlyphImage, row: int, col: int): PixelWrite
    requires WellFormed(g) && 0 <= row < g.rows && 0 <= col < g.width
  {
    FlatInGrid(g, row, col);
    PixelWrite(col + c * Cell + g.left, row + (Baseline - g.top), Coverage(g.buffer[Flat(g, row, col)]))
  }

  /** Bitmap pixel (row, col) sits inside the bitmap's part of the buffer. */
  lemma FlatInGrid(g: GlyphImage, row: int, col: int)
    requires WellFormed(g)
    requires 0 <= row < g.rows && 0 <= col < g.width
    ensures 0 <= Flat(g, row, col) < g.rows * g.width <= |g.buffer|
  {
    MulMono(row + 1, g.rows, g.width);
  }

  /** The inner blit loop for bitmap row `row`, columns 0 .. n-1. */
  function RowWrites(c: int, g: GlyphImage, row: nat, n: nat): (ws: seq<PixelWrite>)
    requires WellFormed(g) && row < g.rows && n <= g.width
    ensures |ws| == n
  {
    if n == 0 then []
    else RowWrites(c, g, row, n - 1) + [BlitWrite(c, g, row, n - 1)]
  }

  /** The outer blit loop over bitmap rows 0 .. r-1. */
  function RowsWrites(c: int, g: GlyphImage, r: nat): seq<PixelWrite>
    requires WellFormed(g) && r <= g.rows
  {
    if r == 0 then [] else RowsWrites(c, g, r - 1) + RowWrites(c, g, r - 1, g.width)
  }

  /** The `SetPixel` calls that blit glyph `c`: every bitmap row, top to
      bottom, each left to right. */
  function GlyphWrites(c: int, g: GlyphImage): seq<PixelWrite>
    requires WellFormed(g)
  {
    RowsWrites(c, g, g.rows)
  }

  /** `w` is the blit of some pixel of the bitmap. */
  predicate IsBlit(c: int, g: GlyphImage, w: PixelWrite)
    requires WellFormed(g)
  {
    exists row, col | 0 <= row < g.rows && 0 <= col < g.width :: w == BlitWrite(c, g, row, col)
  }

  lemma {:induction false} RowWritesAt(c: int, g: GlyphImage, row: nat, n: nat, col: nat)
    requires WellFormed(g) && row < g.rows && n <= g.width && col < n
    ensures RowWrites(c, g, row, n)[col] == BlitWrite(c, g, row, col)
  {
    FlatInGrid(g, row, col);
    if col < n - 1 {
      RowWritesAt(c, g, row, n - 1, col);
    }
  }

  lemma {:induction false} RowWritesAreBlits(c: int, g: GlyphImage, row: nat, n: nat)
    requires WellFormed(g) && row < g.rows && n <= g.width
    ensures forall j | 0 <= j < n :: IsBlit(c, g, RowWrites(c, g, row, n)[j])
  {
    forall j | 0 <= j < n
      ensures IsBlit(c, g, RowWrites(c, g, row, n)[j])
    {
      RowWritesAt(c, g, row, n, j);
      FlatInGrid(g, row, j);
    }
  }

  lemma {:induction false} RowsWritesLength(c: int, g: GlyphImage, r: nat)
    requires WellFormed(g) && r <= g.rows
    ensures |RowsWrites(c, g, r)| == r * g.width
  {
    if r > 0 {
      RowsWritesLength(c, g, r - 1);
    }
  }

  lemma {:induction false} RowsWritesAt(c: int, g: GlyphImage, r: nat, row: nat, col: nat)
    requires WellFormed(g) && r <= g.rows && row < r && col < g.width
    ensures Flat(g, row, col) < |RowsWrites(c, g, r)| && RowsWrites(c, g, r)[Flat(g, row, col)] == BlitWrite(c, g, row, col)
  {
    RowsWritesLength(c, g, r);
    RowsWritesLength(c, g, r - 1);
    FlatInGrid(g, row, col);
    MulMono(row + 1, r, g.width);
    if row < r - 1 {
      RowsWritesAt(c, g, r - 1, row, col);
      MulMono(row + 1, r - 1, g.width);
    } else {
      RowWritesAt(c, g, row, g.width, col);
    }
  }

  lemma {:induction false} RowsWritesAreBlits(c: int, g: GlyphImage, r: nat)
    requires WellFormed(g) && r <= g.rows
    ensures forall j | 0 <= j < |RowsWrites(c, g, r)| :: IsBlit(c, g, RowsWrites(c, g, r)[j])
  {
    if r > 0 {
      RowsWritesAreBlits(c, g, r - 1);
      RowWritesAreBlits(c, g, r - 1, g.width);
      var a, b := RowsWrites(c, g, r - 1), RowWrites(c, g, r - 1, g.width);
      assert forall j | 0 <= j < |a + b| :: (a + b)[j] == if j < |a| then a[j] else b[j - |a|];
    }
  }

  /** Write number `row * width + col` of a glyph's blit puts bitmap pixel
      (row, col) at (col + 16c + left, row + 14 - top), white at its
      coverage: the blit visits the bitmap in row-major order. */
  lemma GlyphWritesAt(c: int, g: GlyphImage, row: int, col: int)
    requires WellFormed(g)
    requires 0 <= row < g.rows && 0 <= col < g.width
    ensures |GlyphWrites(c, g)| == g.rows * g.width
    ensures Flat(g, row, col) < |GlyphWrites(c, g)| && GlyphWrites(c, g)[Flat(g, row, col)] == BlitWrite(c, g, row, col)
  {
    RowsWritesLength(c, g, g.rows);
    RowsWritesAt(c, g, g.rows, row, col);
  }

  /** Every write of a glyph's blit is the blit of one of its bitmap pixels. */
  lemma GlyphWritesAreBlits(c: int, g: GlyphImage)
    requires WellFormed(g)
    ensures forall j | 0 <= j < |GlyphWrites(c, g)| :: IsBlit(c, g, GlyphWrites(c, g)[j])
  {
    RowsWritesAreBlits(c, g, g.rows);
  }

  /** All the `SetPixel` calls for glyphs 0 .. n-1, in order; a glyph that
      failed to load contributes none. */
  function Writes(face: Face, n: nat): seq<PixelWrite>
    requires ValidFace(face)
  {
    if n == 0 then []
    else Writes(face, n - 1) + GlyphWritesOf(face, n - 1)
  }

  function GlyphWritesOf(face: Face, c: int): seq<PixelWrite>
    requires ValidFace(face)
  {
    match LoadChar(face, c)
    case None => []
    case Some(g) => GlyphWrites(c, g)
  }

  /** The stored width of a glyph: the horizontal advance in whole pixels
      (the division truncates, and the `char` it is stored in keeps the low
      8 bits), or 0 for a glyph that did not load. */
  function AdvanceWidth(face: Face, c: int): CChar
    requires ValidFace(face)
  {
    match LoadChar(face, c)
    case None => 0
    case Some(g) => ToChar(TDiv(g.horiAdvance, 64))
  }

  /** The stored height of a glyph, likewise from the vertical advance. */
  function AdvanceHeight(face: Face, c: int): CChar
    requires ValidFace(face)
  {
    match LoadChar(face, c)
    case None => 0
    case Some(g) => ToChar(TDiv(g.vertAdvance, 64))
  }

  /** A fully transparent sprite. */
  function Blank(w: nat, h: nat): Sprite
  {
    Sprite(w, h, seq(h, _ => seq(w, _ => Transparent)))
  }

  /** `TTFFont::BuildSprite`. When FreeType cannot be initialised, open the
      face or set its size, nothing is built. Otherwise the atlas sprite is
      cleared, each glyph that loads is blitted into its cell and has its
      advances stored, and the font switches to the atlas with 16 x 16
      cells. `fill` is whatever a freshly made engine sprite holds. */
  method BuildSprite(ttf: TTFFont, ft: Option<Face>, fill: Pixel) returns (r: BuildResult)
    requires ft.Some? ==> ValidFace(ft.value)
    ensures r.Failed? <==> ft.None?
    ensures r.Built? ==>
              var face, n := ft.value, ft.value.numGlyphs;
              && r.sprite == ApplyAll(Blank(Cell * n, Cell), Writes(face, n))
              && r.font.spritemap == NewSpriteMap(IVec2(Cell * n, Cell), IVec2(Cell, Cell))
              && r.font.fontHeight == Cell && r.font.fontWidth == Cell
              && |r.font.widths| == n && |r.font.heights| == n
              && (forall c | 0 <= c < n :: r.font.widths[c] == AdvanceWidth(face, c))
              && (forall c | 0 <= c < n :: r.font.heights[c] == AdvanceHeight(face, c))
  {
    if ft.None? {
      return Failed;
    }
    var face := ft.value;
    var n := face.numGlyphs;
    var sprite := Sprite(Cell * n, Cell, seq(Cell, _ => seq(Cell * n, _ => fill)));
    sprite := Clear(sprite);
    BlankIsCleared(sprite);
    var widths, heights;
    widths, heights, sprite := LoadGlyphs(face, sprite);
    forall c | 0 <= c < n
      ensures widths[c] == AdvanceWidth(face, c) && heights[c] == AdvanceHeight(face, c)
    {
      StoredAt(face, Widths, n, n, c);
      StoredAt(face, Heights, n, n, c);
    }
    TDivOfMultiple(n, Cell);
    var sm := NewSpriteMap(IVec2(Cell * n, Cell), IVec2(Cell, Cell));
    r := Built(Font(sm, Cell, Cell, widths, heights), sprite);
  }

  /** The glyph loop of `BuildSprite`: every glyph that loads is blitted into
      its cell of `atlas` and has its advances stored; a glyph that fails
      keeps the zero its entries start with. */
  method LoadGlyphs(face: Face, atlas: Sprite) returns (widths: seq<CChar>, heights: seq<CChar>, sprite: Sprite)
    requires ValidFace(face) && Sprites.Valid(atlas)
    ensures widths == Stored(face, Widths, face.numGlyphs, face.numGlyphs)
    ensures heights == Stored(face, Heights, face.numGlyphs, face.numGlyphs)
    ensures sprite == ApplyAll(atlas, Writes(face, face.numGlyphs))
  {
    var n := face.numGlyphs;
    widths := Zeros(n);
    heights := Zeros(n);
    sprite := atlas;
    var c: nat := 0;
    while c < n
      invariant c <= n
      invariant |widths| == n && |heights| == n
      invariant widths == Stored(face, Widths, n, c) && heights == Stored(face, Heights, n, c)
      invariant sprite == ApplyAll(atlas, Writes(face, c))
    {
      widths, heights, sprite := LoadGlyph(face, atlas, n, c, widths, heights, sprite);
      c := c + 1;
    }
  }

  /** One pass of the glyph loop: when glyph `c` loads, its advances are
      stored and its bitmap blitted; when it does not, nothing changes. */
  method LoadGlyph(face: Face, ghost atlas: Sprite, ghost n: nat, c: nat,
                   widths: seq<CChar>, heights: seq<CChar>, sprite: Sprite)
    returns (widths': seq<CChar>, heights': seq<CChar>, sprite': Sprite)
    requires ValidFace(face) && Sprites.Valid(atlas) && c < n
    requires widths == Stored(face, Widths, n, c) && heights == Stored(face, Heights, n, c)
    requires sprite == ApplyAll(atlas, Writes(face, c))
    ensures widths' == Stored(face, Widths, n, c + 1) && heights' == Stored(face, Heights, n, c + 1)
    ensures sprite' == ApplyAll(atlas, Writes(face, c + 1))
  {
    StoredAt(face, Widths, n, c, c);
    StoredAt(face, Heights, n, c, c);
    ApplyAfter(atlas, Writes(face, c), GlyphWritesOf(face, c), sprite);
    widths', heights', sprite' := widths, heights, sprite;
    var loaded := LoadChar(face, c);
    if loaded.Some? {
      var g := loaded.value;
      assert WellFormed(g) by { assert face.load[ToChar(c) + 128] == loaded; }
      widths' := widths[c := ToChar(TDiv(g.horiAdvance, 64))];
      heights' := heights[c := ToChar(TDiv(g.vertAdvance, 64))];
      sprite' := Blit(sprite, c, g);
    } else {
      assert widths == widths[c := 0] && heights == heights[c := 0];
      assert sprite == ApplyAll(sprite, []);
    }
  }

  /** The blit loops of `BuildSprite` for one glyph. */
  method Blit(s: Sprite, c: int, g: GlyphImage) returns (r: Sprite)
    requires Sprites.Valid(s) && WellFormed(g)
    ensures r == ApplyAll(s, GlyphWrites(c, g))
  {
    r := s;
    var row := 0;
    while row < g.rows
      invariant 0 <= row <= g.rows
      invariant r == ApplyAll(s, RowsWrites(c, g, row))
    {
      var col := 0;
      assert RowsWrites(c, g, row) + RowWrites(c, g, row, 0) == RowsWrites(c, g, row);
      while col < g.width
        invariant 0 <= col <= g.width
        invariant r == ApplyAll(s, RowsWrites(c, g, row) + RowWrites(c, g, row, col))
      {
        var w := BlitWrite(c, g, row, col);
        ghost var done := RowsWrites(c, g, row) + RowWrites(c, g, row, col);
        assert RowsWrites(c, g, row) + RowWrites(c, g, row, col + 1) == done + [w];
        assert (done + [w])[..|done|] == done;
        r := SetPixel(r, w);
        col := col + 1;
      }
      row := row + 1;
    }
  }

  // ----- facts about the atlas -----

  /** Which of the two per-glyph tables. */
  datatype Table = Widths | Heights

  function Advance(face: Face, t: Table, c: int): CChar
    requires ValidFace(face)
  {
    if t.Widths? then AdvanceWidth(face, c) else AdvanceHeight(face, c)
  }

  /** A freshly allocated table of `n` entries, all zero. */
  function Zeros(n: nat): (tab: seq<CChar>)
    ensures |tab| == n && forall i | 0 <= i < n :: tab[i] == 0
  {
    seq(n, _ => 0)
  }

  /** A table of `n` entries once glyphs 0 .. c-1 have been loaded: it starts
      all zero and each loaded glyph fills its own entry. */
  function Stored(face: Face, t: Table, n: nat, c: nat): (tab: seq<CChar>)
    requires ValidFace(face) && c <= n
    ensures |tab| == n
  {
    if c == 0 then Zeros(n) else Stored(face, t, n, c - 1)[c - 1 := Advance(face, t, c - 1)]
  }

  /** Entry `i` holds glyph `i`'s advance once it has been loaded, and zero before. */
  lemma {:induction false} StoredAt(face: Face, t: Table, n: nat, c: nat, i: nat)
    requires ValidFace(face) && c <= n && i < n
    ensures Stored(face, t, n, c)[i] == if i < c then Advance(face, t, i) else 0
  {
    if c > 0 {
      StoredAt(face, t, n, c - 1, i);
    }
  }

  /** Continuing from the result of some writes is applying the longer run. */
  lemma ApplyAfter(s: Sprite, a: seq<PixelWrite>, b: seq<PixelWrite>, mid: Sprite)
    requires Sprites.Valid(s) && mid == ApplyAll(s, a)
    ensures ApplyAll(mid, b) == ApplyAll(s, a + b)
  {
    ApplyAllConcat(s, a, b);
  }

  /** Applying two runs of writes is applying their concatenation. */
  lemma {:induction false} ApplyAllConcat(s: Sprite, a: seq<PixelWrite>, b: seq<PixelWrite>)
    requires Sprites.Valid(s)
    ensures ApplyAll(s, a + b) == ApplyAll(ApplyAll(s, a), b)
    decreases |b|
  {
    if b == [] {
      assert a + b == a;
    } else {
      var b' := b[..|b| - 1];
      assert (a + b)[..|a + b| - 1] == a + b';
      ApplyAllConcat(s, a, b');
    }
  }

  /** A cleared sprite is the blank sprite of its size. */
  lemma BlankIsCleared(s: Sprite)
    requires Sprites.Valid(s)
    requires forall x, y | InBounds(s, x, y) :: At(s, x, y) == Transparent
    ensures s == Blank(s.width, s.height)
  {
    var b := Blank(s.width, s.height);
    forall y | 0 <= y < s.height
      ensures s.rows[y] == b.rows[y]
    {
      assert forall x | 0 <= x < s.width :: s.rows[y][x] == At(s, x, y);
    }
  }

  /** The atlas has one 16-pixel cell per glyph, and the sprite map over it
      reads glyph `c` from the cell at x = 16 * c where it was blitted. */
  lemma AtlasCellOfGlyph(n: nat, c: int)
    requires 0 <= c < n
    ensures var sm := NewSpriteMap(IVec2(Cell * n, Cell), IVec2(Cell, Cell));
            sm.width == n && sm.height == 1 && CellOf(sm, c) == IVec2(c * Cell, 0)
  {
    TDivOfMultiple(n, Cell);
    TDivOfMultiple(1, Cell);
    DivModOfFlat(0, n, c);
  }

  /** Every write of the atlas is white at some coverage. */
  lemma {:induction false} WritesAreWhite(face: Face, n: nat)
    requires ValidFace(face)
    ensures forall j | 0 <= j < |Writes(face, n)| :: IsInk(Writes(face, n)[j].color)
  {
    if n > 0 {
      WritesAreWhite(face, n - 1);
      var a, b := Writes(face, n - 1), GlyphWritesOf(face, n - 1);
      if LoadChar(face, n - 1).Some? {
        var g := LoadChar(face, n - 1).value;
        assert WellFormed(g) by { assert face.load[ToChar(n - 1) + 128] == Some(g); }
        GlyphWritesAreBlits(n - 1, g);
        assert forall j | 0 <= j < |b| :: IsInk(b[j].color) by {
          forall j | 0 <= j < |b|
            ensures IsInk(b[j].color)
          {
            var row, col :| 0 <= row < g.rows && 0 <= col < g.width && b[j] == BlitWrite(n - 1, g, row, col);
          }
        }
      }
      assert forall j | 0 <= j < |a + b| :: (a + b)[j] == if j < |a| then a[j] else b[j - |a|];
    }
  }

  /** A pixel of the atlas: transparent, or white at some coverage. */
  predicate IsInk(p: Pixel)
  {
    p == Transparent || (p.r == 255 && p.g == 255 && p.b == 255)
  }

  /** Every pixel of a built atlas is transparent or white at some coverage,
      so tinting colours glyphs and leaves the background invisible. */
  lemma AtlasColours(face: Face, n: nat, x: int, y: int)
    requires ValidFace(face)
    requires 0 <= x < Cell * n && 0 <= y < Cell
    ensures var atlas := ApplyAll(Blank(Cell * n, Cell), Writes(face, n));
            IsInk(At(atlas, x, y))
  {
    WritesAreWhite(face, n);
    ApplyKeepsColours(Blank(Cell * n, Cell), Writes(face, n), IsInk);
  }

  /** An atlas pixel no glyph pixel was written to stays transparent. */
  lemma AtlasUntouched(face: Face, n: nat, x: int, y: int)
    requires ValidFace(face)
    requires 0 <= x < Cell * n && 0 <= y < Cell
    requires forall j | 0 <= j < |Writes(face, n)| :: !WritesAt(Writes(face, n), j, x, y)
    ensures At(ApplyAll(Blank(Cell * n, Cell), Writes(face, n)), x, y) == Transparent
  {
    ApplyUntouched(Blank(Cell * n, Cell), Writes(face, n), x, y);
  }

  /** With its bitmap inside the cell (bearings included), every write of
      glyph `c` lands in the cell at x = 16 * c; a bitmap that sticks out
      spills into the neighbouring cells or is dropped at the sprite's edge. */
  lemma GlyphStaysInCell(c: int, g: GlyphImage)
    requires WellFormed(g)
    requires 0 <= g.left && g.left + g.width <= Cell
    requires 0 <= Baseline - g.top && Baseline - g.top + g.rows <= Cell
    ensures forall j | 0 <= j < |GlyphWrites(c, g)| ::
              c * Cell <= GlyphWrites(c, g)[j].x < c * Cell + Cell && 0 <= GlyphWrites(c, g)[j].y < Cell
  {
    var ws := GlyphWrites(c, g);
    GlyphWritesAreBlits(c, g);
    forall j | 0 <= j < |ws|
      ensures c * Cell <= ws[j].x < c * Cell + Cell && 0 <= ws[j].y < Cell
    {
      assert IsBlit(c, g, ws[j]);
      var row, col :| 0 <= row < g.rows && 0 <= col < g.width && ws[j] == BlitWrite(c, g, row, col);
    }
  }
}
