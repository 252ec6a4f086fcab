/**
 The part of `olc::Sprite` the font atlas builder touches: a width x height
 grid of pixels and `SetPixel`, which ignores coordinates off the sprite.
 A sequence of `SetPixel` calls is recorded as a sequence of pixel writes.
 */
module Sprites {
  import opened Cpp
  import opened Geometry

  /** Pixel (x, y) is `rows[y][x]`. */
  datatype Sprite = Sprite(width: int, height: int, rows: seq<seq<Pixel>>)

  /** One call `sprite->SetPixel(x, y, color)`. */
  datatype PixelWrite = PixelWrite(x: int, y: int, color: Pixel)

  predicate Valid(s: Sprite)
  {
    && s.width >= 0 && s.height >= 0 && |s.rows| == s.height
    && forall y | 0 <= y < |s.rows| :: |s.rows[y]| == s.width
  }

  predicate InBounds(s: Sprite, x: int, y: int)
  {
    0 <= x < s.width && 0 <= y < s.height
  }

  function At(s: Sprite, x: int, y: int): Pixel
    requires Valid(s) && InBounds(s, x, y)
  {
    s.rows[y][x]
  }

  predicate SameShape(s: Sprite, t: Sprite)
  {
    Valid(s) && Valid(t) && s.width == t.width && s.height == t.height
  }

  /** `Sprite::SetPixel`. */
  function SetPixel(s: Sprite, w: PixelWrite): (r: Sprite)
    requires Valid(s)
    ensures SameShape(s, r)
  {
    if InBounds(s, w.x, w.y) then
      s.(rows := s.rows[w.y := s.rows[w.y][w.x := w.color]])
    else
      s
  }

  /** `SetPixel` changes exactly the addressed pixel when it lies on the
      sprite, and nothing when it does not. */
  lemma SetPixelEffect(s: Sprite, w: PixelWrite)
    requires Valid(s)
    ensures forall x, y | InBounds(s, x, y) ::
              At(SetPixel(s, w), x, y) == if x == w.x && y == w.y then w.color else At(s, x, y)
  {
  }

  /** The sprite after the given `SetPixel` calls, in order. */
  function ApplyAll(s: Sprite, ws: seq<PixelWrite>): (r: Sprite)
    requires Valid(s)
    ensures SameShape(s, r)
    decreases |ws|
  {
    if ws == [] then s else SetPixel(ApplyAll(s, ws[..|ws| - 1]), ws[|ws| - 1])
  }

  /** Whether write `j` of `ws` addresses pixel (x, y). */
  predicate WritesAt(ws: seq<PixelWrite>, j: int, x: int, y: int)
    requires 0 <= j < |ws|
  {
    ws[j].x == x && ws[j].y == y
  }

  /** A pixel no write addresses keeps its colour. */
  lemma {:induction false} ApplyUntouched(s: Sprite, ws: seq<PixelWrite>, x: int, y: int)
    requires Valid(s) && InBounds(s, x, y)
    requires forall j | 0 <= j < |ws| :: !WritesAt(ws, j, x, y)
    ensures At(ApplyAll(s, ws), x, y) == At(s, x, y)
    decreases |ws|
  {
    if ws != [] {
      var init := ws[..|ws| - 1];
      assert forall j | 0 <= j < |init| :: WritesAt(init, j, x, y) == WritesAt(ws, j, x, y);
      assert !WritesAt(ws, |ws| - 1, x, y);
      ApplyUntouched(s, init, x, y);
      SetPixelEffect(ApplyAll(s, init), ws[|ws| - 1]);
    }
  }

  /** A pixel ends with the colour of the last write that addresses it. */
  lemma {:induction false} ApplyLastWrite(s: Sprite, ws: seq<PixelWrite>, j: int, x: int, y: int)
    requires Valid(s) && InBounds(s, x, y)
    requires 0 <= j < |ws| && WritesAt(ws, j, x, y)
    requires forall k | j < k < |ws| :: !WritesAt(ws, k, x, y)
    ensures At(ApplyAll(s, ws), x, y) == ws[j].color
    decreases |ws|
  {
    var init := ws[..|ws| - 1];
    assert forall k | 0 <= k < |init| :: WritesAt(init, k, x, y) == WritesAt(ws, k, x, y);
    SetPixelEffect(ApplyAll(s, init), ws[|ws| - 1]);
    if j < |ws| - 1 {
      assert !WritesAt(ws, |ws| - 1, x, y);
      ApplyLastWrite(s, init, j, x, y);
    }
  }

  /** The pixels of the result either keep their colour or hold the colour
      of some write: any property every written colour has, and every
      original pixel has, holds of every pixel afterwards. */
  lemma {:induction false} ApplyKeepsColours(s: Sprite, ws: seq<PixelWrite>, ok: Pixel -> bool)
    requires Valid(s)
    requires forall x, y | InBounds(s, x, y) :: ok(At(s, x, y))
    requires forall j | 0 <= j < |ws| :: ok(ws[j].color)
    ensures forall x, y | InBounds(s, x, y) :: ok(At(ApplyAll(s, ws), x, y))
    decreases |ws|
  {
    if ws != [] {
      var init := ws[..|ws| - 1];
      assert forall k | 0 <= k < |init| :: init[k] == ws[k];
      ApplyKeepsColours(s, init, ok);
      SetPixelEffect(ApplyAll(s, init), ws[|ws| - 1]);
    }
  }

  /** The clearing loop of the atlas builder: column by column, every pixel
      is set to transparent, whatever the sprite held before. */
  method Clear(s: Sprite) returns (r: Sprite)
    requires Valid(s)
    ensures SameShape(s, r)
    ensures forall x, y | InBounds(s, x, y) :: At(r, x, y) == Transparent
  {
    r := s;
    var x := 0;
    while x < s.width
      invariant 0 <= x <= s.width
      invariant SameShape(s, r)
      invariant forall i, j | 0 <= i < x && 0 <= j < s.height :: At(r, i, j) == Transparent
    {
      var y := 0;
      while y < s.height
        invariant 0 <= y <= s.height
        invariant SameShape(s, r)
        invariant forall i, j | 0 <= i < x && 0 <= j < s.height :: At(r, i, j) == Transparent
        invariant forall j | 0 <= j < y :: At(r, x, j) == Transparent
      {
        SetPixelEffect(r, PixelWrite(x, y, Transparent));
        r := SetPixel(r, PixelWrite(x, y, Transparent));
        y := y + 1;
      }
      x := x + 1;
    }
  }
}
