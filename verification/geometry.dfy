/**
 The engine's value types as the extensions use them: `olc::vf2d` (floating
 point pairs, modelled as reals), `olc::vi2d` (integer pairs) and
 `olc::Pixel` (RGBA bytes), plus the usual Option.
 */
module Geometry {
  import opened Cpp

  datatype Option<+T> = None | Some(value: T)

  /** `olc::vf2d`; the engine's `float` arithmetic is modelled exactly. */
  datatype Vec2 = Vec2(x: real, y: real)

  /** `olc::vi2d`. */
  datatype IVec2 = IVec2(x: int, y: int)

  /** `olc::Pixel`: red, green, blue, alpha. */
  datatype Pixel = Pixel(r: Byte, g: Byte, b: Byte, a: Byte)

  /** `olc::Pixel(0, 0, 0, 0)`: fully transparent black. */
  const Transparent := Pixel(0, 0, 0, 0)

  /** `olc::WHITE`, the default tint. */
  const White := Pixel(255, 255, 255, 255)

  /** White at the given coverage: how a glyph pixel is stored so that tinting colours it. */
  function Coverage(alpha: Byte): Pixel
  {
    Pixel(255, 255, 255, alpha)
  }

  function Add(a: Vec2, b: Vec2): Vec2
  {
    Vec2(a.x + b.x, a.y + b.y)
  }

  /** Widening `olc::vi2d` to `olc::vf2d`. */
  function ToReal(v: IVec2): Vec2
  {
    Vec2(v.x as real, v.y as real)
  }
}
