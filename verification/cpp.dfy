/**
 The C++ integer behaviour the extensions rely on: signed `char`, unsigned
 `char`, 32-bit `int`, and `/` and `%` on `int`, which truncate toward zero
 (Dafny's own `/` and `%` are Euclidean).
 */
module Cpp {

  /** A C++ `char` on the usual platforms: signed, 8 bits. */
  type CChar = c: int | -128 <= c < 128

  /** A C++ `unsigned char`. */
  type Byte = b: int | 0 <= b < 256

  /** A C++ `int`. */
  type Int32 = i: int | -0x8000_0000 <= i < 0x8000_0000

  function Abs(a: int): nat
  {
    if a < 0 then -a else a
  }

  /** C++ `a / b` on integers: the quotient truncated toward zero. */
  function TDiv(a: int, b: int): (q: int)
    requires b != 0
    ensures Abs(a - b * q) < Abs(b)
    ensures a - b * q == 0 || ((a - b * q) < 0 <==> a < 0)
    ensures a >= 0 && b > 0 ==> q == a / b
  {
    if (a < 0) == (b < 0) then Abs(a) / Abs(b) else -(Abs(a) / Abs(b))
  }

  /** C++ `a % b` on integers: the remainder whose sign follows the dividend. */
  function TRem(a: int, b: int): (r: int)
    requires b != 0
    ensures a == b * TDiv(a, b) + r
    ensures Abs(r) < Abs(b)
    ensures r == 0 || (r < 0 <==> a < 0)
    ensures a >= 0 && b > 0 ==> r == a % b
  {
    a - b * TDiv(a, b)
  }

  /** The C++ narrowing conversion `(char)c`: keeps the low 8 bits, read as two's complement. */
  function ToChar(c: int): (r: CChar)
    ensures (r - c) % 256 == 0
  {
    (c + 128) % 256 - 128
  }

  /** Truncating division is the only quotient with a remainder smaller than
      the divisor and of the dividend's sign. */
  lemma {:induction false} TDivUnique(a: int, b: int, q: int)
    requires b != 0
    requires Abs(a - b * q) < Abs(b)
    requires a - b * q == 0 || ((a - b * q) < 0 <==> a < 0)
    ensures q == TDiv(a, b)
  {
    var q' := TDiv(a, b);
    var r, r' := a - b * q, a - b * q';
    assert b * (q' - q) == r - r';
    if q' != q {
      // r and r' are both zero or carry a's sign, so they differ by less than |b|
      assert Abs(r - r') < Abs(b);
      MulAtLeast(b, q' - q);
      assert false;
    }
  }

  lemma MulAtLeast(b: int, d: int)
    requires d != 0
    ensures Abs(b * d) >= Abs(b)
  {
    var ab, ad := Abs(b), Abs(d);
    assert Abs(b * d) == ab * ad by {
      if b < 0 && d < 0 { assert b * d == (-b) * (-d); }
      else if b < 0 { assert b * d == -((-b) * d); }
      else if d < 0 { assert b * d == -(b * (-d)); }
    }
    assert ab * ad == ab * (ad - 1) + ab;
    assert ab * (ad - 1) >= 0;
  }

  /** An exact multiple divides back to its factor, for either sign. */
  lemma TDivOfMultiple(k: int, b: int)
    requires b != 0
    ensures TDiv(k * b, b) == k
    ensures TRem(k * b, b) == 0
  {
    assert k * b - b * k == 0;
    TDivUnique(k * b, b, k);
  }

  /** Row-major flattening `q * b + r` with `0 <= r < b` is undone by `/` and `%`. */
  lemma {:induction false} DivModOfFlat(q: nat, b: int, r: int)
    requires b > 0 && 0 <= r < b
    ensures TDiv(q * b + r, b) == q && TRem(q * b + r, b) == r
    ensures (q * b + r) / b == q && (q * b + r) % b == r
  {
    assert q * b >= 0;
    TDivUnique(q * b + r, b, q);
  }
}
