/** Byte-level arithmetic shared by both dither pipelines: JavaScript's
    `Math.round`, integer clamping, the store rule of a
    `Uint8ClampedArray` (clamp to [0,255], then round half to even), and
    the layout of an RGBA buffer (four bytes per pixel, row by row). */
module Bytes {

  /** One channel of an RGBA buffer. */
  type Byte = x: int | 0 <= x < 256

  /** A value that may be absent (`null`, `undefined`, a failed match). */
  datatype Option<T> = None | Some(value: T)

  function Min(a: int, b: int): int { if a <= b then a else b }
  function Max(a: int, b: int): int { if a >= b then a else b }
  function RealMax(a: real, b: real): real { if a >= b then a else b }

  /** `Math.round(x)`: the nearest integer, ties towards +infinity. */
  function Round(x: real): (r: int)
    ensures r as real - 0.5 <= x < r as real + 0.5
  {
    (x + 0.5).Floor
  }

  /** `Math.min(255, Math.max(0, i))` on an integer. */
  function ClampInt(i: int): (b: Byte)
    ensures 0 <= i <= 255 ==> b == i
    ensures i < 0 ==> b == 0
    ensures i > 255 ==> b == 255
  {
    if i < 0 then 0 else if i > 255 then 255 else i
  }

  /** Storing a number into a `Uint8ClampedArray` (ECMAScript ToUint8Clamp):
      clamp to [0,255], then round to the nearest integer, ties to even. */
  function ClampByte(v: real): (b: Byte)
    ensures v <= 0.0 ==> b == 0
    ensures v >= 255.0 ==> b == 255
    ensures 0.0 <= v <= 255.0 ==> v - 0.5 <= b as real <= v + 0.5
    ensures v == v.Floor as real && 0.0 <= v <= 255.0 ==> b == v.Floor
  {
    if v <= 0.0 then 0
    else if v >= 255.0 then 255
    else
      var f := v.Floor;
      if f as real + 0.5 < v then f + 1
      else if v < f as real + 0.5 then f
      else if f % 2 == 0 then f else f + 1
  }

  lemma {:induction false} RoundMonotone(a: real, b: real)
    requires a <= b
    ensures Round(a) <= Round(b)
  {
  }

  lemma {:induction false} ClampByteMonotone(a: real, b: real)
    requires a <= b
    ensures ClampByte(a) <= ClampByte(b)
  {
    if 0.0 < a && b < 255.0 {
      var fa, fb := a.Floor, b.Floor;
      assert fa <= fb;
      if fa == fb {
        if fa as real + 0.5 < a {
          assert fb as real + 0.5 < b;
        }
      } else if fa + 1 < fb {
      } else {
        assert fb == fa + 1;
        if ClampByte(a) == fa + 1 {
          assert b >= fb as real;
        }
      }
    }
  }

  lemma ClampIntMonotone(a: int, b: int)
    requires a <= b
    ensures ClampInt(a) <= ClampInt(b)
  {
  }

  lemma RealDivMonotone(x: real, y: real, d: real)
    requires x <= y && d > 0.0
    ensures x / d <= y / d
  {
    assert y / d - x / d == (y - x) / d;
  }

  // Integer division facts used by the layer and grid arithmetic.

  lemma MulMonotone(a: int, b: int, c: int)
    requires a <= b && c >= 0
    ensures a * c <= b * c
  {
    assert b * c - a * c == (b - a) * c;
  }

  /** v <= a / d exactly when v * d <= a. */
  lemma {:induction false} DivLower(a: int, d: int, v: int)
    requires d >= 1
    ensures v <= a / d <==> v * d <= a
  {
    var q := a / d;
    assert q * d <= a < q * d + d;
    if v <= q {
      MulMonotone(v, q, d);
    } else {
      MulMonotone(q + 1, v, d);
    }
  }

  lemma {:induction false} DivMonotone(a: int, b: int, d: int)
    requires a <= b && d >= 1
    ensures a / d <= b / d
  {
    DivLower(a, d, a / d);
    DivLower(b, d, a / d);
  }

  /** `a / d` is the floor of a over d. */
  lemma DivFloor(a: int, d: int)
    requires d >= 1
    ensures (a / d) * d <= a < (a / d) * d + d
  {
  }

  /** Division with remainder is unique. */
  lemma {:induction false} DivModUnique(a: int, d: int, q: int, r: int)
    requires d >= 1 && 0 <= r < d && a == q * d + r
    ensures a / d == q && a % d == r
  {
    DivLower(a, d, q);
    DivLower(a, d, q + 1);
  }

  // RGBA layout: byte j of a w-wide image is channel j mod 4 of pixel
  // (PixelCol(j, w), PixelRow(j, w)).

  function PixelRow(j: nat, w: int): nat
    requires w >= 1
  {
    (j / 4) / w
  }

  function PixelCol(j: nat, w: int): nat
    requires w >= 1
  {
    (j / 4) % w
  }

  /** Pixel (x, y) occupies bytes `(y w + x) 4 .. (y w + x) 4 + 3`. */
  lemma {:induction false} PixelBase(w: int, h: int, x: int, y: int)
    requires 0 <= x < w && 0 <= y < h
    ensures 0 <= y * w + x < w * h
  {
    MulMonotone(y, h - 1, w);
    MulMonotone(0, y, w);
  }

  /** Byte j belongs to pixel (x, y) = ((j/4) mod w, (j/4) / w). */
  lemma {:induction false} PixelCoords(w: int, h: int, j: int)
    requires w >= 1 && h >= 1 && 0 <= j < w * h * 4
    ensures (j / 4) / w < h
  {
    DivLower(j / 4, w, h);
    DivLower(j, 4, w * h);
  }

  /** Decoding the byte offset of (x, y, c) gives back x, y and c. */
  lemma {:induction false} OffsetDecodes(w: int, h: int, x: int, y: int, c: int)
    requires 0 <= x < w && 0 <= y < h && 0 <= c < 4
    ensures (((y * w + x) * 4 + c) / 4) % w == x
    ensures (((y * w + x) * 4 + c) / 4) / w == y
    ensures ((y * w + x) * 4 + c) % 4 == c
  {
    PixelBase(w, h, x, y);
    DivModUnique((y * w + x) * 4 + c, 4, y * w + x, c);
    DivModUnique(y * w + x, w, y, x);
  }

  /** Every byte offset is the offset of its own pixel plus its channel. */
  lemma {:induction false} OffsetEncodes(w: int, h: int, j: int)
    requires w >= 1 && h >= 1 && 0 <= j < w * h * 4
    ensures 0 <= PixelRow(j, w) < h && 0 <= PixelCol(j, w) < w
    ensures j == (PixelRow(j, w) * w + PixelCol(j, w)) * 4 + j % 4
  {
    PixelCoords(w, h, j);
  }
}
