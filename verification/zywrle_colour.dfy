/** Pixels and the colour transform of src/encodings/zywrletemplate.c. Encoding is for 32-bit pixels
    only, decoding also for 16-bit ones. */
module ZywrleColour {
  import opened Bytes
  import opened Bits
  import opened ZywrleWavelet

  /** Colour channels as the macros hold them, in ints. */
  datatype Rgb = Rgb(r: int, g: int, b: int)

  /** ZYWRLE_LOAD_PIXEL32, little-endian. */
  function LoadPixel(p: Pixel): (c: Rgb)
    ensures IsColour(c)
  {
    Rgb(p / 0x1_0000 % 256, p / 0x100 % 256, p % 256)
  }

  /** The bytes of a 32-bit pixel in memory are blue, green and red. */
  lemma {:induction false} LoadPixelBytes(p: Pixel)
    ensures var c := LoadPixel(p); ToBytes(p, 3) == [c.b, c.g, c.r]
  {
    assert ToBytes(p / 256 / 256, 1) == [p / 256 / 256 % 256] + ToBytes(p / 256 / 256 / 256, 0);
    assert p / 256 / 256 == p / 0x1_0000;
  }

  predicate IsColour(c: Rgb) {
    0 <= c.r < 256 && 0 <= c.g < 256 && 0 <= c.b < 256
  }

  /** ZYWRLE_SAVE_PIXEL32: the casts to unsigned char keep the low byte; the top byte stays. */
  function SavePixel(p: Pixel, c: Rgb): Pixel {
    p / 0x100_0000 * 0x100_0000 + c.r % 256 * 0x1_0000 + c.g % 256 * 0x100 + c.b % 256
  }

  lemma {:induction false} SaveThenLoad(p: Pixel, c: Rgb)
    ensures LoadPixel(SavePixel(p, c)) == Rgb(c.r % 256, c.g % 256, c.b % 256)
    ensures SavePixel(p, c) / 0x100_0000 == p / 0x100_0000
  {
    var r, g, b := c.r % 256, c.g % 256, c.b % 256;
    var q := SavePixel(p, c);
    assert q / 0x1_0000 == p / 0x100_0000 * 256 + r;
    assert q / 0x100 == (p / 0x100_0000 * 256 + r) * 256 + g;
  }

  datatype Depth = Bits16 | Bits32

  /** ZYWRLE_LOAD_PIXEL16: five, six and five bits. */
  function Load16(p: Pixel): (c: Rgb)
    ensures IsColour(c)
  {
    Rgb(p / 0x800 % 32 * 8, p / 0x20 % 64 * 4, p % 32 * 8)
  }

  /** In memory, blue has the five low bits of the first byte and red the five high bits of the
      second; green has the three low bits of the second above the three high bits of the first. */
  lemma {:induction false} Load16Bytes(p: Pixel)
    ensures var c, bs := Load16(p), ToBytes(p, 2);
            c.b == 8 * (bs[0] % 32) && c.r == 8 * (bs[1] / 8) && c.g == 4 * (8 * (bs[1] % 8) + bs[0] / 32)
  {
    assert ToBytes(p / 256, 1) == [p / 256 % 256] + ToBytes(p / 256 / 256, 0);
    var b0, b1, top := p % 256, p / 256 % 256, p / 256 / 256;
    assert p == top * 0x1_0000 + (b1 / 8) * 0x800 + (8 * (b1 % 8) + b0 / 32) * 0x20 + b0 % 32;
    Fields16(top, b1 / 8, 8 * (b1 % 8) + b0 / 32, b0 % 32);
  }

  /** ZYWRLE_SAVE_PIXEL16 */
  function Save16(p: Pixel, c: Rgb): Pixel
    requires IsColour(c)
  {
    p / 0x1_0000 * 0x1_0000 + c.r / 8 * 0x800 + c.g / 4 * 0x20 + c.b / 8
  }

  lemma {:induction false} Save16ThenLoad(p: Pixel, c: Rgb)
    requires IsColour(c)
    ensures Load16(Save16(p, c)) == Rgb(c.r / 8 * 8, c.g / 4 * 4, c.b / 8 * 8)
    ensures Save16(p, c) / 0x1_0000 == p / 0x1_0000
  {
    Fields16(p / 0x1_0000, c.r / 8, c.g / 4, c.b / 8);
  }

  /** Three fields under the rest of a number. */
  lemma {:induction false} Fields16(top: nat, r: nat, g: nat, b: nat)
    requires r < 32 && g < 64 && b < 32
    ensures var q := top * 0x1_0000 + r * 0x800 + g * 0x20 + b;
            q / 0x1_0000 == top && q / 0x800 % 32 == r && q / 0x20 % 64 == g && q % 32 == b
  {
    var q := top * 0x1_0000 + r * 0x800 + g * 0x20 + b;
    DivModUnique(q, 0x1_0000, top, r * 0x800 + g * 0x20 + b);
    DivModUnique(q, 0x800, top * 32 + r, g * 0x20 + b);
    DivModUnique(q, 0x20, top * 0x800 + r * 64 + g, b);
    DivModUnique(top * 32 + r, 32, top, r);
    DivModUnique(top * 0x800 + r * 64 + g, 64, top * 32 + r, g);
  }

  function LoadWord(p: Pixel, depth: Depth): Rgb {
    if depth.Bits16? then Load16(p) else LoadPixel(p)
  }

  function SaveWord(p: Pixel, c: Rgb, depth: Depth): Pixel
    requires depth.Bits16? ==> IsColour(c)
  {
    if depth.Bits16? then Save16(p, c) else SavePixel(p, c)
  }

  /** A pixel as wide as the depth says. */
  function Whole(p: Pixel, depth: Depth): Pixel {
    p % (if depth.Bits16? then 0x1_0000 else 0x1_0000_0000)
  }

  /** The depth of pixels that travel as n bytes. */
  function DepthOf(n: nat): Depth {
    if n == 2 then Bits16 else Bits32
  }

  function LoadCoeff(c: Cell): Rgb {
    Rgb(c.r, c.g, c.b)
  }

  function SaveCoeff(c: Cell, v: Rgb): Cell {
    Cell(ToSchar(v.b), ToSchar(v.g), ToSchar(v.r), c.pad)
  }

  /** A coefficient survives the trip through a pixel's unsigned bytes. */
  lemma {:induction false} CoeffThroughPixel(p: Pixel, c: Cell, d: Cell)
    ensures SaveCoeff(d, LoadPixel(SavePixel(p, LoadCoeff(c)))) == Cell(c.b, c.g, c.r, d.pad)
  {
    hide SavePixel, LoadPixel;
    SaveThenLoad(p, LoadCoeff(c));
  }

  function AwayFromMin(x: int): int {
    if x == -128 then -127 else x
  }

  function Round(x: int): int {
    if x < 0 then 0 else if x > 255 then 255 else x
  }

  /** ZYWRLE_RGBYUV1 with the 32-bit masks, followed by ZYWRLE_SAVE_COEFF(pBuf, V, Y, U). */
  function ToYuv(c: Rgb, d: Cell): Cell {
    var y := AwayFromMin((c.r + 2 * c.g + c.b) / 4 - 128);
    var u := AwayFromMin((c.b - c.g) / 2);
    var v := AwayFromMin((c.r - c.g) / 2);
    SaveCoeff(d, Rgb(v, y, u))
  }

  /** ZYWRLE_LOAD_COEFF(pBuf, V, Y, U) followed by ZYWRLE_YUVRGB1. */
  function ToRgb(c: Cell): (v: Rgb)
    ensures IsColour(v)
  {
    var y, u, v := c.g + 128, c.b * 2, c.r * 2;
    var g := y - (u + v) / 4;
    Rgb(Round(v + g), Round(g), Round(u + g))
  }

  /** x brought into 0..255. */
  predicate IsCut(x: int, c: int) {
    if 0 <= x < 256 then c == x else c == if x < 0 then 0 else 255
  }

  /** The colour of a coefficient, before its channels are cut to 0..255: its luma is the green lane
      plus 128, and blue and red differ from green by twice the blue and the red lane. */
  lemma {:induction false} RgbMeaning(c: Cell) returns (v: Rgb)
    ensures (v.r + 2 * v.g + v.b) / 4 == c.g + 128 && v.b - v.g == 2 * c.b && v.r - v.g == 2 * c.r
    ensures IsCut(v.r, ToRgb(c).r) && IsCut(v.g, ToRgb(c).g) && IsCut(v.b, ToRgb(c).b)
  {
    var g := c.g + 128 - (c.b * 2 + c.r * 2) / 4;
    v := Rgb(c.r * 2 + g, g, c.b * 2 + g);
  }

  /** The coefficient of a colour: its luma less 128 in the green lane, and half of what blue and red
      exceed green by in the blue and the red lane, rounded down; and -127 where that is -128. */
  lemma {:induction false} YuvMeaning(c: Rgb, d: Cell)
    requires IsColour(c)
    ensures var e := ToYuv(c, d);
            && e.pad == d.pad
            && (e.g == (c.r + 2 * c.g + c.b) / 4 - 128 || (e.g == -127 && c.r + 2 * c.g + c.b < 4))
            && (2 * e.b <= c.b - c.g <= 2 * e.b + 1 || (e.b == -127 && c.b - c.g == -255))
            && (2 * e.r <= c.r - c.g <= 2 * e.r + 1 || (e.r == -127 && c.r - c.g == -255))
  {
    hide SaveCoeff, AwayFromMin;
    YuvHalves(c);
    SignedBytes(AwayFromMin((c.b - c.g) / 2), AwayFromMin((c.r + 2 * c.g + c.b) / 4 - 128),
                AwayFromMin((c.r - c.g) / 2), d);
  }

  lemma {:induction false} YuvHalves(c: Rgb)
    requires IsColour(c)
    ensures var y, u, v := AwayFromMin((c.r + 2 * c.g + c.b) / 4 - 128), AwayFromMin((c.b - c.g) / 2),
                           AwayFromMin((c.r - c.g) / 2);
            && -127 <= y <= 127 && -127 <= u <= 127 && -127 <= v <= 127
            && (y == (c.r + 2 * c.g + c.b) / 4 - 128 || (y == -127 && c.r + 2 * c.g + c.b < 4))
            && (2 * u <= c.b - c.g <= 2 * u + 1 || (u == -127 && c.b - c.g == -255))
            && (2 * v <= c.r - c.g <= 2 * v + 1 || (v == -127 && c.r - c.g == -255))
  {
  }

  predicate Near(c: Rgb, d: Rgb, e: nat) {
    Abs(c.r - d.r) <= e && Abs(c.g - d.g) <= e && Abs(c.b - d.b) <= e
  }

  /** Halving a difference and doubling it again. */
  lemma {:induction false} HalfError(x: int)
    requires -255 <= x <= 255
    ensures var h := AwayFromMin(x / 2); -127 <= h <= 127 && -1 <= 2 * h - x <= (if x == -255 then 1 else 0)
  {
  }

  /** The green channel before rounding, for colour differences that are off by e0 and e1. */
  lemma {:induction false} GreenError(c: Rgb, u: int, v: int)
    requires IsColour(c)
    requires u == AwayFromMin((c.b - c.g) / 2) && v == AwayFromMin((c.r - c.g) / 2)
    ensures var y := AwayFromMin((c.r + 2 * c.g + c.b) / 4 - 128);
            var g := y + 128 - (2 * u + 2 * v) / 4;
            && -127 <= y <= 127
            && -1 <= g - c.g <= 1
            && -1 <= 2 * u + g - c.b <= 1
            && -1 <= 2 * v + g - c.r <= 1
  {
    HalfError(c.b - c.g);
    HalfError(c.r - c.g);
    var s, e := c.r + 2 * c.g + c.b, 2 * u - (c.b - c.g) + (2 * v - (c.r - c.g));
    assert (2 * u + 2 * v) / 4 == (s + e) / 4 - c.g;
  }

  lemma {:induction false} SignedBytes(b: int, g: int, r: int, d: Cell)
    requires -127 <= b <= 127 && -127 <= g <= 127 && -127 <= r <= 127
    ensures SaveCoeff(d, Rgb(r, g, b)) == Cell(b, g, r, d.pad) && Odd(Cell(b, g, r, d.pad))
  {
  }

  /** The coefficients are not cut by the casts. */
  lemma {:induction false} Transformed(c: Rgb, d: Cell)
    requires IsColour(c)
    ensures var u, v := AwayFromMin((c.b - c.g) / 2), AwayFromMin((c.r - c.g) / 2);
            var g := AwayFromMin((c.r + 2 * c.g + c.b) / 4 - 128) + 128 - (2 * u + 2 * v) / 4;
            Odd(ToYuv(c, d)) && ToRgb(ToYuv(c, d)) == Rgb(Round(2 * v + g), Round(g), Round(2 * u + g))
  {
    hide AwayFromMin, Round, SaveCoeff, Odd;
    var y := AwayFromMin((c.r + 2 * c.g + c.b) / 4 - 128);
    var u, v := AwayFromMin((c.b - c.g) / 2), AwayFromMin((c.r - c.g) / 2);
    HalfError(c.b - c.g);
    HalfError(c.r - c.g);
    GreenError(c, u, v);
    SignedBytes(u, y, v, d);
  }

  /** The colour transform stays in the odd range and loses at most one unit a channel. */
  lemma {:induction false} ColourError(c: Rgb, d: Cell)
    requires IsColour(c)
    ensures Odd(ToYuv(c, d)) && Near(ToRgb(ToYuv(c, d)), c, 1)
  {
    hide AwayFromMin, Round, ToYuv, ToRgb;
    var u, v := AwayFromMin((c.b - c.g) / 2), AwayFromMin((c.r - c.g) / 2);
    var g := AwayFromMin((c.r + 2 * c.g + c.b) / 4 - 128) + 128 - (2 * u + 2 * v) / 4;
    Transformed(c, d);
    GreenError(c, u, v);
    RoundNear(g, c.g);
    RoundNear(2 * u + g, c.b);
    RoundNear(2 * v + g, c.r);
  }

  lemma {:induction false} RoundNear(x: int, c: int)
    requires 0 <= c < 256 && -1 <= x - c <= 1
    ensures -1 <= Round(x) - c <= 1
  {
  }

  /** Just what the transform keeps: colours that are not nearly black, whose channels have the
      parity of green, except where rounding at 0 and 255 helps out. */
  predicate Kept(c: Rgb) {
    if c.g < 255 then
      c.r + 2 * c.g + c.b >= 4 && (c.r == 0 || c.r % 2 == c.g % 2) && (c.b == 0 || c.b % 2 == c.g % 2)
    else
      c.r > 0 && c.b > 0 && c.r % 2 == c.b % 2 && (c.r % 2 == 1 || (c.r + c.b) % 4 == 2)
  }

  /** Half a difference, doubled again. */
  lemma {:induction false} Doubled(x: int)
    requires -255 <= x <= 255
    ensures 2 * AwayFromMin(x / 2) == if x == -255 then -254 else x - x % 2
  {
  }

  lemma {:induction false} FourthOf(g: int, d: int, e: int)
    requires 0 <= e <= 2
    ensures (4 * g + d) / 4 - (d - e) / 4 == g + if d % 4 < e then 1 else 0
  {
  }

  lemma {:induction false} Halves(c: Rgb, u: int, v: int)
    requires IsColour(c) && -255 < c.b - c.g && -255 < c.r - c.g
    requires u == AwayFromMin((c.b - c.g) / 2) && v == AwayFromMin((c.r - c.g) / 2)
    ensures 2 * u == c.b - c.g - (c.b - c.g) % 2 && 2 * v == c.r - c.g - (c.r - c.g) % 2
  {
    hide AwayFromMin;
    Doubled(c.b - c.g);
    Doubled(c.r - c.g);
  }

  /** The green channel before rounding. */
  lemma {:induction false} GreenBecomes(c: Rgb, u: int, v: int)
    requires IsColour(c) && -255 < c.b - c.g && -255 < c.r - c.g
    requires u == AwayFromMin((c.b - c.g) / 2) && v == AwayFromMin((c.r - c.g) / 2)
    ensures var s, d, e := c.r + 2 * c.g + c.b, c.b - c.g + (c.r - c.g), (c.b - c.g) % 2 + (c.r - c.g) % 2;
            AwayFromMin(s / 4 - 128) + 128 - (2 * u + 2 * v) / 4 ==
            c.g + (if s < 4 then 1 else 0) + (if d % 4 < e then 1 else 0)
  {
    hide AwayFromMin;
    var s, d, e := c.r + 2 * c.g + c.b, c.b - c.g + (c.r - c.g), (c.b - c.g) % 2 + (c.r - c.g) % 2;
    Halves(c, u, v);
    FourthOf(c.g, d, e);
    Luma(s);
    assert 2 * u + 2 * v == d - e && 4 * c.g + d == s;
  }

  /** When the parities alone would make green grow. */
  lemma {:induction false} BothOdd(c: Rgb)
    requires IsColour(c)
    ensures var d, e, f := c.b - c.g + (c.r - c.g), (c.b - c.g) % 2, (c.r - c.g) % 2;
            && (d % 4 < e + f <==> e == f == 1 && (c.b + c.r - 2 * c.g) % 4 == 0)
            && (e == 1 && c.b == 0 && c.r == 0 ==> (c.b + c.r - 2 * c.g) % 4 == 2)
  {
  }

  /** A colour that is not fully green: its green is kept, or grows. */
  lemma {:induction false} KeptBelow(c: Rgb, d: Cell)
    requires IsColour(c) && c.g < 255
    ensures ToRgb(ToYuv(c, d)) == c <==> Kept(c)
  {
    hide AwayFromMin, ToRgb, ToYuv;
    Transformed(c, d);
    Halves(c, AwayFromMin((c.b - c.g) / 2), AwayFromMin((c.r - c.g) / 2));
    GreenBecomes(c, AwayFromMin((c.b - c.g) / 2), AwayFromMin((c.r - c.g) / 2));
    Parities(c);
    BothOdd(c);
    var e, f := (c.b - c.g) % 2, (c.r - c.g) % 2;
    var more := (c.b - c.g + (c.r - c.g)) % 4 < e + f;
    if c.r + 2 * c.g + c.b < 4 || more {
      assert ToRgb(ToYuv(c, d)).g != c.g;
    } else {
      assert ToRgb(ToYuv(c, d)) == Rgb(Round(c.r - f), Round(c.g), Round(c.b - e));
    }
  }

  /** A fully green colour: growing green is cut to what it was. */
  lemma {:induction false} KeptGreen(c: Rgb, d: Cell)
    requires IsColour(c) && c.g == 255
    ensures ToRgb(ToYuv(c, d)) == c <==> Kept(c)
  {
    hide AwayFromMin, ToRgb, ToYuv, Round;
    Transformed(c, d);
    Parities(c);
    if c.r == 0 || c.b == 0 {
      NoneBesideGreen(c, AwayFromMin((c.b - c.g) / 2), AwayFromMin((c.r - c.g) / 2));
    } else {
      Halves(c, AwayFromMin((c.b - c.g) / 2), AwayFromMin((c.r - c.g) / 2));
      GreenBecomes(c, AwayFromMin((c.b - c.g) / 2), AwayFromMin((c.r - c.g) / 2));
      BothOdd(c);
      var e, f := (c.b - c.g) % 2, (c.r - c.g) % 2;
      var more := if (c.b - c.g + (c.r - c.g)) % 4 < e + f then 1 else 0;
      FullGreen();
      assert ToRgb(ToYuv(c, d)) == Rgb(Round(c.r - f + more), 255, Round(c.b - e + more));
      MoreGreen(c, e, f, more);
    }
  }

  lemma {:induction false} FullGreen()
    ensures Round(255) == 255 && Round(256) == 255
  {
  }

  lemma {:induction false} MoreGreen(c: Rgb, e: int, f: int, more: int)
    requires IsColour(c) && c.g == 255 && c.r > 0 && c.b > 0
    requires e == (if c.b % 2 == 1 then 0 else 1) && f == (if c.r % 2 == 1 then 0 else 1)
    requires more == if e == f == 1 && (c.b + c.r - 510) % 4 == 0 then 1 else 0
    ensures Round(c.r - f + more) == c.r && Round(c.b - e + more) == c.b <==> Kept(c)
  {
    assert (c.b + c.r - 510) % 4 == 0 <==> (c.r + c.b) % 4 == 2;
  }

  /** A difference of -255 is too large by two once its half is moved away from the minimum. */
  lemma {:induction false} NoneBesideGreen(c: Rgb, u: int, v: int)
    requires IsColour(c) && c.g == 255 && (c.r == 0 || c.b == 0)
    requires u == AwayFromMin((c.b - c.g) / 2) && v == AwayFromMin((c.r - c.g) / 2)
    ensures var g := AwayFromMin((c.r + 2 * c.g + c.b) / 4 - 128) + 128 - (2 * u + 2 * v) / 4;
            Rgb(Round(2 * v + g), Round(g), Round(2 * u + g)) != c
  {
    Doubled(c.b - c.g);
    Doubled(c.r - c.g);
  }

  lemma {:induction false} Luma(s: int)
    requires 0 <= s < 1024
    ensures AwayFromMin(s / 4 - 128) + 128 == if s < 4 then 1 else s / 4
  {
  }

  lemma {:induction false} Parities(c: Rgb)
    ensures (c.b - c.g) % 2 == (if c.b % 2 == c.g % 2 then 0 else 1)
    ensures (c.r - c.g) % 2 == (if c.r % 2 == c.g % 2 then 0 else 1)
  {
  }

  /** The colour transform loses nothing of a colour exactly if Kept says so. */
  lemma {:induction false} ColourKept(c: Rgb, d: Cell)
    requires IsColour(c)
    ensures ToRgb(ToYuv(c, d)) == c <==> Kept(c)
  {
    hide ToRgb, ToYuv, Kept;
    if c.g < 255 {
      KeptBelow(c, d);
    } else {
      KeptGreen(c, d);
    }
  }

  /** The bound is attained: black comes back as (1, 1, 1). */
  lemma {:induction false} BlackIsInexact(d: Cell)
    ensures ToRgb(ToYuv(Rgb(0, 0, 0), d)) == Rgb(1, 1, 1)
  {
  }
}
