/** Pixel formats: how RGB_TO_PIXEL and RGB24_TO_PIXEL32 (src/encodings/tight.c) put three colour
    components into a pixel, and how a filter takes them out again. */
module TightFormat {
  import opened Bytes
  import opened Bits

  /** Bit i of v. */
  function Bit(v: nat, i: nat): (b: nat)
    ensures b < 2
  {
    if i == 0 then v % 2 else Bit(v / 2, i - 1)
  }

  /** a | b */
  function Or(a: nat, b: nat): nat
    decreases a + b
  {
    if a == 0 && b == 0 then 0
    else (if a % 2 == 1 || b % 2 == 1 then 1 else 0) + 2 * Or(a / 2, b / 2)
  }

  lemma {:induction false} ZeroBit(i: nat)
    ensures Bit(0, i) == 0
  {
    if i > 0 {
      ZeroBit(i - 1);
    }
  }

  lemma {:induction false} OrBit(a: nat, b: nat, i: nat)
    ensures Bit(Or(a, b), i) == if Bit(a, i) == 1 || Bit(b, i) == 1 then 1 else 0
  {
    if a == 0 && b == 0 {
      ZeroBit(i);
    } else if i > 0 {
      OrBit(a / 2, b / 2, i - 1);
      assert Or(a, b) / 2 == Or(a / 2, b / 2);
    }
  }

  /** The bits of v << s. */
  lemma {:induction false} ShiftedBit(v: nat, s: nat, i: nat)
    ensures Bit(v * Pow2(s), i) == if i < s then 0 else Bit(v, i - s)
  {
    if s > 0 {
      var half := v * Pow2(s - 1);
      assert v * Pow2(s) == 2 * half by { assert v * (2 * Pow2(s - 1)) == 2 * (v * Pow2(s - 1)); }
      if i > 0 {
        ShiftedBit(v, s - 1, i - 1);
      }
    }
  }

  lemma {:induction false} HighBit(v: nat, k: nat, i: nat)
    requires v < Pow2(k) && i >= k
    ensures Bit(v, i) == 0
  {
    if k == 0 {
      ZeroBit(i);
    } else {
      HighBit(v / 2, k - 1, i - 1);
    }
  }

  lemma {:induction false} HalfRemainder(v: nat, k: nat)
    ensures v % Pow2(k + 1) == v % 2 + 2 * (v / 2 % Pow2(k))
  {
    var m := Pow2(k);
    var q, r := v / 2 / m, v / 2 % m;
    assert v / 2 == q * m + r;
    assert q * (2 * m) == 2 * (q * m);
    assert 2 * m * q == q * (2 * m);
    DivModUnique(v, 2 * m, q, v % 2 + 2 * r);
  }

  lemma {:induction false} LowBit(v: nat, k: nat, i: nat)
    requires i < k
    ensures Bit(v % Pow2(k), i) == Bit(v, i)
  {
    hide Pow2;
    HalfRemainder(v, k - 1);
    if i > 0 {
      LowBit(v / 2, k - 1, i - 1);
    }
  }

  lemma {:induction false} ShrBit(v: nat, s: nat, i: nat)
    ensures Bit(Shr(v, s), i) == Bit(v, s + i)
  {
    if s > 0 {
      ShrHalf(v, s);
      ShrBit(v / 2, s - 1, i);
    }
  }

  lemma {:induction false} ShrHalf(v: nat, s: nat)
    requires s > 0
    ensures Shr(v, s) == Shr(v / 2, s - 1)
  {
    var m := Pow2(s - 1);
    var q, r := v / 2 / m, v / 2 % m;
    assert v / 2 == q * m + r;
    assert q * (2 * m) == 2 * (q * m);
    assert 2 * m * q == q * (2 * m);
    DivModUnique(v, 2 * m, q, v % 2 + 2 * r);
  }

  /** Words with the same k low bits have the same k-bit value. */
  lemma {:induction false} SameBits(u: nat, v: nat, k: nat)
    requires forall i: nat :: i < k ==> Bit(u, i) == Bit(v, i)
    ensures u % Pow2(k) == v % Pow2(k)
  {
    if k > 0 {
      HalfRemainder(u, k - 1);
      HalfRemainder(v, k - 1);
      forall i: nat | i < k - 1
        ensures Bit(u / 2, i) == Bit(v / 2, i)
      {
        assert Bit(u, i + 1) == Bit(v, i + 1);
      }
      SameBits(u / 2, v / 2, k - 1);
      assert Bit(u, 0) == Bit(v, 0);
    }
  }

  /** A colour component: `bits` bits, so at most 2^bits - 1, from bit `shift` up. */
  datatype Channel = Channel(bits: nat, shift: nat)

  predicate Apart(a: Channel, b: Channel) {
    a.shift + a.bits <= b.shift || b.shift + b.bits <= a.shift
  }

  datatype Format = Format(bpp: nat, depth: nat, red: Channel, green: Channel, blue: Channel) {
    predicate Valid() {
      && (bpp == 8 || bpp == 16 || bpp == 32)
      && red.shift + red.bits <= bpp && green.shift + green.bits <= bpp && blue.shift + blue.bits <= bpp
      && Apart(red, green) && Apart(green, blue) && Apart(blue, red)
    }

    /** Component c: red, green, blue. */
    function Part(c: nat): Channel {
      if c == 0 then red else if c == 1 then green else blue
    }

    /** Whether Tight sends a pixel as three bytes instead of a word. */
    predicate CutZeros() {
      bpp == 32 && depth == 24 && red.bits == 8 && green.bits == 8 && blue.bits == 8
    }
  }

  /** (v & max) << shift */
  function Placed(v: nat, c: Channel): nat {
    v % Pow2(c.bits) * Pow2(c.shift)
  }

  /** RGB_TO_PIXEL */
  function Pack(f: Format, r: nat, g: nat, b: nat): Pixel {
    Or(Or(Placed(r, f.red), Placed(g, f.green)), Placed(b, f.blue))
  }

  function Value(r: nat, g: nat, b: nat, c: nat): nat {
    if c == 0 then r else if c == 1 then g else b
  }

  lemma {:induction false} PlacedBit(v: nat, c: Channel, i: nat)
    ensures Bit(Placed(v, c), i) == if c.shift <= i < c.shift + c.bits then Bit(v, i - c.shift) else 0
  {
    hide Bit, Pow2;
    ShiftedBit(v % Pow2(c.bits), c.shift, i);
    if i >= c.shift {
      if i < c.shift + c.bits {
        LowBit(v, c.bits, i - c.shift);
      } else {
        HighBit(v % Pow2(c.bits), c.bits, i - c.shift);
      }
    }
  }

  lemma {:induction false} PackBit(f: Format, r: nat, g: nat, b: nat, i: nat)
    ensures Bit(Pack(f, r, g, b), i) ==
            if Bit(Placed(r, f.red), i) == 1 || Bit(Placed(g, f.green), i) == 1 || Bit(Placed(b, f.blue), i) == 1
            then 1 else 0
  {
    hide Bit, Or, Placed;
    OrBit(Placed(r, f.red), Placed(g, f.green), i);
    OrBit(Or(Placed(r, f.red), Placed(g, f.green)), Placed(b, f.blue), i);
  }

  /** Every component is found again at its shift, whatever order the components are in. */
  lemma {:induction false} Unpack(f: Format, r: nat, g: nat, b: nat, c: nat)
    requires f.Valid() && c < 3
    ensures var part := f.Part(c);
            Shr(Pack(f, r, g, b), part.shift) % Pow2(part.bits) == Value(r, g, b, c) % Pow2(part.bits)
  {
    hide Bit, Pow2, Pack, Placed, Shr;
    var part, word := f.Part(c), Pack(f, r, g, b);
    forall i: nat | i < part.bits
      ensures Bit(Shr(word, part.shift), i) == Bit(Value(r, g, b, c), i)
    {
      ShrBit(word, part.shift, i);
      PackBit(f, r, g, b, part.shift + i);
      PlacedBit(r, f.red, part.shift + i);
      PlacedBit(g, f.green, part.shift + i);
      PlacedBit(b, f.blue, part.shift + i);
    }
    SameBits(Shr(word, part.shift), Value(r, g, b, c), part.bits);
  }

  /** A packed pixel fits the pixel's bytes. */
  lemma {:induction false} PackFits(f: Format, r: nat, g: nat, b: nat, n: nat)
    requires f.Valid() && f.bpp == 8 * n
    ensures Low(Pack(f, r, g, b), n) == Pack(f, r, g, b)
  {
    hide Bit, Pow2, Pack, Placed;
    var word := Pack(f, r, g, b);
    forall i: nat | i >= 8 * n
      ensures Bit(word, i) == 0
    {
      PackBit(f, r, g, b, i);
      PlacedBit(r, f.red, i);
      PlacedBit(g, f.green, i);
      PlacedBit(b, f.blue, i);
    }
    NoHighBits(word, n);
  }

  lemma {:induction false} NoHighBits(v: nat, n: nat)
    requires forall i: nat :: i >= 8 * n ==> Bit(v, i) == 0
    ensures Low(v, n) == v
  {
    if n == 0 {
      NoBits(v);
    } else {
      forall i: nat | i >= 8 * (n - 1)
        ensures Bit(v / 256, i) == 0
      {
        ShrBit(v, 8, i);
        assert Pow2(8) == 256 by { PowerOfByte(); }
      }
      NoHighBits(v / 256, n - 1);
    }
  }

  lemma {:induction false} PowerOfByte()
    ensures Pow2(8) == 256
  {
    assert Pow2(4) == 16;
  }

  lemma {:induction false} NoBits(v: nat)
    requires forall i: nat :: Bit(v, i) == 0
    ensures v == 0
  {
    assert Bit(v, 0) == 0;
    if v > 0 {
      forall i: nat
        ensures Bit(v / 2, i) == 0
      {
        assert Bit(v, i + 1) == 0;
      }
      NoBits(v / 2);
    }
  }
}
