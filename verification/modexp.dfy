/** The 64-bit modular arithmetic of src/rfbproto.c and the key agreement of HandleMSLogonAuth. */
module ModularPower {
  import opened Bits

  const WORD: nat := 0x1_0000_0000_0000_0000

  type uint64 = v: nat | v < WORD

  /** 64-bit addition. */
  function Plus(x: uint64, y: uint64): uint64 {
    (x + y) % WORD
  }

  function Mod(v: nat, m: nat): (r: nat)
    requires m > 0
    ensures r < m && r <= v
  {
    SmallRemainder(v, m);
    v % m
  }

  /** The rfbAddM64 macro, with every addition a 64-bit one. */
  function AddM64(x: uint64, y: uint64, m: uint64): uint64
    requires m > 0
  {
    Plus(Mod(Plus(x, y), m), if Plus(x, y) < x then Mod(Plus(Mod(WORD - 1, m), 1), m) else 0)
  }

  function Power(b: nat, e: nat): nat {
    if e == 0 then 1 else b * Power(b, e - 1)
  }

  lemma {:induction false} ModShift(a: nat, k: nat, m: nat)
    requires m > 0
    ensures Mod(a + k * m, m) == Mod(a, m)
  {
    var q, r := a / m, a % m;
    assert a == q * m + r;
    assert a + k * m == m * (q + k) + r;
    DivModUnique(a + k * m, m, q + k, r);
  }

  lemma {:induction false} ModQuotient(a: nat, m: nat) returns (q: nat)
    requires m > 0
    ensures a == q * m + Mod(a, m)
  {
    q := a / m;
  }

  lemma {:induction false} ModSmall(v: nat, m: nat)
    requires m > 0
    ensures v < m ==> Mod(v, m) == v
    ensures m <= v < 2 * m ==> Mod(v, m) == v - m
  {
    if v < m {
      DivModUnique(v, m, 0, v);
    } else if v < 2 * m {
      DivModUnique(v, m, 1, v - m);
    }
  }

  /** Replacing a summand or a factor by a congruent one. */
  lemma {:induction false} CongruentSum(a: nat, a': nat, b: nat, m: nat)
    requires m > 0 && Mod(a, m) == Mod(a', m)
    ensures Mod(a + b, m) == Mod(a' + b, m)
  {
    hide Mod;
    var q := ModQuotient(a, m);
    var q' := ModQuotient(a', m);
    ModShift(Mod(a, m) + b, q, m);
    ModShift(Mod(a, m) + b, q', m);
  }

  lemma {:induction false} CongruentProduct(a: nat, a': nat, b: nat, m: nat)
    requires m > 0 && Mod(a, m) == Mod(a', m)
    ensures Mod(a * b, m) == Mod(a' * b, m) && Mod(b * a, m) == Mod(b * a', m)
  {
    hide Mod;
    var q := ModQuotient(a, m);
    var q' := ModQuotient(a', m);
    var r := Mod(a, m);
    Distribute(a, q, m, r, b);
    Distribute(a', q', m, r, b);
    ModShift(r * b, q * b, m);
    ModShift(r * b, q' * b, m);
  }

  lemma {:induction false} Distribute(a: nat, q: nat, m: nat, r: nat, b: nat)
    requires a == q * m + r
    ensures a * b == r * b + (q * b) * m && b * a == a * b
  {
  }

  lemma {:induction false} CongruentPower(a: nat, a': nat, e: nat, m: nat)
    requires m > 0 && Mod(a, m) == Mod(a', m)
    ensures Mod(Power(a, e), m) == Mod(Power(a', e), m)
  {
    hide Mod;
    if e != 0 {
      CongruentPower(a, a', e - 1, m);
      CongruentProduct(Power(a, e - 1), Power(a', e - 1), a, m);
      CongruentProduct(a, a', Power(a', e - 1), m);
    }
  }

  lemma {:induction false} PowerAdd(b: nat, e: nat, f: nat)
    ensures Power(b, e + f) == Power(b, e) * Power(b, f)
  {
    if e != 0 {
      PowerAdd(b, e - 1, f);
      assert e + f - 1 == (e - 1) + f;
      assert b * (Power(b, e - 1) * Power(b, f)) == (b * Power(b, e - 1)) * Power(b, f);
    }
  }

  lemma {:induction false} PowerOfPower(b: nat, e: nat, f: nat)
    ensures Power(Power(b, e), f) == Power(b, e * f)
  {
    if f != 0 {
      PowerOfPower(b, e, f - 1);
      assert e * f == e + e * (f - 1);
      PowerAdd(b, e, e * (f - 1));
    }
  }

  /** 2^64 modulo m, as the macro computes it without holding 2^64. */
  lemma {:induction false} CarryValue(m: uint64)
    requires m > 0
    ensures Mod(Plus(Mod(WORD - 1, m), 1), m) == Mod(WORD, m)
  {
    hide Mod;
    ModSmall(Mod(WORD - 1, m), m);
    CongruentSum(Mod(WORD - 1, m), WORD - 1, 1, m);
  }

  /** The macro adds modulo m whatever its operands; its last addition never wraps; it stays below
      m when both operands do; and it is exact unless the sum wraps and the remainders of what is
      left and of 2^64 together reach m. */
  lemma {:induction false} AddM64Exact(x: uint64, y: uint64, m: uint64)
    requires m > 0
    ensures AddM64(x, y, m) ==
            Mod(Plus(x, y), m) + (if Plus(x, y) < x then Mod(Plus(Mod(WORD - 1, m), 1), m) else 0)
    ensures Mod(AddM64(x, y, m), m) == Mod(x + y, m)
    ensures x < m && y < m ==> AddM64(x, y, m) == Mod(x + y, m)
    ensures AddM64(x, y, m) == Mod(x + y, m) <==> Plus(x, y) >= x || Mod(Plus(x, y), m) + Mod(WORD, m) < m
  {
    hide Mod;
    var s := Plus(x, y);
    if s < x {
      assert x + y == s + WORD;
      CarryValue(m);
      ModSmall(WORD, m);
      ModSmall(s, m);
      ModSmall(x + y, m);
      ModSmall(Mod(s, m), m);
      ModSmall(Mod(WORD, m), m);
      ModSmall(Mod(s, m) + Mod(WORD, m), m);
      CongruentSum(Mod(s, m), s, Mod(WORD, m), m);
      CongruentSum(Mod(WORD, m), WORD, s, m);
    } else {
      assert x + y == s;
      ModSmall(Mod(s, m), m);
    }
  }

  /** (x * y) % m: congruent for every y, and exact when y is below m. */
  method MulM64(x0: uint64, y0: uint64, m: uint64) returns (r: uint64)
    requires m > 0
    ensures Mod(r, m) == Mod(x0 * y0, m)
    ensures y0 < m ==> r == Mod(x0 * y0, m)
  {
    hide Mod, AddM64;
    var x: uint64, y: uint64 := x0, y0;
    r := 0;
    ModSmall(0, m);
    while x > 0
      invariant Mod(r + x * y, m) == Mod(x0 * y0, m)
      invariant y0 < m ==> r < m && y < m
      decreases x
    {
      ghost var _, _, _ := DoublingStep(r, x, y, m);
      if x % 2 == 1 {
        r := AddM64(r, y, m);
      }
      y := AddM64(y, y, m);
      x := x / 2;
    }
    ModSmall(r, m);
  }

  /** One round of double-and-add keeps r + x * y modulo m, and stays below m. */
  lemma {:induction false} DoublingStep(r: uint64, x: uint64, y: uint64, m: uint64)
    returns (r': uint64, y': uint64, h: uint64)
    requires m > 0
    ensures Mod(r' + h * y', m) == Mod(r + x * y, m)
    ensures r < m && y < m ==> r' < m && y' < m
    ensures h == x / 2 && y' == AddM64(y, y, m) && r' == if x % 2 == 1 then AddM64(r, y, m) else r
  {
    hide Mod, AddM64;
    r', y', h := if x % 2 == 1 then AddM64(r, y, m) else r, AddM64(y, y, m), x / 2;
    AddM64Exact(r, y, m);
    AddM64Exact(y, y, m);
    CongruentProduct(y', y + y, h, m);
    Halve(x, y);
    CongruentSums(r', if x % 2 == 1 then r + y else r, h * y', h * (y + y), m);
  }

  lemma {:induction false} CongruentSums(a: nat, a': nat, b: nat, b': nat, m: nat)
    requires m > 0 && Mod(a, m) == Mod(a', m) && Mod(b, m) == Mod(b', m)
    ensures Mod(a + b, m) == Mod(a' + b', m)
  {
    hide Mod;
    CongruentSum(a, a', b, m);
    CongruentSum(b, b', a', m);
  }

  lemma {:induction false} Halve(x: nat, y: nat)
    ensures x / 2 * (y + y) + (if x % 2 == 1 then y else 0) == x * y
  {
    assert x == x / 2 + x / 2 + x % 2;
  }

  /** (b ^ e) % m: congruent for every base; and for a base below m exact, except that
      0 ^ 0 modulo 1 is returned as 1. */
  method PowM64(b0: uint64, e0: uint64, m: uint64) returns (r: uint64)
    requires m > 0
    ensures Mod(r, m) == Mod(Power(b0, e0), m)
    ensures b0 < m ==> (r == Mod(Power(b0, e0), m) <==> m > 1 || e0 > 0)
  {
    hide Mod, Power;
    var b: uint64, e: uint64 := b0, e0;
    r := 1;
    ModSmall(1, m);
    PowerZero(b0);
    while e > 0
      invariant Mod(r * Power(b, e), m) == Mod(Power(b0, e0), m)
      invariant b0 < m ==> b < m && (m > 1 || (e == 0 && e0 > 0) ==> r < m)
      invariant e0 == 0 ==> r == 1
      decreases e
    {
      ghost var r1, b1 := r, b;
      if e % 2 == 1 {
        r := MulM64(r, b, m);
      }
      b := MulM64(b, b, m);
      SquaringStep(r1, b1, e, r, b, m);
      e := e / 2;
    }
    PowerZero(b);
    ModSmall(r, m);
  }

  lemma {:induction false} PowerZero(b: nat)
    ensures Power(b, 0) == 1
  {
  }

  lemma {:induction false} PowerSplit(b: nat, e: nat)
    ensures Power(b, e) == (if e % 2 == 1 then b else 1) * Power(b * b, e / 2)
  {
    var h := e / 2;
    PowerOfPower(b, 2, h);
    assert Power(b, 2) == b * Power(b, 1) == b * (b * 1);
  }

  /** One round of square-and-multiply keeps r * b ^ e modulo m. */
  lemma {:induction false} SquaringStep(r: nat, b: nat, e: nat, r': nat, b': nat, m: nat)
    requires m > 0 && Mod(b', m) == Mod(b * b, m)
    requires if e % 2 == 1 then Mod(r', m) == Mod(r * b, m) else r' == r
    ensures Mod(r' * Power(b', e / 2), m) == Mod(r * Power(b, e), m)
  {
    hide Mod, Power;
    var h := e / 2;
    var f := Power(b * b, h);
    CongruentPower(b', b * b, h, m);
    CongruentProduct(Power(b', h), f, r', m);
    PowerSplit(b, e);
    if e % 2 == 1 {
      CongruentProduct(r', r * b, f, m);
      assert (r * b) * f == r * (b * f);
    } else {
      assert 1 * f == f;
    }
  }

  /** The guard on the operand is needed: adding 3 * y for this y >= m, as rfbMulM64(3, y, m)
      does in its two rounds, ends at a value that is congruent but not below m. */
  lemma {:induction false} UnreducedOperand()
    ensures var m: uint64, y: uint64 := 0x8000_0000_0000_0001, 0xC000_0000_0000_0000;
            var r := AddM64(AddM64(0, y, m), AddM64(y, y, m), m);
            y >= m && r >= m && r != Mod(3 * y, m)
  {
    var m: uint64, y: uint64 := 0x8000_0000_0000_0001, 0xC000_0000_0000_0000;
    ModSmall(y, m);
    ModSmall(WORD - 1, m);
    ModSmall(0x8000_0000_0000_0000, m);
    ModSmall(0x7FFF_FFFF_FFFF_FFFF, m);
    ModSmall(0x3FFF_FFFF_FFFF_FFFF, m);
  }

  /** Both parties of HandleMSLogonAuth's exchange: each raises the generator to its own secret,
      sends the result, and raises what it receives to its secret. */
  method Agree(gen: uint64, mod: uint64, privA: uint64, privB: uint64) returns (keyA: uint64, keyB: uint64)
    requires mod > 0
    ensures Mod(keyA, mod) == Mod(keyB, mod) == Mod(Power(gen, privA * privB), mod)
    ensures gen < mod && mod > 1 ==> keyA == keyB == Mod(Power(gen, privA * privB), mod)
  {
    hide Mod, Power;
    var pubA := PowM64(gen, privA, mod);
    var pubB := PowM64(gen, privB, mod);
    keyA := PowM64(pubB, privA, mod);
    keyB := PowM64(pubA, privB, mod);
    CongruentPower(pubB, Power(gen, privB), privA, mod);
    CongruentPower(pubA, Power(gen, privA), privB, mod);
    PowerOfPower(gen, privB, privA);
    PowerOfPower(gen, privA, privB);
    assert privB * privA == privA * privB;
  }
}
