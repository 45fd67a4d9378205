/** Powers of two and shifts. */
module Bits {

  function Pow2(n: nat): (r: nat)
    ensures r > 0
  {
    if n == 0 then 1 else 2 * Pow2(n - 1)
  }

  /** v >> n */
  function Shr(v: nat, n: nat): nat {
    QuotientIsNatural(v, Pow2(n));
    v / Pow2(n)
  }

  lemma {:induction false} QuotientIsNatural(v: nat, m: nat)
    requires m > 0
    ensures v / m >= 0
  {
    var q := v / m;
    assert v == m * q + v % m;
    assert m * q + m == m * (q + 1);
  }

  /** The n low bits of v are clear. */
  predicate Aligned(v: nat, n: nat) {
    v % Pow2(n) == 0
  }

  lemma {:induction false} LastPlace(u: nat, n: nat, radix: nat)
    requires u < n
    ensures u * radix + radix <= n * radix
  {
    if u < n - 1 {
      LastPlace(u, n - 1, radix);
    }
    assert n * radix == (n - 1) * radix + radix;
  }

  /** A two-digit numeral determines its digits. */
  lemma {:induction false} Digits(hi: nat, lo: nat, hi': nat, lo': nat, radix: nat)
    requires lo < radix && lo' < radix && hi * radix + lo == hi' * radix + lo'
    ensures hi == hi' && lo == lo'
  {
    if hi < hi' {
      LastPlace(hi, hi', radix);
    } else if hi' < hi {
      LastPlace(hi', hi, radix);
    }
  }

  /** Quotient and remainder are determined by v == m * q + r with 0 <= r < m. */
  lemma {:induction false} DivModUnique(v: nat, m: nat, q: nat, r: nat)
    requires r < m && v == m * q + r
    ensures v / m == q && v % m == r
  {
    assert v == (v / m) * m + v % m;
    assert m * q == q * m;
    Digits(q, r, v / m, v % m, m);
  }

  lemma {:induction false} ShrExact(v: nat, n: nat)
    requires Aligned(v, n)
    ensures Shr(v, n) * Pow2(n) == v
  {
  }

  /** An aligned size has, one level down, twice as many blocks of half the size. */
  lemma {:induction false} ShrHalves(v: nat, n: nat)
    requires Aligned(v, n + 1)
    ensures Aligned(v, n) && Shr(v, n) == 2 * Shr(v, n + 1)
  {
    var q, m := Shr(v, n + 1), Pow2(n);
    ShrExact(v, n + 1);
    assert q * (2 * m) == m * (2 * q);
    DivModUnique(v, m, 2 * q, 0);
  }

  lemma {:induction false} AlignedBelow(v: nat, n: nat, k: nat)
    requires Aligned(v, n) && k <= n
    ensures Aligned(v, k)
  {
    if k < n {
      ShrHalves(v, n - 1);
      AlignedBelow(v, n - 1, k);
    }
  }

  lemma {:induction false} SmallRemainder(v: nat, m: nat)
    requires m > 0
    ensures v % m <= v
  {
    assert v == m * (v / m) + v % m;
  }

  lemma {:induction false} RoundedDown(v: nat, m: nat)
    requires m > 0
    ensures v % m <= v && (v - v % m) % m == 0
  {
    var q, r := v / m, v % m;
    assert v == m * q + r;
    SmallRemainder(v, m);
    DivModUnique(v - r, m, q, 0);
  }
}
