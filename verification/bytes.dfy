/** Bytes and little-endian words, as the decoders load them. */
module Bytes {

  type byte = b: int | 0 <= b < 256

  /** A framebuffer word of 1, 2 or 4 bytes. */
  type Pixel = nat

  /** The n little-endian bytes of v (its low n bytes when v is wider). */
  function ToBytes(v: nat, n: nat): (bs: seq<byte>)
    ensures |bs| == n
  {
    if n == 0 then [] else [v % 256] + ToBytes(v / 256, n - 1)
  }

  function FromBytes(bs: seq<byte>): nat {
    if bs == [] then 0 else bs[0] + 256 * FromBytes(bs[1..])
  }

  /** The value of the low n bytes of v. */
  function Low(v: nat, n: nat): nat {
    if n == 0 then 0 else v % 256 + 256 * Low(v / 256, n - 1)
  }

  lemma {:induction false} FirstByte(b: byte, rest: seq<byte>)
    ensures FromBytes([b] + rest) == b + 256 * FromBytes(rest)
  {
    assert ([b] + rest)[1..] == rest;
  }

  /** The low byte comes first in memory. */
  lemma {:induction false} LittleEndian(a: byte, b: byte, c: byte, d: byte)
    ensures FromBytes([a]) == a && FromBytes([a, b]) == a + 0x100 * (b as nat)
    ensures FromBytes([a, b, c]) == a + 0x100 * (b as nat) + 0x1_0000 * (c as nat)
    ensures FromBytes([a, b, c, d]) == a + 0x100 * (b as nat) + 0x1_0000 * (c as nat) + 0x100_0000 * (d as nat)
  {
    assert forall x: byte :: [x] == [x] + [];
    FirstByte(a, []);
    FirstByte(b, []);
    FirstByte(c, []);
    FirstByte(d, []);
    FirstByte(a, [b]);
    FirstByte(b, [c]);
    FirstByte(c, [d]);
    FirstByte(a, [b, c]);
    FirstByte(b, [c, d]);
    FirstByte(a, [b, c, d]);
    assert [a, b] == [a] + [b] && [b, c] == [b] + [c] && [c, d] == [c] + [d];
    assert [a, b, c] == [a] + [b, c] && [b, c, d] == [b] + [c, d] && [a, b, c, d] == [a] + [b, c, d];
  }

  lemma {:induction false} LowOfSum(b: byte, u: nat, n: nat)
    requires n > 0
    ensures Low(b + 256 * u, n) == b + 256 * Low(u, n - 1)
  {
  }

  /** Storing the low n bytes of v and loading them together with whatever bytes follow
      them in memory gives a word that agrees with v on its low n bytes. */
  lemma {:induction false} WideLoad(v: nat, n: nat, rest: seq<byte>)
    ensures Low(FromBytes(ToBytes(v, n) + rest), n) == Low(v, n)
  {
    if n != 0 {
      hide Low;
      var next := ToBytes(v / 256, n - 1) + rest;
      WideLoad(v / 256, n - 1, rest);
      assert ToBytes(v, n) + rest == [v % 256] + next;
      LowOfSum(v % 256, FromBytes(next), n);
      LowOfSum(v % 256, v / 256, n);
    }
  }

  /** A word that fits n bytes is its own low part. */
  lemma {:induction false} LowIsWhole(bs: seq<byte>)
    ensures Low(FromBytes(bs), |bs|) == FromBytes(bs)
  {
    if bs != [] {
      LowIsWhole(bs[1..]);
    }
  }

  lemma {:induction false} LowNone(v: nat)
    ensures Low(v, 0) == 0
  {
  }

  lemma {:induction false} LowNext(v: nat, n: nat)
    requires n > 0
    ensures Low(v, n) == v % 256 + 256 * Low(v / 256, n - 1)
  {
  }

  lemma {:induction false} LowOfLow(v: nat, m: nat, n: nat)
    requires n <= m
    ensures Low(Low(v, m), n) == Low(v, n)
  {
    hide Low;
    if n == 0 {
      LowNone(v);
      LowNone(Low(v, m));
    } else {
      var b, rest := v % 256, v / 256;
      var lower := Low(rest, m - 1);
      LowOfLow(rest, m - 1, n - 1);
      LowNext(v, m);
      LowNext(v, n);
      LowOfSum(b, lower, n);
      assert Low(b + 256 * lower, n) == Low(v, n);
    }
  }

  /** Loading what was stored gives the stored part of the word. */
  lemma {:induction false} LoadIsLow(v: nat, n: nat)
    ensures FromBytes(ToBytes(v, n)) == Low(v, n)
  {
    if n != 0 {
      LoadIsLow(v / 256, n - 1);
      assert ToBytes(v, n)[1..] == ToBytes(v / 256, n - 1);
    }
  }

  lemma {:induction false} SlicePrefix(bs: seq<byte>, m: nat, i: nat, j: nat)
    requires i <= j <= m <= |bs|
    ensures bs[..m][i..j] == bs[i..j]
  {
    var left, right := bs[..m][i..j], bs[i..j];
    assert forall k :: 0 <= k < |left| ==> left[k] == right[k];
  }

  lemma {:induction false} Split(a: seq<byte>, b: seq<byte>)
    ensures (a + b)[..|a|] == a && (a + b)[|a|..] == b
  {
  }
}
