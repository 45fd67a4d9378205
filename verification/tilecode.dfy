/** Reference encoders for the tiles of RFC 6143 sections 7.7.5 (TRLE) and 7.7.6 (ZRLE), and what
    a decoder reading their bytes finds. */
module TileCode {
  import opened Bytes
  import opened Bits
  import opened Area

  /** A run of pixels of one colour, or of one palette index. */
  datatype Run = Run(value: nat, len: nat)

  function Expand(runs: seq<Run>): seq<nat> {
    if runs == [] then []
    else Expand(runs[..|runs| - 1]) + Filled(runs[|runs| - 1].value, runs[|runs| - 1].len)
  }

  ghost predicate ProperRuns(runs: seq<Run>) {
    forall i :: 0 <= i < |runs| ==> runs[i].len > 0
  }

  /** A run length minus one: 255 for every full 255, then the rest. */
  function LengthBytes(n: nat): (bs: seq<byte>)
    ensures |bs| > 0
  {
    if n < 255 then [n] else [255] + LengthBytes(n - 255)
  }

  /** A plain run: the colour's n bytes and the length. */
  function PlainRun(r: Run, n: nat): seq<byte>
    requires r.len > 0
  {
    ToBytes(r.value, n) + LengthBytes(r.len - 1)
  }

  function PlainRuns(runs: seq<Run>, n: nat): seq<byte>
    requires ProperRuns(runs)
  {
    if runs == [] then [] else PlainRun(runs[0], n) + PlainRuns(runs[1..], n)
  }

  /** A palette run: the index alone for one pixel, or index + 128 and the length. */
  function IndexRun(r: Run): seq<byte>
    requires r.len > 0 && r.value < 128
  {
    if r.len == 1 then [r.value] else [r.value + 128] + LengthBytes(r.len - 1)
  }

  ghost predicate IndexRunsFor(runs: seq<Run>, colours: nat) {
    forall i :: 0 <= i < |runs| ==> runs[i].len > 0 && runs[i].value < colours
  }

  function IndexRuns(runs: seq<Run>, colours: nat): seq<byte>
    requires colours <= 128 && IndexRunsFor(runs, colours)
  {
    if runs == [] then [] else IndexRun(runs[0]) + IndexRuns(runs[1..], colours)
  }

  function PixelBytes(pixels: seq<Pixel>, n: nat): (bs: seq<byte>)
    ensures |bs| == Rows(n, |pixels|)
  {
    if pixels == [] then [] else PixelBytes(pixels[..|pixels| - 1], n) + ToBytes(pixels[|pixels| - 1], n)
  }

  /** Bits a packed index takes, for a palette of the given size. */
  function IndexBits(colours: nat): (bpp: nat)
    ensures IsIndexBits(bpp)
  {
    if colours > 16 then 8 else if colours > 4 then 4 else if colours > 2 then 2 else 1
  }

  predicate IsIndexBits(bpp: nat) {
    bpp == 1 || bpp == 2 || bpp == 4 || bpp == 8
  }

  /** The divider: 8 / bpp indices in a byte. */
  function PerByte(bpp: nat): (d: nat)
    requires IsIndexBits(bpp)
    ensures d * bpp == 8 && d > 0
  {
    if bpp == 8 then 1 else if bpp == 4 then 2 else if bpp == 2 then 4 else 8
  }

  /** `bpp` bits of v from bit `shift` up. */
  function Field(v: nat, shift: nat, bpp: nat): nat {
    Shr(v, shift) % Pow2(bpp)
  }

  function Entry(idx: seq<nat>, i: nat): nat {
    if i < |idx| then idx[i] else 0
  }

  /** One byte of packed indices, the leftmost in the most significant bits; missing ones are 0. */
  function PackByte(idx: seq<nat>, bpp: nat): byte
    requires IsIndexBits(bpp)
    requires forall i :: 0 <= i < |idx| ==> idx[i] < Pow2(bpp)
  {
    PowersOfTwo();
    if bpp == 8 then Entry(idx, 0)
    else if bpp == 4 then Entry(idx, 0) * 16 + Entry(idx, 1)
    else if bpp == 2 then Entry(idx, 0) * 64 + Entry(idx, 1) * 16 + Entry(idx, 2) * 4 + Entry(idx, 3)
    else
      Entry(idx, 0) * 128 + Entry(idx, 1) * 64 + Entry(idx, 2) * 32 + Entry(idx, 3) * 16 +
      Entry(idx, 4) * 8 + Entry(idx, 5) * 4 + Entry(idx, 6) * 2 + Entry(idx, 7)
  }

  lemma {:induction false} PowersOfTwo()
    ensures Pow2(0) == 1 && Pow2(1) == 2 && Pow2(2) == 4 && Pow2(3) == 8 && Pow2(4) == 16
    ensures Pow2(5) == 32 && Pow2(6) == 64 && Pow2(7) == 128 && Pow2(8) == 256
  {
  }

  /** Every packed index is found again at its shift. */
  lemma {:induction false} FieldOfPackByte(idx: seq<nat>, bpp: nat, t: nat)
    requires IsIndexBits(bpp)
    requires forall i :: 0 <= i < |idx| ==> idx[i] < Pow2(bpp)
    requires t < PerByte(bpp) && t < |idx|
    ensures Rows(bpp, t) + bpp <= 8
    ensures Field(PackByte(idx, bpp), 8 - bpp - Rows(bpp, t), bpp) == idx[t]
  {
    hide Pow2, Rows, Field, PackByte;
    RowsIsProduct(bpp, t);
    if bpp == 8 {
      OneIndex(idx);
    } else if bpp == 4 {
      TwoIndices(idx, t);
    } else if bpp == 2 {
      FourIndices(idx, t);
    } else {
      EightIndices(idx, t);
    }
  }

  lemma {:induction false} OneIndex(idx: seq<nat>)
    requires |idx| > 0 && forall i :: 0 <= i < |idx| ==> idx[i] < Pow2(8)
    ensures Field(PackByte(idx, 8), 0, 8) == idx[0]
  {
    hide Pow2;
    PowersOfTwo();
  }

  lemma {:induction false} TwoIndices(idx: seq<nat>, t: nat)
    requires t < 2 && t < |idx| && forall i :: 0 <= i < |idx| ==> idx[i] < Pow2(4)
    ensures Field(PackByte(idx, 4), 4 - 4 * t, 4) == idx[t]
  {
    hide Pow2, PackByte, Field;
    PowersOfTwo();
    var a, b := Entry(idx, 0), Entry(idx, 1);
    var v: nat := PackByte(idx, 4);
    assert v == a * 16 + b by { PackedPair(idx); }
    if t == 0 {
      FieldIs(v, 4, 4, 16, 16, 0, a);
    } else {
      FieldIs(v, 0, 4, 1, 16, a, b);
    }
  }

  lemma {:induction false} PackedPair(idx: seq<nat>)
    requires forall i :: 0 <= i < |idx| ==> idx[i] < Pow2(4)
    ensures PackByte(idx, 4) == Entry(idx, 0) * 16 + Entry(idx, 1)
  {
    hide Pow2;
  }

  lemma {:induction false} FourIndices(idx: seq<nat>, t: nat)
    requires t < 4 && t < |idx| && forall i :: 0 <= i < |idx| ==> idx[i] < Pow2(2)
    ensures Field(PackByte(idx, 2), 6 - 2 * t, 2) == idx[t]
  {
    hide Pow2, PackByte, Field;
    PowersOfTwo();
    var a, b, c, d := Entry(idx, 0), Entry(idx, 1), Entry(idx, 2), Entry(idx, 3);
    var v: nat := PackByte(idx, 2);
    assert v == a * 64 + b * 16 + c * 4 + d by { PackedFours(idx); }
    QuadOfByte(a, b, c, d);
    if t == 0 {
      FieldIs(v, 6, 2, 64, 4, 0, a);
    } else if t == 1 {
      FieldIs(v, 4, 2, 16, 4, a, b);
    } else if t == 2 {
      FieldIs(v, 2, 2, 4, 4, 4 * a + b, c);
    } else {
      FieldIs(v, 0, 2, 1, 4, 16 * a + 4 * b + c, d);
    }
  }

  lemma {:induction false} PackedFours(idx: seq<nat>)
    requires forall i :: 0 <= i < |idx| ==> idx[i] < Pow2(2)
    ensures PackByte(idx, 2) == Entry(idx, 0) * 64 + Entry(idx, 1) * 16 + Entry(idx, 2) * 4 + Entry(idx, 3)
  {
    hide Pow2;
  }

  lemma {:induction false} PackedEights(idx: seq<nat>)
    requires forall i :: 0 <= i < |idx| ==> idx[i] < Pow2(1)
    ensures PackByte(idx, 1) ==
            Entry(idx, 0) * 128 + Entry(idx, 1) * 64 + Entry(idx, 2) * 32 + Entry(idx, 3) * 16 +
            Entry(idx, 4) * 8 + Entry(idx, 5) * 4 + Entry(idx, 6) * 2 + Entry(idx, 7)
  {
    hide Pow2;
  }

  lemma {:induction false} FieldIs(v: nat, shift: nat, bpp: nat, p: nat, m: nat, high: nat, low: nat)
    requires p == Pow2(shift) && m == Pow2(bpp) && (m == 2 || m == 4 || m == 16)
    requires v / p == m * high + low && low < m
    ensures Field(v, shift, bpp) == low
  {
    hide Pow2;
    DivModUnique(Shr(v, shift), m, high, low);
  }

  lemma {:induction false} EightIndices(idx: seq<nat>, t: nat)
    requires t < 8 && t < |idx| && forall i :: 0 <= i < |idx| ==> idx[i] < Pow2(1)
    ensures Field(PackByte(idx, 1), 7 - t, 1) == idx[t]
  {
    hide PackByte, Field, Pow2;
    PackedEights(idx);
    EntriesAreBits(idx);
    BitAt(PackByte(idx, 1), Entry(idx, 0), Entry(idx, 1), Entry(idx, 2), Entry(idx, 3),
          Entry(idx, 4), Entry(idx, 5), Entry(idx, 6), Entry(idx, 7), t);
  }

  lemma {:induction false} EntriesAreBits(idx: seq<nat>)
    requires forall i :: 0 <= i < |idx| ==> idx[i] < Pow2(1)
    ensures forall i: nat :: Entry(idx, i) < 2
  {
    hide Pow2;
    PowersOfTwo();
  }

  /** The bits of a byte, from the most significant. */
  lemma {:induction false} BitAt(v: nat, a: nat, b: nat, c: nat, d: nat, e: nat, f: nat, g: nat, h: nat, t: nat)
    requires a < 2 && b < 2 && c < 2 && d < 2 && e < 2 && f < 2 && g < 2 && h < 2 && t < 8
    requires v == a * 128 + b * 64 + c * 32 + d * 16 + e * 8 + f * 4 + g * 2 + h
    ensures Field(v, 7 - t, 1) == [a, b, c, d, e, f, g, h][t]
  {
    hide Pow2, Field;
    PowersOfTwo();
    BitOfByte(a, b, c, d, e, f, g, h);
    if t == 0 {
      FieldIs(v, 7, 1, 128, 2, 0, a);
    } else if t == 1 {
      FieldIs(v, 6, 1, 64, 2, a, b);
    } else if t == 2 {
      FieldIs(v, 5, 1, 32, 2, 2 * a + b, c);
    } else if t == 3 {
      FieldIs(v, 4, 1, 16, 2, 4 * a + 2 * b + c, d);
    } else if t == 4 {
      FieldIs(v, 3, 1, 8, 2, 8 * a + 4 * b + 2 * c + d, e);
    } else if t == 5 {
      FieldIs(v, 2, 1, 4, 2, 16 * a + 8 * b + 4 * c + 2 * d + e, f);
    } else if t == 6 {
      FieldIs(v, 1, 1, 2, 2, 32 * a + 16 * b + 8 * c + 4 * d + 2 * e + f, g);
    } else {
      FieldIs(v, 0, 1, 1, 2, 64 * a + 32 * b + 16 * c + 8 * d + 4 * e + 2 * f + g, h);
    }
  }

  lemma {:induction false} QuadOfByte(a: nat, b: nat, c: nat, d: nat)
    requires a < 4 && b < 4 && c < 4 && d < 4
    ensures var v := a * 64 + b * 16 + c * 4 + d;
            v / 64 == a && v / 16 == 4 * a + b && v / 4 == 16 * a + 4 * b + c
  {
  }

  lemma {:induction false} BitOfByte(a: nat, b: nat, c: nat, d: nat, e: nat, f: nat, g: nat, h: nat)
    requires a < 2 && b < 2 && c < 2 && d < 2 && e < 2 && f < 2 && g < 2 && h < 2
    ensures var v := a * 128 + b * 64 + c * 32 + d * 16 + e * 8 + f * 4 + g * 2 + h;
            && v / 128 == a && v / 64 == 2 * a + b && v / 32 == 4 * a + 2 * b + c
            && v / 16 == 8 * a + 4 * b + 2 * c + d && v / 8 == 16 * a + 8 * b + 4 * c + 2 * d + e
            && v / 4 == 32 * a + 16 * b + 8 * c + 4 * d + 2 * e + f
            && v / 2 == 64 * a + 32 * b + 16 * c + 8 * d + 4 * e + 2 * f + g
  {
  }

  ghost predicate SmallIndices(idx: seq<nat>, bpp: nat) {
    forall i :: 0 <= i < |idx| ==> idx[i] < Pow2(bpp)
  }

  /** A row of packed indices, padded to whole bytes. */
  function PackRow(idx: seq<nat>, bpp: nat): seq<byte>
    requires IsIndexBits(bpp) && SmallIndices(idx, bpp)
  {
    var d := PerByte(bpp);
    if idx == [] then []
    else if |idx| <= d then [PackByte(idx, bpp)]
    else [PackByte(idx[..d], bpp)] + PackRow(idx[d..], bpp)
  }

  /** Bytes in a packed row of w indices: (w + divider - 1) / divider. */
  function RowBytes(w: nat, bpp: nat): nat
    requires IsIndexBits(bpp)
  {
    if bpp == 8 then w else if bpp == 4 then (w + 1) / 2 else if bpp == 2 then (w + 3) / 4 else (w + 7) / 8
  }

  lemma {:induction false} PackRowLength(idx: seq<nat>, bpp: nat)
    requires IsIndexBits(bpp) && SmallIndices(idx, bpp)
    ensures |PackRow(idx, bpp)| == RowBytes(|idx|, bpp)
  {
    hide PackByte, Pow2;
    var d := PerByte(bpp);
    if |idx| > d {
      PackRowLength(idx[d..], bpp);
    }
  }

  /** Index i of a packed row is in byte i / (8 / bpp), at the shift that counts down in steps of bpp. */
  lemma {:induction false} PackRowAt(idx: seq<nat>, bpp: nat, i: nat)
    requires IsIndexBits(bpp) && SmallIndices(idx, bpp) && i < |idx|
    ensures var c := CursorAt(PerByte(bpp), i);
            && c.j < |PackRow(idx, bpp)| && Rows(bpp, c.i) + bpp <= 8
            && Field(PackRow(idx, bpp)[c.j], 8 - bpp - Rows(bpp, c.i), bpp) == idx[i]
  {
    hide PackByte, Pow2, CursorAt, Field;
    var d := PerByte(bpp);
    if i < d {
      FirstByte(d, i);
      if |idx| <= d {
        FieldOfPackByte(idx, bpp, i);
      } else {
        FieldOfPackByte(idx[..d], bpp, i);
      }
    } else {
      PackRowAt(idx[d..], bpp, i - d);
      var c := CursorAt(d, i - d);
      CursorOffset(d, i - d);
      CursorIs(d, i, c.i, c.j + 1);
    }
  }

  lemma {:induction false} FirstByte(d: nat, i: nat)
    requires i < d
    ensures CursorAt(d, i) == Cursor(i, 0)
  {
    CursorIs(d, i, i, 0);
  }

  function Flatten(rows: seq<seq<nat>>): seq<nat> {
    if rows == [] then [] else Flatten(rows[..|rows| - 1]) + rows[|rows| - 1]
  }

  ghost predicate RowsOf(rows: seq<seq<nat>>, w: nat, colours: nat) {
    forall j :: 0 <= j < |rows| ==> |rows[j]| == w && forall i :: 0 <= i < w ==> rows[j][i] < colours
  }

  function PackRows(rows: seq<seq<nat>>, w: nat, colours: nat): seq<byte>
    requires RowsOf(rows, w, colours) && colours <= 128
  {
    if rows == [] then []
    else
      IndicesFit(rows[0], colours);
      PackRow(rows[0], IndexBits(colours)) + PackRows(rows[1..], w, colours)
  }

  lemma {:induction false} IndicesFit(idx: seq<nat>, colours: nat)
    requires colours <= 128 && forall i :: 0 <= i < |idx| ==> idx[i] < colours
    ensures SmallIndices(idx, IndexBits(colours))
  {
    hide Pow2;
    PowersOfTwo();
  }

  function Look(palette: seq<Pixel>, idx: seq<nat>): (img: seq<Pixel>)
    ensures |img| == |idx|
  {
    seq(|idx|, k requires 0 <= k < |idx| => if idx[k] < |palette| then palette[idx[k]] else 0)
  }

  /** The ways to code a tile that ZRLE and TRLE share. */
  datatype Code =
    | Raw(pixels: seq<Pixel>)
    | Solid(colour: Pixel)
    | Packed(palette: seq<Pixel>, rows: seq<seq<nat>>)
    | Plain(runs: seq<Run>)
    | Indexed(palette: seq<Pixel>, runs: seq<Run>)

  /** Whether a code describes a w x h tile; a packed palette has at most `most` colours. */
  ghost predicate Codes(code: Code, w: nat, h: nat, most: nat) {
    match code
    case Raw(pixels) => |pixels| == Rows(w, h)
    case Solid(_) => true
    case Packed(palette, rows) => 2 <= |palette| <= most && |rows| == h && RowsOf(rows, w, |palette|)
    case Plain(runs) => ProperRuns(runs) && |Expand(runs)| == Rows(w, h)
    case Indexed(palette, runs) =>
      2 <= |palette| <= 127 && IndexRunsFor(runs, |palette|) && |Expand(runs)| == Rows(w, h)
  }

  /** The bytes of the code, with n-byte pixels. */
  function Encode(code: Code, n: nat, w: nat, h: nat): (bs: seq<byte>)
    requires Codes(code, w, h, 127)
    ensures |bs| > 0
  {
    match code
    case Raw(pixels) => [0] + PixelBytes(pixels, n)
    case Solid(colour) => [1] + ToBytes(colour, n)
    case Packed(palette, rows) => [|palette|] + (PixelBytes(palette, n) + PackRows(rows, w, |palette|))
    case Plain(runs) => [128] + PlainRuns(runs, n)
    case Indexed(palette, runs) => [128 + |palette|] + (PixelBytes(palette, n) + IndexRuns(runs, |palette|))
  }

  /** The w x h image the code stands for. */
  function Image(code: Code, w: nat, h: nat): seq<Pixel> {
    match code
    case Raw(pixels) => pixels
    case Solid(colour) => Filled(colour, Rows(w, h))
    case Packed(palette, rows) => Look(palette, Flatten(rows))
    case Plain(runs) => Expand(runs)
    case Indexed(palette, runs) => Look(palette, Expand(runs))
  }

  lemma {:induction false} FlattenLength(rows: seq<seq<nat>>, w: nat, colours: nat)
    requires RowsOf(rows, w, colours)
    ensures |Flatten(rows)| == Rows(w, |rows|)
  {
    if rows != [] {
      FlattenLength(rows[..|rows| - 1], w, colours);
    }
  }

  lemma {:induction false} ImageLength(code: Code, w: nat, h: nat, most: nat)
    requires Codes(code, w, h, most)
    ensures |Image(code, w, h)| == Rows(w, h)
  {
    if code.Packed? {
      FlattenLength(code.rows, w, |code.palette|);
    }
  }

  lemma {:induction false} ExpandPrefix(runs: seq<Run>, r: nat)
    requires r < |runs|
    ensures Expand(runs[..r + 1]) == Expand(runs[..r]) + Filled(runs[r].value, runs[r].len)
    ensures |Expand(runs[..r + 1])| <= |Expand(runs)|
    decreases |runs| - r
  {
    assert runs[..r + 1][..r] == runs[..r];
    if r + 1 < |runs| {
      ExpandPrefix(runs, r + 1);
    } else {
      assert runs[..r + 1] == runs;
    }
  }

  /** While pixels are missing there is another run. */
  lemma {:induction false} RunsRemain(runs: seq<Run>, r: nat)
    requires r <= |runs| && |Expand(runs[..r])| < |Expand(runs)|
    ensures r < |runs|
  {
    assert runs[..|runs|] == runs;
  }

  /** When no pixel is missing there is no further run. */
  lemma {:induction false} RunsDone(runs: seq<Run>, r: nat)
    requires r <= |runs| && |Expand(runs[..r])| == |Expand(runs)|
    requires forall i :: 0 <= i < |runs| ==> runs[i].len > 0
    ensures r == |runs|
  {
    if r < |runs| {
      ExpandPrefix(runs, r);
    }
  }

  lemma {:induction false} PlainRunsNext(runs: seq<Run>, r: nat, n: nat)
    requires ProperRuns(runs) && r < |runs|
    ensures ProperRuns(runs[r..]) && ProperRuns(runs[r + 1..])
    ensures PlainRuns(runs[r..], n) == PlainRun(runs[r], n) + PlainRuns(runs[r + 1..], n)
  {
    assert runs[r..][1..] == runs[r + 1..];
  }

  lemma {:induction false} LengthBytesFit(m: nat)
    ensures |LengthBytes(m)| <= m + 1 && (|LengthBytes(m)| == m + 1 <==> m == 0)
  {
    if m >= 255 {
      LengthBytesFit(m - 255);
    }
  }

  /** A run takes at most n + 1 bytes for each of its pixels, and less if it has several. */
  lemma {:induction false} PlainRunFits(r: Run, n: nat)
    requires r.len > 0
    ensures |PlainRun(r, n)| <= Rows(n + 1, r.len) && (|PlainRun(r, n)| == Rows(n + 1, r.len) <==> r.len == 1)
  {
    hide Rows;
    LengthBytesFit(r.len - 1);
    RowsSplit(n, 1, r.len);
    RowsIsProduct(1, r.len);
    RowsMonotonic(n, 1, r.len);
    RowsNext(n, 0);
    RowsZero(n);
  }

  /** Runs from the r-th on take at most n + 1 bytes for each pixel they still have to draw: just that
      many exactly if each of them is one pixel. */
  lemma {:induction false} PlainRunsFit(runs: seq<Run>, r: nat, n: nat)
    requires ProperRuns(runs) && r <= |runs|
    ensures ProperRuns(runs[r..])
    ensures |PlainRuns(runs[r..], n)| + Rows(n + 1, |Expand(runs[..r])|) <= Rows(n + 1, |Expand(runs)|)
    ensures |PlainRuns(runs[r..], n)| + Rows(n + 1, |Expand(runs[..r])|) == Rows(n + 1, |Expand(runs)|) <==>
            forall i :: r <= i < |runs| ==> runs[i].len == 1
    decreases |runs| - r
  {
    hide Rows, PlainRun, Expand;
    if r == |runs| {
      assert runs[..r] == runs;
    } else {
      PlainRunsNext(runs, r, n);
      ExpandPrefix(runs, r);
      PlainRunsFit(runs, r + 1, n);
      PlainRunFits(runs[r], n);
      RowsAdd(n + 1, |Expand(runs[..r])|, runs[r].len);
    }
  }

  lemma {:induction false} IndexRunsNext(runs: seq<Run>, r: nat, colours: nat)
    requires colours <= 128 && IndexRunsFor(runs, colours) && r < |runs|
    ensures IndexRunsFor(runs[r..], colours) && IndexRunsFor(runs[r + 1..], colours)
    ensures IndexRuns(runs[r..], colours) == IndexRun(runs[r]) + IndexRuns(runs[r + 1..], colours)
  {
    assert runs[r..][1..] == runs[r + 1..];
  }

  /** Drawing a word that agrees with the run's colour for the length of the run. */
  lemma {:induction false} MatchesRun(n: nat, drawn: seq<Pixel>, image: seq<Pixel>, word: Pixel, colour: Pixel,
                                      len: nat)
    requires Matches(n, drawn, image) && Low(word, n) == Low(colour, n)
    ensures Matches(n, drawn + Filled(word, len), image + Filled(colour, len))
  {
  }

  /** Stepping the shift down by bpp runs below 0 exactly at the last index of a byte. */
  lemma {:induction false} ShiftStep(bpp: nat, t: nat)
    requires IsIndexBits(bpp) && t < PerByte(bpp)
    ensures Rows(bpp, t) + bpp <= 8
    ensures 8 - bpp - Rows(bpp, t) - bpp < 0 <==> t + 1 >= PerByte(bpp)
  {
    RowsIsProduct(bpp, t);
  }

  /** The byte pointer after w indices, and the padding byte, make up the row. */
  lemma {:induction false} RowEnds(w: nat, bpp: nat)
    requires IsIndexBits(bpp)
    ensures var c := CursorAt(PerByte(bpp), w); c.j + (if c.i > 0 then 1 else 0) == RowBytes(w, bpp)
  {
    hide CursorAt, Rows;
    var d := PerByte(bpp);
    CursorOffset(d, w);
    RowsIsProduct(d, CursorAt(d, w).j);
  }

  lemma {:induction false} PackRowsNext(rows: seq<seq<nat>>, j: nat, w: nat, colours: nat)
    requires colours <= 128 && RowsOf(rows, w, colours) && j < |rows|
    ensures SmallIndices(rows[j], IndexBits(colours))
    ensures RowsOf(rows[j..], w, colours) && RowsOf(rows[j + 1..], w, colours)
    ensures PackRows(rows[j..], w, colours) ==
            PackRow(rows[j], IndexBits(colours)) + PackRows(rows[j + 1..], w, colours)
    ensures |PackRow(rows[j], IndexBits(colours))| == RowBytes(w, IndexBits(colours))
    ensures Flatten(rows[..j + 1]) == Flatten(rows[..j]) + rows[j]
  {
    hide PackRow, RowBytes, IndexBits, SmallIndices;
    assert rows[j..][1..] == rows[j + 1..];
    assert rows[..j + 1][..j] == rows[..j];
    IndicesFit(rows[j], colours);
    PackRowLength(rows[j], IndexBits(colours));
  }
}
