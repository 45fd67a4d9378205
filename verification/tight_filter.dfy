/** The filters of Tight rectangles, as functions from the decompressed bytes of whole rows to
    pixels, and the filters' inverses as include/rfbproto.h specifies them. */
module TightFilter {
  import opened Bytes
  import opened Bits
  import opened Area
  import opened VncViewer
  import opened TightFormat

  /** Copy24 and Gradient24 are what the copy and gradient filters do when cutZeros is set. */
  datatype Filter =
    | Copy
    | Copy24
    | TwoColours(palette: seq<Pixel>)
    | Colours(palette: seq<Pixel>)
    | Gradient
    | Gradient24
  {
    predicate Valid(f: Format) {
      && f.Valid()
      && (Copy24? || Gradient24? ==> f.CutZeros())
      && (Copy? || Gradient? ==> !f.CutZeros())
      && (TwoColours? ==> |palette| == 2)
      && (Colours? ==> |palette| == 256)
    }

    /** tightPrevRow holds the predictions for a row. */
    predicate Predictable(f: Format, w: nat) {
      Predicts() ==> 3 * w <= PrevLength(f)
    }

    /** thisRow does not hold a row. */
    predicate Spills(w: nat) {
      Predicts() && w > 2048
    }

    /** The gradient filters decode a first pixel in every row, even in rows of none. */
    predicate Strays(w: nat) {
      Predicts() && w == 0
    }

    predicate Predicts() {
      Gradient? || Gradient24?
    }

    /** The gradient filters keep the components of the row above. */
    predicate Remembers(prev: seq<nat>, w: nat) {
      if Predicts() then |prev| == 3 * w else prev == []
    }

    /** What the filter's Init function returns. */
    function BitsPixel(f: Format): nat {
      match this
      case Copy => f.bpp
      case Gradient => f.bpp
      case Copy24 => 24
      case Gradient24 => 24
      case TwoColours(_) => 1
      case Colours(_) => 8
    }

    /** Bytes in a row of w pixels. */
    function RowSize(f: Format, w: nat): nat {
      match this
      case Copy => Rows(f.bpp / 8, w)
      case Gradient => Rows(f.bpp / 8, w)
      case Copy24 => 3 * w
      case Gradient24 => 3 * w
      case TwoColours(_) => (w + 7) / 8
      case Colours(_) => w
    }
  }

  /** tightPrevRow has 12288 bytes. The components of the row above are bytes if cutZeros is set, else
      they take two bytes each. */
  function PrevLength(f: Format): nat {
    if f.CutZeros() then 3 * 4096 else 3 * 2048
  }

  /** rowSize is the row's bits rounded up to bytes. */
  lemma {:induction false} RowSizeIs(filter: Filter, f: Format, w: nat)
    requires f.Valid()
    ensures (w * filter.BitsPixel(f) + 7) / 8 == filter.RowSize(f, w)
  {
    hide Rows, Pow2;
    if filter.Copy? || filter.Gradient? {
      var n := f.bpp / 8;
      RowsIsProduct(n, w);
      WholeBytes(n, w);
    }
  }

  lemma {:induction false} WholeBytes(n: nat, w: nat)
    ensures (w * (8 * n) + 7) / 8 == n * w
  {
    assert w * (8 * n) == 8 * (n * w);
  }

  /** The least and greatest value a prediction may take are 0 and the component's maximum. */
  function Clamp(v: int, max: nat): nat {
    if v > max then max else if v < 0 then 0 else v
  }

  /** The predicted value of component t % 3 of pixel t / 3, from the row above and the components
      to the left: above + left - above left. The first pixel has nothing to its left. */
  function Estimate(prev: seq<nat>, left: seq<nat>, t: nat, max: nat): nat
    requires t < |prev| && t <= |left| + 2
  {
    if t < 3 then prev[t] else Clamp((prev[t] as int) + left[t - 3] - prev[t - 3], max)
  }

  /** One more than a component's maximum. */
  function Range(filter: Filter, f: Format, t: nat): (r: nat)
    ensures r > 0
  {
    if filter.Gradient24? then 256 else Pow2(f.Part(t % 3).bits)
  }

  /** The first n components of a row, from the differences d. */
  function Undo(filter: Filter, f: Format, prev: seq<nat>, d: seq<nat>, n: nat): (r: seq<nat>)
    requires n <= |prev| && n <= |d|
    ensures |r| == n
  {
    if n == 0 then []
    else
      var left, m := Undo(filter, f, prev, d, n - 1), Range(filter, f, n - 1);
      left + [(d[n - 1] + Estimate(prev, left, n - 1, m - 1)) % m]
  }

  /** The difference the row's bytes hold for component t: a byte, or the field of a word. */
  function Difference(filter: Filter, f: Format, row: seq<byte>, w: nat, t: nat): nat
    requires |row| == filter.RowSize(f, w) && filter.Predicts() && t < 3 * w
  {
    if filter.Gradient24? then row[t] else Shr(RawPixels(row, f.bpp / 8, w)[t / 3], f.Part(t % 3).shift)
  }

  function Differences(filter: Filter, f: Format, row: seq<byte>, w: nat): (d: seq<nat>)
    requires |row| == filter.RowSize(f, w) && filter.Predicts()
    ensures |d| == 3 * w
  {
    seq(3 * w, t requires 0 <= t < 3 * w => Difference(filter, f, row, w, t))
  }

  /** What a row leaves in tightPrevRow: the gradient filters' components, else what was there. */
  function NextPrev(filter: Filter, f: Format, prev: seq<nat>, row: seq<byte>, w: nat): (r: seq<nat>)
    requires |row| == filter.RowSize(f, w) && filter.Remembers(prev, w)
    ensures filter.Remembers(r, w)
  {
    if filter.Predicts() then Undo(filter, f, prev, Differences(filter, f, row, w), 3 * w) else prev
  }

  /** Component c of pixel x: the prediction is the component above it, for the first pixel, and else
      above + left - above left, or the nearest value from 0 to the component's maximum. The value is
      the prediction plus the difference, in the component's width. */
  lemma {:induction false} GradientMeaning(filter: Filter, f: Format, prev: seq<nat>, row: seq<byte>, w: nat,
                                           x: nat, c: nat) returns (max: nat, p: nat)
    requires filter.Predicts() && |row| == filter.RowSize(f, w) && filter.Remembers(prev, w) && x < w && c < 3
    ensures max + 1 == if filter.Gradient24? then 256 else
                         Pow2(if c == 0 then f.red.bits else if c == 1 then f.green.bits else f.blue.bits)
    ensures var t, now := 3 * x + c, NextPrev(filter, f, prev, row, w);
            && now[t] == (p + Difference(filter, f, row, w, t)) % (max + 1)
            && (x == 0 ==> p == prev[t])
            && (x > 0 ==> Nearest((prev[t] as int) + now[t - 3] - prev[t - 3], 0, max, p))
  {
    hide Undo, Difference, Pow2, Rows;
    var t, d := 3 * x + c, Differences(filter, f, row, w);
    assert t % 3 == c;
    max := Range(filter, f, t) - 1;
    p := Estimate(prev, Undo(filter, f, prev, d, t), t, max);
    UndoAt(filter, f, prev, d, 3 * w, t);
    if x > 0 {
      UndoAt(filter, f, prev, d, 3 * w, t - 3);
      UndoAt(filter, f, prev, d, t, t - 3);
    }
  }

  /** p is the number from lo to hi that is nearest v. */
  predicate Nearest(v: int, lo: int, hi: int, p: int) {
    lo <= p <= hi && (p < v ==> p == hi) && (v < p ==> p == lo)
  }

  lemma {:induction false} UndoAt(filter: Filter, f: Format, prev: seq<nat>, d: seq<nat>, n: nat, t: nat)
    requires t < n <= |prev| && n <= |d|
    ensures Undo(filter, f, prev, d, n)[t] ==
            (d[t] + Estimate(prev, Undo(filter, f, prev, d, t), t, Range(filter, f, t) - 1)) % Range(filter, f, t)
  {
    hide Estimate, Range;
    if t < n - 1 {
      UndoAt(filter, f, prev, d, n - 1, t);
    }
  }

  /** The difference of component c of pixel x: the byte there, or the bits of the row's x-th word from
      the shift of red, green or blue on. */
  lemma {:induction false} DifferenceMeaning(filter: Filter, f: Format, row: seq<byte>, w: nat, x: nat, c: nat)
    requires filter.Predicts() && |row| == filter.RowSize(f, w) && x < w && c < 3
    ensures filter.Gradient24? ==> Difference(filter, f, row, w, 3 * x + c) == row[3 * x + c]
    ensures var n, shift := f.bpp / 8, if c == 0 then f.red.shift else if c == 1 then f.green.shift else f.blue.shift;
            filter.Gradient? ==>
              && Rows(n, x) + n <= |row|
              && Difference(filter, f, row, w, 3 * x + c) == FromBytes(row[Rows(n, x)..Rows(n, x) + n]) / Pow2(shift)
  {
    hide Rows, Pow2, FromBytes, RawPixels;
    assert (3 * x + c) / 3 == x && (3 * x + c) % 3 == c;
    if filter.Gradient? {
      RawPixelsAt(row, f.bpp / 8, w, x);
    }
  }

  /** Pixels of red, green and blue components. */
  function RgbPixels(f: Format, parts: seq<nat>, w: nat): (img: seq<Pixel>)
    requires |parts| == 3 * w
    ensures |img| == w
  {
    seq(w, x requires 0 <= x < w => Pack(f, parts[3 * x], parts[3 * x + 1], parts[3 * x + 2]))
  }

  /** Each pixel has its three components in turn, red, green and blue, at their shifts. */
  lemma {:induction false} RgbMeaning(f: Format, parts: seq<nat>, w: nat, x: nat)
    requires f.Valid() && |parts| == 3 * w && x < w
    ensures var p := RgbPixels(f, parts, w)[x];
            && p / Pow2(f.red.shift) % Pow2(f.red.bits) == parts[3 * x] % Pow2(f.red.bits)
            && p / Pow2(f.green.shift) % Pow2(f.green.bits) == parts[3 * x + 1] % Pow2(f.green.bits)
            && p / Pow2(f.blue.shift) % Pow2(f.blue.bits) == parts[3 * x + 2] % Pow2(f.blue.bits)
  {
    hide Pow2, Pack;
    Unpack(f, parts[3 * x], parts[3 * x + 1], parts[3 * x + 2], 0);
    Unpack(f, parts[3 * x], parts[3 * x + 1], parts[3 * x + 2], 1);
    Unpack(f, parts[3 * x], parts[3 * x + 1], parts[3 * x + 2], 2);
  }

  /** Bit x of a row, counted from the most significant bit of its first byte. */
  function RowBit(row: seq<byte>, x: nat): (b: nat)
    requires x / 8 < |row|
    ensures b < 2
  {
    row[x / 8] / Pow2(7 - x % 8) % 2
  }

  function BitImage(palette: seq<Pixel>, row: seq<byte>, w: nat): (img: seq<Pixel>)
    requires |palette| == 2 && |row| == (w + 7) / 8
    ensures |img| == w
  {
    seq(w, x requires 0 <= x < w => palette[RowBit(row, x)])
  }

  function ByteImage(palette: seq<Pixel>, row: seq<byte>): (img: seq<Pixel>)
    requires |palette| == 256
    ensures |img| == |row|
  {
    seq(|row|, x requires 0 <= x < |row| => palette[row[x]])
  }

  /** The pixels of one row. */
  function RowPixels(filter: Filter, f: Format, prev: seq<nat>, row: seq<byte>, w: nat): (img: seq<Pixel>)
    requires filter.Valid(f) && |row| == filter.RowSize(f, w) && filter.Remembers(prev, w)
    ensures |img| == w
  {
    match filter
    case Copy => RawPixels(row, f.bpp / 8, w)
    case Copy24 => RgbPixels(f, row, w)
    case TwoColours(palette) => BitImage(palette, row, w)
    case Colours(palette) => ByteImage(palette, row)
    case Gradient => RgbPixels(f, NextPrev(filter, f, prev, row, w), w)
    case Gradient24 => RgbPixels(f, NextPrev(filter, f, prev, row, w), w)
  }

  /** Row k of the data. */
  function RowAt(data: seq<byte>, size: nat, k: nat): (row: seq<byte>)
    requires Rows(size, k + 1) <= |data|
    ensures |row| == size
  {
    data[Rows(size, k)..Rows(size, k) + size]
  }

  /** tightPrevRow after the first k rows. */
  function After(filter: Filter, f: Format, prev: seq<nat>, data: seq<byte>, w: nat, k: nat): (r: seq<nat>)
    requires filter.Remembers(prev, w) && Rows(filter.RowSize(f, w), k) <= |data|
    ensures filter.Remembers(r, w)
  {
    if k == 0 then prev
    else NextPrev(filter, f, After(filter, f, prev, data, w, k - 1), RowAt(data, filter.RowSize(f, w), k - 1), w)
  }

  /** The pixels of the first k rows: what one call of the filter for all of them draws. */
  function Filtered(filter: Filter, f: Format, prev: seq<nat>, data: seq<byte>, w: nat, k: nat): (img: seq<Pixel>)
    requires filter.Valid(f) && filter.Remembers(prev, w) && Rows(filter.RowSize(f, w), k) <= |data|
    ensures |img| == Rows(w, k)
  {
    if k == 0 then []
    else
      Filtered(filter, f, prev, data, w, k - 1) +
      RowPixels(filter, f, After(filter, f, prev, data, w, k - 1), RowAt(data, filter.RowSize(f, w), k - 1), w)
  }

  /** Rows do not depend on the data after them. */
  lemma {:induction false} FilteredPrefix(filter: Filter, f: Format, prev: seq<nat>, data: seq<byte>, more: seq<byte>,
                                          w: nat, k: nat)
    requires filter.Valid(f) && filter.Remembers(prev, w) && Rows(filter.RowSize(f, w), k) <= |data|
    ensures Filtered(filter, f, prev, data + more, w, k) == Filtered(filter, f, prev, data, w, k)
    ensures After(filter, f, prev, data + more, w, k) == After(filter, f, prev, data, w, k)
  {
    hide Rows, NextPrev, RowPixels;
    if k > 0 {
      var size := filter.RowSize(f, w);
      RowsNext(size, k - 1);
      FilteredPrefix(filter, f, prev, data, more, w, k - 1);
      assert RowAt(data + more, size, k - 1) == RowAt(data, size, k - 1);
    }
  }

  lemma {:induction false} FilteredNext(filter: Filter, f: Format, prev: seq<nat>, data: seq<byte>, w: nat, k: nat)
    requires filter.Valid(f) && filter.Remembers(prev, w) && Rows(filter.RowSize(f, w), k + 1) <= |data|
    ensures var size, mid := filter.RowSize(f, w), After(filter, f, prev, data, w, k);
            && Rows(size, k) + size == Rows(size, k + 1) <= |data|
            && Filtered(filter, f, prev, data, w, k + 1) ==
               Filtered(filter, f, prev, data, w, k) + RowPixels(filter, f, mid, RowAt(data, size, k), w)
            && After(filter, f, prev, data, w, k + 1) == NextPrev(filter, f, mid, RowAt(data, size, k), w)
  {
    hide NextPrev, RowPixels;
  }

  lemma {:induction false} FilteredNone(filter: Filter, f: Format, prev: seq<nat>, data: seq<byte>, w: nat)
    requires filter.Valid(f) && filter.Remembers(prev, w)
    ensures Rows(filter.RowSize(f, w), 0) == 0
    ensures Filtered(filter, f, prev, data, w, 0) == [] && After(filter, f, prev, data, w, 0) == prev
  {
  }

  lemma {:induction false} LaterRow(data: seq<byte>, size: nat, m: nat, k: nat)
    requires Rows(size, m + k + 1) <= |data|
    ensures Rows(size, m) <= |data| && Rows(size, k + 1) <= |data[Rows(size, m)..]|
    ensures RowAt(data[Rows(size, m)..], size, k) == RowAt(data, size, m + k)
  {
    hide Rows;
    RowsAdd(size, m, k);
    RowsAdd(size, m, k + 1);
    RowsNext(size, k);
    assert m + (k + 1) == m + k + 1;
  }

  lemma {:induction false} AfterSplit(filter: Filter, f: Format, prev: seq<nat>, data: seq<byte>, w: nat, m: nat,
                                      k: nat)
    requires filter.Valid(f) && filter.Remembers(prev, w) && Rows(filter.RowSize(f, w), m + k) <= |data|
    ensures var size := filter.RowSize(f, w);
            && Rows(size, m) <= |data| && Rows(size, k) <= |data[Rows(size, m)..]|
            && var mid := After(filter, f, prev, data, w, m);
               After(filter, f, prev, data, w, m + k) == After(filter, f, mid, data[Rows(size, m)..], w, k)
  {
    hide Rows, NextPrev, RowPixels, After, Filtered, RowAt;
    var size := filter.RowSize(f, w);
    RowsAdd(size, m, k);
    var mid, tail := After(filter, f, prev, data, w, m), data[Rows(size, m)..];
    if k == 0 {
      FilteredNone(filter, f, mid, tail, w);
    } else {
      LaterRow(data, size, m, k - 1);
      RowsNext(size, m + (k - 1));
      AfterSplit(filter, f, prev, data, w, m, k - 1);
      FilteredNext(filter, f, mid, tail, w, k - 1);
      FilteredNext(filter, f, prev, data, w, m + (k - 1));
    }
  }

  /** However the rows are split between two calls, the second picking up where the first left
      off, the same pixels come out as from one call. */
  lemma {:induction false} FilteredSplit(filter: Filter, f: Format, prev: seq<nat>, data: seq<byte>, w: nat, m: nat,
                                         k: nat)
    requires filter.Valid(f) && filter.Remembers(prev, w) && Rows(filter.RowSize(f, w), m + k) <= |data|
    ensures var size := filter.RowSize(f, w);
            && Rows(size, m) <= |data| && Rows(size, k) <= |data[Rows(size, m)..]|
            && var mid := After(filter, f, prev, data, w, m);
               Filtered(filter, f, prev, data, w, m + k) ==
               Filtered(filter, f, prev, data, w, m) + Filtered(filter, f, mid, data[Rows(size, m)..], w, k)
  {
    hide Rows, NextPrev, RowPixels, After, Filtered, RowAt;
    var size := filter.RowSize(f, w);
    RowsAdd(size, m, k);
    var mid, tail := After(filter, f, prev, data, w, m), data[Rows(size, m)..];
    if k == 0 {
      FilteredNone(filter, f, mid, tail, w);
    } else {
      LaterRow(data, size, m, k - 1);
      RowsNext(size, m + (k - 1));
      AfterSplit(filter, f, prev, data, w, m, k - 1);
      FilteredSplit(filter, f, prev, data, w, m, k - 1);
      FilteredNext(filter, f, mid, tail, w, k - 1);
      FilteredNext(filter, f, prev, data, w, m + (k - 1));
    }
  }

  /** What a gradient filter makes of the first component values in a row without pixels: `prev` is
      whatever tightPrevRow begins with, `head` whatever the buffer begins with. */
  function StrayPart(filter: Filter, f: Format, prev: seq<nat>, head: seq<byte>, c: nat): nat
    requires filter.Predicts() && f.Valid() && |prev| == 3 && |head| == 4 && c < 3
  {
    var d := if filter.Gradient24? then head[c] else Shr(FromBytes(head[..f.bpp / 8]), f.Part(c).shift);
    (prev[c] + d) % Range(filter, f, c)
  }

  function StrayPixel(filter: Filter, f: Format, prev: seq<nat>, head: seq<byte>): Pixel
    requires filter.Predicts() && f.Valid() && |prev| == 3 && |head| == 4
  {
    Pack(f, StrayPart(filter, f, prev, head, 0), StrayPart(filter, f, prev, head, 1),
         StrayPart(filter, f, prev, head, 2))
  }

  /** The column it is put in: at the rectangle's corner, or where the row after it begins. */
  function StrayArea(stride: nat, x: nat, y: nat): Area {
    if x < stride then Area(stride, x, y, 1) else Area(stride, 0, y + 1, 1)
  }

  lemma {:induction false} ColumnOffset(a: Area, k: nat)
    requires a.w == 1
    ensures PixelOffset(a, k) == Rows(a.stride, a.y + k) + a.x
  {
    hide Rows, CursorAt;
    RowsIsProduct(1, k);
    CursorIs(1, k, 0, k);
  }

  /** The first n places of the area lie inside the framebuffer. */
  ghost predicate Inside(fb: seq<Pixel>, a: Area, n: nat) {
    a.w > 0 && forall k: nat :: k < n ==> PixelOffset(a, k) < |fb|
  }

  /** They all hold the pixel. */
  ghost predicate Holding(fb: seq<Pixel>, a: Area, n: nat, c: Pixel) {
    a.w > 0 && forall k: nat :: k < n ==> PixelOffset(a, k) < |fb| && fb[PixelOffset(a, k)] == c
  }

  /** A stray column leaves the framebuffer as it was exactly if it already holds the pixel. */
  lemma {:induction false} StrayChanges(fb: seq<Pixel>, a: Area, n: nat, c: Pixel)
    requires a.w == 1 && a.x < a.stride && Inside(fb, a, n)
    ensures Blit(fb, a, Filled(c, n)) == fb <==> Holding(fb, a, n, c)
  {
    hide Rows, Blit, CursorAt, PixelOffset;
    var img := Filled(c, n);
    forall k: nat | k < n
      ensures Blit(fb, a, img)[PixelOffset(a, k)] == c
    {
      ColumnOffset(a, k);
      BlitAt(fb, a, img, a.x, a.y + k);
      RowsIsProduct(1, k);
    }
    if Holding(fb, a, n, c) {
      StrayKeeps(fb, a, n, c);
    }
  }

  lemma {:induction false} StrayKeeps(fb: seq<Pixel>, a: Area, n: nat, c: Pixel)
    requires a.w == 1 && Holding(fb, a, n, c)
    ensures Blit(fb, a, Filled(c, n)) == fb
  {
    hide Rows, CursorAt, PixelOffset;
    if n > 0 {
      StrayKeeps(fb, a, n - 1, c);
      assert Filled(c, n)[..n - 1] == Filled(c, n - 1);
      assert fb[PixelOffset(a, n - 1)] == c;
    }
  }
}
