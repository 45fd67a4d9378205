/** The sending side of the Tight filters, after include/rfbproto.h, and that the decoder's
    filters undo it. */
module TightEncode {
  import opened Bytes
  import opened Bits
  import opened Area
  import opened VncViewer
  import opened TightFormat
  import opened TightFilter
  import opened TileCode
  import opened TileDecode

  /** A row to be sent: pixels, palette indices, or red, green and blue components in turn. */
  ghost predicate ValidRow(filter: Filter, f: Format, row: seq<nat>, w: nat) {
    match filter
    case Copy => |row| == w && forall x :: 0 <= x < w ==> Low(row[x], f.bpp / 8) == row[x]
    case Copy24 => |row| == 3 * w && forall t :: 0 <= t < 3 * w ==> row[t] < 256
    case TwoColours(_) => |row| == w && forall x :: 0 <= x < w ==> row[x] < 2
    case Colours(_) => |row| == w && forall x :: 0 <= x < w ==> row[x] < 256
    case Gradient => |row| == 3 * w && forall t :: 0 <= t < 3 * w ==> row[t] < Range(filter, f, t)
    case Gradient24 => |row| == 3 * w && forall t :: 0 <= t < 3 * w ==> row[t] < Range(filter, f, t)
  }

  /** What the receiver is to show. */
  function ShownRow(filter: Filter, f: Format, row: seq<nat>, w: nat): (img: seq<Pixel>)
    requires filter.Valid(f) && ValidRow(filter, f, row, w)
    ensures |img| == w
  {
    match filter
    case Copy => row
    case TwoColours(palette) => seq(w, x requires 0 <= x < w => palette[row[x]])
    case Colours(palette) => seq(w, x requires 0 <= x < w => palette[row[x]])
    case _ => RgbPixels(f, row, w)
  }

  /** V - P, in the component's width. */
  function Sent(filter: Filter, f: Format, prev: seq<nat>, row: seq<nat>, t: nat): nat
    requires t < |row| && t < |prev|
  {
    var m := Range(filter, f, t);
    ((row[t] as int) - Estimate(prev, row[..t], t, m - 1)) % m
  }

  function SentWords(filter: Filter, f: Format, prev: seq<nat>, row: seq<nat>, w: nat): (words: seq<Pixel>)
    requires filter.Predicts() && |row| == 3 * w && filter.Remembers(prev, w)
    ensures |words| == w
  {
    seq(w, x requires 0 <= x < w =>
      Pack(f, Sent(filter, f, prev, row, 3 * x), Sent(filter, f, prev, row, 3 * x + 1),
           Sent(filter, f, prev, row, 3 * x + 2)))
  }

  function EncodeRow(filter: Filter, f: Format, prev: seq<nat>, row: seq<nat>, w: nat): seq<byte>
    requires filter.Valid(f) && ValidRow(filter, f, row, w) && filter.Remembers(prev, w)
  {
    match filter
    case Copy => PixelBytes(row, f.bpp / 8)
    case Copy24 => seq(3 * w, t requires 0 <= t < 3 * w => row[t])
    case TwoColours(_) => BitsFit(row); PackRow(row, 1)
    case Colours(_) => seq(w, x requires 0 <= x < w => row[x])
    case Gradient => PixelBytes(SentWords(filter, f, prev, row, w), f.bpp / 8)
    case Gradient24 =>
      seq(3 * w, t requires 0 <= t < 3 * w => Sent(filter, f, prev, row, t))
  }

  lemma {:induction false} BitsFit(row: seq<nat>)
    requires forall x :: 0 <= x < |row| ==> row[x] < 2
    ensures SmallIndices(row, 1)
  {
    PowersOfTwo();
  }

  lemma {:induction false} EncodedSize(filter: Filter, f: Format, prev: seq<nat>, row: seq<nat>, w: nat)
    requires filter.Valid(f) && ValidRow(filter, f, row, w) && filter.Remembers(prev, w)
    ensures |EncodeRow(filter, f, prev, row, w)| == filter.RowSize(f, w)
  {
    hide PixelBytes, Rows, Pow2, Low, Range, Sent, SentWords, PackRow;
    if filter.TwoColours? {
      BitsFit(row);
      PackRowLength(row, 1);
    }
  }

  /** The k-th pixel of a bitmap of stored pixels. */
  lemma {:induction false} StoredPixel(pixels: seq<Pixel>, n: nat, k: nat)
    requires k < |pixels|
    ensures RawPixels(PixelBytes(pixels, n), n, |pixels|)[k] == Low(pixels[k], n)
  {
    hide Rows, ToBytes, RawPixels, FromBytes, Low;
    RawPixelsAt(PixelBytes(pixels, n), n, |pixels|, k);
    PixelBytesAt(pixels, n, k);
    LoadIsLow(pixels[k], n);
  }

  lemma {:induction false} WholeMultiple(k: int, m: nat, v: nat)
    requires v < m && k * m + v >= 0
    ensures k >= 0
  {
    assert (-k) * m == -(k * m);
    if k < 0 {
      LastPlace(0, -k, m);
    }
  }

  /** Adding the prediction to the difference sent gives the value back. */
  lemma {:induction false} PredictionUndone(d: nat, v: nat, p: nat, m: nat)
    requires v < m && d % m == ((v as int) - p) % m
    ensures (d + p) % m == v
  {
    var u: int := v - p;
    var a, b := d / m, u / m;
    assert d == a * m + d % m;
    assert u == b * m + u % m;
    assert d + p == (a - b) * m + v by { assert a * m - b * m == (a - b) * m; }
    WholeMultiple(a - b, m, v);
    assert (a - b) * m == m * (a - b);
    DivModUnique(d + p, m, a - b, v);
  }

  /** Differences that are those sent, up to the component's width, give the row back. */
  lemma {:induction false} Undone(filter: Filter, f: Format, prev: seq<nat>, d: seq<nat>, row: seq<nat>, n: nat)
    requires n <= |row| == |prev| == |d|
    requires forall t :: 0 <= t < n ==> row[t] < Range(filter, f, t)
    requires forall t :: 0 <= t < n ==> d[t] % Range(filter, f, t) == Sent(filter, f, prev, row, t)
    ensures Undo(filter, f, prev, d, n) == row[..n]
  {
    hide Range, Estimate;
    if n > 0 {
      Undone(filter, f, prev, d, row, n - 1);
      var m := Range(filter, f, n - 1);
      var p := Estimate(prev, row[..n - 1], n - 1, m - 1);
      assert Sent(filter, f, prev, row, n - 1) == ((row[n - 1] as int) - p) % m;
      PredictionUndone(d[n - 1], row[n - 1], p, m);
    }
  }

  /** The differences the decoder reads are those sent. */
  lemma {:induction false} DifferenceRead(filter: Filter, f: Format, prev: seq<nat>, row: seq<nat>, w: nat, t: nat)
    requires filter.Valid(f) && filter.Predicts()
    requires ValidRow(filter, f, row, w) && filter.Remembers(prev, w) && t < 3 * w
    ensures |EncodeRow(filter, f, prev, row, w)| == filter.RowSize(f, w)
    ensures Difference(filter, f, EncodeRow(filter, f, prev, row, w), w, t) % Range(filter, f, t) ==
            Sent(filter, f, prev, row, t)
  {
    hide PixelBytes, Rows, Pow2, Low, RawPixels, Pack, Estimate, Shr;
    EncodedSize(filter, f, prev, row, w);
    if filter.Gradient? {
      var n, x, c := f.bpp / 8, t / 3, t % 3;
      var words := SentWords(filter, f, prev, row, w);
      StoredPixel(words, n, x);
      var d0, d1 := Sent(filter, f, prev, row, 3 * x), Sent(filter, f, prev, row, 3 * x + 1);
      var d2 := Sent(filter, f, prev, row, 3 * x + 2);
      PackFits(f, d0, d1, d2, n);
      Unpack(f, d0, d1, d2, c);
      assert t == 3 * x + c;
      assert Value(d0, d1, d2, c) == Sent(filter, f, prev, row, t);
      SmallSent(filter, f, prev, row, t);
    }
  }

  lemma {:induction false} SmallSent(filter: Filter, f: Format, prev: seq<nat>, row: seq<nat>, t: nat)
    requires t < |row| && t < |prev|
    ensures Sent(filter, f, prev, row, t) % Range(filter, f, t) == Sent(filter, f, prev, row, t)
  {
    hide Range, Estimate;
  }

  /** The gradient filters keep the row just decoded; the others keep what was there. */
  function RowState(filter: Filter, prev: seq<nat>, row: seq<nat>): seq<nat> {
    if filter.Predicts() then row else prev
  }

  lemma {:induction false} GradientUndone(filter: Filter, f: Format, prev: seq<nat>, row: seq<nat>, w: nat)
    requires filter.Valid(f) && filter.Predicts()
    requires ValidRow(filter, f, row, w) && filter.Remembers(prev, w)
    ensures |EncodeRow(filter, f, prev, row, w)| == filter.RowSize(f, w)
    ensures NextPrev(filter, f, prev, EncodeRow(filter, f, prev, row, w), w) == row
  {
    hide Range, Sent, EncodeRow, Difference;
    EncodedSize(filter, f, prev, row, w);
    var d := Differences(filter, f, EncodeRow(filter, f, prev, row, w), w);
    forall t | 0 <= t < 3 * w
      ensures d[t] % Range(filter, f, t) == Sent(filter, f, prev, row, t)
    {
      DifferenceRead(filter, f, prev, row, w, t);
    }
    Undone(filter, f, prev, d, row, 3 * w);
    assert row[..3 * w] == row;
  }

  /** 1-bit rows: pixel x is bit 7 - x % 8 of byte x / 8. */
  lemma {:induction false} BitRead(row: seq<nat>, x: nat)
    requires SmallIndices(row, 1) && x < |row|
    ensures x / 8 < |PackRow(row, 1)| && RowBit(PackRow(row, 1), x) == row[x]
  {
    hide PackRow, PackByte, CursorAt, SmallIndices;
    PackRowAt(row, 1, x);
    RowsIsProduct(8, x / 8);
    CursorIs(8, x, x % 8, x / 8);
    RowsIsProduct(1, x % 8);
    PowersOfTwo();
  }

  lemma {:induction false} CopyUndone(filter: Filter, f: Format, prev: seq<nat>, row: seq<nat>, w: nat)
    requires filter.Valid(f) && filter.Copy? && ValidRow(filter, f, row, w) && filter.Remembers(prev, w)
    ensures RawPixels(PixelBytes(row, f.bpp / 8), f.bpp / 8, w) == row
  {
    hide PixelBytes, Rows, RawPixels, Low;
    var img := RawPixels(PixelBytes(row, f.bpp / 8), f.bpp / 8, w);
    forall x | 0 <= x < w
      ensures img[x] == row[x]
    {
      StoredPixel(row, f.bpp / 8, x);
    }
  }

  lemma {:induction false} BitsUndone(filter: Filter, f: Format, row: seq<nat>, w: nat)
    requires filter.Valid(f) && filter.TwoColours? && ValidRow(filter, f, row, w)
    ensures SmallIndices(row, 1) && |PackRow(row, 1)| == (w + 7) / 8
    ensures BitImage(filter.palette, PackRow(row, 1), w) == ShownRow(filter, f, row, w)
  {
    hide PackRow, RowBit, SmallIndices;
    BitsFit(row);
    PackRowLength(row, 1);
    forall x | 0 <= x < w
      ensures RowBit(PackRow(row, 1), x) == row[x]
    {
      BitRead(row, x);
    }
  }

  /** Every filter gives back the row that was sent, and what the next row needs. */
  lemma {:induction false} RowUndone(filter: Filter, f: Format, prev: seq<nat>, row: seq<nat>, w: nat)
    requires filter.Valid(f) && ValidRow(filter, f, row, w) && filter.Remembers(prev, w)
    ensures |EncodeRow(filter, f, prev, row, w)| == filter.RowSize(f, w)
    ensures RowPixels(filter, f, prev, EncodeRow(filter, f, prev, row, w), w) == ShownRow(filter, f, row, w)
    ensures NextPrev(filter, f, prev, EncodeRow(filter, f, prev, row, w), w) == RowState(filter, prev, row)
  {
    hide Pack, PixelBytes, Rows, RawPixels, PackRow, RowBit, Undo, Differences, Sent, SentWords, Low, Range,
         SmallIndices;
    EncodedSize(filter, f, prev, row, w);
    if filter.Predicts() {
      GradientUndone(filter, f, prev, row, w);
    } else if filter.Copy? {
      CopyUndone(filter, f, prev, row, w);
    } else if filter.TwoColours? {
      BitsUndone(filter, f, row, w);
    }
  }

  ghost predicate ValidRows(filter: Filter, f: Format, rows: seq<seq<nat>>, w: nat) {
    forall j :: 0 <= j < |rows| ==> ValidRow(filter, f, rows[j], w)
  }

  /** What the rows leave behind for the next one. */
  function StateAfter(filter: Filter, prev: seq<nat>, rows: seq<seq<nat>>): seq<nat> {
    if rows == [] then prev else RowState(filter, prev, rows[|rows| - 1])
  }

  lemma {:induction false} StateSize(filter: Filter, f: Format, prev: seq<nat>, rows: seq<seq<nat>>, w: nat)
    requires ValidRows(filter, f, rows, w) && filter.Remembers(prev, w)
    ensures filter.Remembers(StateAfter(filter, prev, rows), w)
  {
    if rows != [] {
      assert ValidRow(filter, f, rows[|rows| - 1], w);
    }
  }

  function EncodeRows(filter: Filter, f: Format, prev: seq<nat>, rows: seq<seq<nat>>, w: nat): seq<byte>
    requires filter.Valid(f) && ValidRows(filter, f, rows, w) && filter.Remembers(prev, w)
  {
    if rows == [] then []
    else
      var init, last := rows[..|rows| - 1], rows[|rows| - 1];
      StateSize(filter, f, prev, init, w);
      EncodeRows(filter, f, prev, init, w) + EncodeRow(filter, f, StateAfter(filter, prev, init), last, w)
  }

  function ShownRows(filter: Filter, f: Format, rows: seq<seq<nat>>, w: nat): seq<Pixel>
    requires filter.Valid(f) && ValidRows(filter, f, rows, w)
  {
    if rows == [] then []
    else ShownRows(filter, f, rows[..|rows| - 1], w) + ShownRow(filter, f, rows[|rows| - 1], w)
  }

  /** For every filter and every image, filtering what was sent gives the image. */
  lemma {:induction false} RowsUndone(filter: Filter, f: Format, prev: seq<nat>, rows: seq<seq<nat>>, w: nat)
    requires filter.Valid(f) && ValidRows(filter, f, rows, w) && filter.Remembers(prev, w)
    ensures |EncodeRows(filter, f, prev, rows, w)| == Rows(filter.RowSize(f, w), |rows|)
    ensures Filtered(filter, f, prev, EncodeRows(filter, f, prev, rows, w), w, |rows|) == ShownRows(filter, f, rows, w)
    ensures After(filter, f, prev, EncodeRows(filter, f, prev, rows, w), w, |rows|) == StateAfter(filter, prev, rows)
  {
    hide Rows, RowPixels, NextPrev, Filtered, After, EncodeRow, ValidRow, ShownRow, Filter.RowSize;
    var size, h := filter.RowSize(f, w), |rows|;
    if rows == [] {
      FilteredNone(filter, f, prev, [], w);
    } else {
      var init, last := rows[..h - 1], rows[h - 1];
      var done, mid := EncodeRows(filter, f, prev, init, w), StateAfter(filter, prev, init);
      StateSize(filter, f, prev, init, w);
      RowsUndone(filter, f, prev, init, w);
      RowUndone(filter, f, mid, last, w);
      var data := EncodeRows(filter, f, prev, rows, w);
      assert data == done + EncodeRow(filter, f, mid, last, w);
      RowsNext(size, h - 1);
      FilteredPrefix(filter, f, prev, done, EncodeRow(filter, f, mid, last, w), w, h - 1);
      FilteredNext(filter, f, prev, data, w, h - 1);
      assert RowAt(data, size, h - 1) == EncodeRow(filter, f, mid, last, w);
      LastState(filter, prev, rows);
    }
  }

  lemma {:induction false} LastState(filter: Filter, prev: seq<nat>, rows: seq<seq<nat>>)
    requires rows != []
    ensures StateAfter(filter, prev, rows) ==
            RowState(filter, StateAfter(filter, prev, rows[..|rows| - 1]), rows[|rows| - 1])
  {
  }
}
