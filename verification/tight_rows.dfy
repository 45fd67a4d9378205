/** The filter functions of src/encodings/tight.c, row by row: FilterCopyBPP, FilterPaletteBPP,
    FilterGradient24 and FilterGradientBPP. */
module TightRows {
  import opened Bytes
  import opened Bits
  import opened Area
  import opened VncViewer
  import opened TightFormat
  import opened TightFilter

  /** A row of the rectangle being drawn: row j of pen.a, from the bytes at `from`. */
  ghost predicate AtRow(fb: array<Pixel>, buffer: array<byte>, from: nat, size: nat, a: Area, j: nat, pen: Pen,
                        drawn: seq<Pixel>)
    reads fb
  {
    && pen.a == a && pen.Drew(fb[..], drawn) && j < pen.h && |drawn| == Rows(a.w, j)
    && from + size <= buffer.Length
  }

  lemma {:induction false} RowFits(pen: Pen, j: nat)
    requires j < pen.h
    ensures Rows(pen.a.w, j) + pen.a.w == Rows(pen.a.w, j + 1) <= Rows(pen.a.w, pen.h)
  {
    hide Rows;
    RowsNext(pen.a.w, j);
    RowsMonotonic(pen.a.w, j + 1, pen.h);
  }

  lemma {:induction false} Slice(bs: seq<byte>, from: nat, size: nat, k: nat, n: nat)
    requires from + size <= |bs| && k + n <= size
    ensures bs[from..from + size][k..k + n] == bs[from + k..from + k + n]
  {
    var left, right := bs[from..from + size][k..k + n], bs[from + k..from + k + n];
    assert forall i :: 0 <= i < n ==> left[i] == right[i];
  }

  /** FilterCopyBPP, a row of words: one memcpy. */
  method CopyRow(fb: array<Pixel>, a: Area, j: nat, buffer: array<byte>, from: nat, n: nat,
                 ghost pen: Pen, ghost drawn0: seq<Pixel>)
    returns (ghost drawn: seq<Pixel>)
    requires AtRow(fb, buffer, from, Rows(n, a.w), a, j, pen, drawn0)
    modifies fb
    ensures pen.Drew(fb[..], drawn) && drawn == drawn0 + RawPixels(buffer[from..from + Rows(n, a.w)], n, a.w)
  {
    hide Rows, Blit, RawPixels, FromBytes;
    drawn := drawn0;
    RowFits(pen, j);
    RowsZero(n);
    var start := RowOffset(a.stride, a.y + j);
    ghost var row := buffer[from..from + Rows(n, a.w)];
    var x: nat, p: nat := 0, from;
    while x < a.w
      invariant x <= a.w && p == from + Rows(n, x) && pen.Drew(fb[..], drawn)
      invariant |drawn| == Rows(a.w, j) + x && drawn == drawn0 + RawPixels(row, n, a.w)[..x]
    {
      RowsNext(n, x);
      RowsMonotonic(n, x + 1, a.w);
      RawPixelsAt(row, n, a.w, x);
      Slice(buffer[..], from, Rows(n, a.w), Rows(n, x), n);
      var word := FromBytes(buffer[p..p + n]);
      Draw(fb, start + a.x + x, word, pen.before, pen.screen, a, pen.h, drawn, x, j);
      drawn := drawn + [word];
      x, p := x + 1, p + n;
    }
  }

  /** FilterCopyBPP with cutZeros: three bytes a pixel. */
  method Copy24Row(fb: array<Pixel>, a: Area, j: nat, buffer: array<byte>, from: nat, f: Format,
                   ghost pen: Pen, ghost drawn0: seq<Pixel>)
    returns (ghost drawn: seq<Pixel>)
    requires AtRow(fb, buffer, from, 3 * a.w, a, j, pen, drawn0)
    modifies fb
    ensures pen.Drew(fb[..], drawn) && drawn == drawn0 + RgbPixels(f, buffer[from..from + 3 * a.w], a.w)
  {
    hide Rows, Blit, Pack;
    drawn := drawn0;
    RowFits(pen, j);
    var start := RowOffset(a.stride, a.y + j);
    ghost var row := buffer[from..from + 3 * a.w];
    var x: nat := 0;
    while x < a.w
      invariant x <= a.w && pen.Drew(fb[..], drawn)
      invariant |drawn| == Rows(a.w, j) + x && drawn == drawn0 + RgbPixels(f, row, a.w)[..x]
    {
      var word := Pack(f, buffer[from + 3 * x], buffer[from + 3 * x + 1], buffer[from + 3 * x + 2]);
      Draw(fb, start + a.x + x, word, pen.before, pen.screen, a, pen.h, drawn, x, j);
      drawn := drawn + [word];
      x := x + 1;
    }
  }

  /** FilterPaletteBPP with more than two colours: one byte a pixel. */
  method ColoursRow(fb: array<Pixel>, a: Area, j: nat, buffer: array<byte>, from: nat, palette: seq<Pixel>,
                    ghost pen: Pen, ghost drawn0: seq<Pixel>)
    returns (ghost drawn: seq<Pixel>)
    requires AtRow(fb, buffer, from, a.w, a, j, pen, drawn0) && |palette| == 256
    modifies fb
    ensures pen.Drew(fb[..], drawn)
    ensures drawn == drawn0 + ByteImage(palette, buffer[from..from + a.w])
  {
    hide Rows, Blit;
    drawn := drawn0;
    RowFits(pen, j);
    var start := RowOffset(a.stride, a.y + j);
    ghost var row := buffer[from..from + a.w];
    ghost var img := ByteImage(palette, row);
    var x: nat := 0;
    while x < a.w
      invariant x <= a.w && pen.Drew(fb[..], drawn)
      invariant |drawn| == Rows(a.w, j) + x && drawn == drawn0 + img[..x]
    {
      var word := palette[buffer[from + x]];
      Draw(fb, start + a.x + x, word, pen.before, pen.screen, a, pen.h, drawn, x, j);
      drawn := drawn + [word];
      x := x + 1;
    }
  }

  /** `count` pixels, from pixel x of the row on, from the most significant bits of one byte. */
  method BitsOfByte(fb: array<Pixel>, a: Area, j: nat, start: nat, byteAt: byte, x: nat, count: nat,
                    palette: seq<Pixel>, ghost img: seq<Pixel>, ghost pen: Pen, ghost drawn0: seq<Pixel>)
    returns (ghost drawn: seq<Pixel>)
    requires pen.a == a && pen.Drew(fb[..], drawn0) && j < pen.h && start == Rows(a.stride, a.y + j)
    requires |palette| == 2 && |img| == count <= 8 && x + count <= a.w && |drawn0| == Rows(a.w, j) + x
    requires forall k :: 0 <= k < count ==> img[k] == palette[byteAt / Pow2(7 - k) % 2]
    modifies fb
    ensures pen.Drew(fb[..], drawn) && drawn == drawn0 + img
  {
    hide Rows, Blit, Pow2;
    drawn := drawn0;
    RowFits(pen, j);
    var b: int := 7;
    while b >= 8 - count
      invariant 7 - count <= b <= 7 && pen.Drew(fb[..], drawn)
      invariant |drawn| == Rows(a.w, j) + x + 7 - b && drawn == drawn0 + img[..7 - b]
    {
      var word := palette[byteAt / Pow2(b) % 2];
      assert word == img[7 - b];
      Draw(fb, start + a.x + x + 7 - b, word, pen.before, pen.screen, a, pen.h, drawn, x + 7 - b, j);
      drawn := drawn + [word];
      b := b - 1;
    }
  }

  lemma {:induction false} BitOfRow(row: seq<byte>, x: nat, k: nat)
    requires x < |row| && k < 8
    ensures RowBit(row, 8 * x + k) == row[x] / Pow2(7 - k) % 2
  {
    hide Pow2;
    assert (8 * x + k) / 8 == x && (8 * x + k) % 8 == k;
  }

  lemma {:induction false} ByteBits(palette: seq<Pixel>, row: seq<byte>, w: nat, x: nat, count: nat)
    requires |palette| == 2 && |row| == (w + 7) / 8 && x < |row| && count <= 8 && 8 * x + count <= w
    ensures var part := BitImage(palette, row, w)[8 * x..8 * x + count];
            forall k :: 0 <= k < count ==> part[k] == palette[row[x] / Pow2(7 - k) % 2]
  {
    hide Pow2, RowBit;
    var part := BitImage(palette, row, w)[8 * x..8 * x + count];
    forall k | 0 <= k < count
      ensures part[k] == palette[row[x] / Pow2(7 - k) % 2]
    {
      BitOfRow(row, x, k);
    }
  }

  /** Byte x of the row, `count` pixels of it. */
  method ByteOfRow(fb: array<Pixel>, a: Area, j: nat, start: nat, byteAt: byte, x: nat, count: nat, palette: seq<Pixel>,
                   ghost row: seq<byte>, ghost pen: Pen, ghost drawn0: seq<Pixel>, ghost drawn1: seq<Pixel>)
    returns (ghost drawn: seq<Pixel>)
    requires pen.a == a && pen.Drew(fb[..], drawn1) && j < pen.h && start == Rows(a.stride, a.y + j)
    requires |palette| == 2 && 0 < count <= 8 && 8 * x + count <= a.w && |drawn0| == Rows(a.w, j)
    requires |row| == (a.w + 7) / 8 && row[x] == byteAt && drawn1 == drawn0 + BitImage(palette, row, a.w)[..8 * x]
    modifies fb
    ensures pen.Drew(fb[..], drawn) && drawn == drawn0 + BitImage(palette, row, a.w)[..8 * x + count]
  {
    hide Rows, Blit, BitImage, Pow2;
    ghost var img := BitImage(palette, row, a.w);
    ByteBits(palette, row, a.w, x, count);
    drawn := BitsOfByte(fb, a, j, start, byteAt, 8 * x, count, palette, img[8 * x..8 * x + count], pen, drawn1);
    assert img[..8 * x] + img[8 * x..8 * x + count] == img[..8 * x + count];
  }

  /** FilterPaletteBPP with two colours: one bit a pixel, whole bytes first, then what remains. */
  method BitsRow(fb: array<Pixel>, a: Area, j: nat, buffer: array<byte>, from: nat, palette: seq<Pixel>,
                 ghost pen: Pen, ghost drawn0: seq<Pixel>)
    returns (ghost drawn: seq<Pixel>)
    requires AtRow(fb, buffer, from, (a.w + 7) / 8, a, j, pen, drawn0) && |palette| == 2
    modifies fb
    ensures pen.Drew(fb[..], drawn)
    ensures drawn == drawn0 + BitImage(palette, buffer[from..from + (a.w + 7) / 8], a.w)
  {
    hide Rows, Blit, BitImage, Pow2;
    drawn := drawn0;
    var start := RowOffset(a.stride, a.y + j);
    ghost var row := buffer[from..from + (a.w + 7) / 8];
    var x: nat := 0;
    while x < a.w / 8
      invariant x <= a.w / 8 && pen.Drew(fb[..], drawn)
      invariant drawn == drawn0 + BitImage(palette, row, a.w)[..8 * x]
    {
      drawn := ByteOfRow(fb, a, j, start, buffer[from + x], x, 8, palette, row, pen, drawn0, drawn);
      x := x + 1;
    }
    if a.w % 8 > 0 {
      drawn := ByteOfRow(fb, a, j, start, buffer[from + x], x, a.w % 8, palette, row, pen, drawn0, drawn);
    }
    assert 8 * x + a.w % 8 == a.w;
  }

  /** The first t components of a row have been found; the row above is still there. */
  ghost predicate Undoing(filter: Filter, f: Format, prevRow: array<nat>, thisRow: array<nat>, prev: seq<nat>,
                          d: seq<nat>, t: nat)
    reads prevRow, thisRow
  {
    && |prev| == |d| <= prevRow.Length && |d| <= thisRow.Length && t <= |d|
    && prevRow[..|prev|] == prev && thisRow[..t] == Undo(filter, f, prev, d, t)
  }

  /** One component: predict it from above and from the left, add the difference. */
  method Component(prevRow: array<nat>, thisRow: array<nat>, pix: array<nat>, x: nat, c: nat, difference: nat, max: nat,
                   ghost filter: Filter, ghost f: Format, ghost prev: seq<nat>, ghost d: seq<nat>)
    requires prevRow != thisRow && prevRow != pix && thisRow != pix && pix.Length == 3
    requires c < 3 && 3 * x + c < |d| && Undoing(filter, f, prevRow, thisRow, prev, d, 3 * x + c)
    requires x > 0 ==> pix[c] == thisRow[3 * (x - 1) + c]
    requires difference == d[3 * x + c] && max + 1 == Range(filter, f, 3 * x + c)
    modifies thisRow, pix
    ensures Undoing(filter, f, prevRow, thisRow, prev, d, 3 * x + c + 1)
    ensures pix[c] == thisRow[3 * x + c]
    ensures x == 0 ==> pix[c] == (prevRow[c] + difference) % (max + 1)
    ensures x > 0 ==>
              var p := (prevRow[3 * x + c] as int) + thisRow[3 * (x - 1) + c] - prevRow[3 * (x - 1) + c];
              pix[c] == ((if p < 0 then 0 else if p > max then max else p) + difference) % (max + 1)
    ensures forall k :: 0 <= k < 3 && k != c ==> pix[k] == old(pix[k])
    ensures forall k :: 0 <= k < 3 * x + c ==> thisRow[k] == old(thisRow[k])
  {
    hide Range, Undo;
    ghost var t, left := 3 * x + c, thisRow[..3 * x + c];
    UndoNext(filter, f, prev, d, t);
    var est: int := prevRow[3 * x + c];
    assert prevRow[3 * x + c] == prev[t];
    if x > 0 {
      assert prevRow[3 * (x - 1) + c] == prev[t - 3] && pix[c] == left[t - 3];
      est := est + pix[c] - prevRow[3 * (x - 1) + c];
      if est > max {
        est := max;
      } else if est < 0 {
        est := 0;
      }
    }
    assert est == Estimate(prev, left, t, max);
    // Masking with a maximum of the form 2^k - 1 is taking the remainder.
    pix[c] := (est + difference) % (max + 1);
    thisRow[3 * x + c] := pix[c];
    assert thisRow[..t + 1] == left + [pix[c]];
  }

  lemma {:induction false} UndoNext(filter: Filter, f: Format, prev: seq<nat>, d: seq<nat>, n: nat)
    requires n < |prev| && n < |d|
    ensures var left, m := Undo(filter, f, prev, d, n), Range(filter, f, n);
            Undo(filter, f, prev, d, n + 1) == left + [(d[n] + Estimate(prev, left, n, m - 1)) % m]
  {
    hide Range, Estimate;
  }

  /** The byte of the component, or its field of the pixel's word. */
  method ReadDifference(buffer: array<byte>, from: nat, filter: Filter, f: Format, w: nat, x: nat, c: nat)
    returns (difference: nat)
    requires filter.Predicts() && x < w && c < 3 && from + filter.RowSize(f, w) <= buffer.Length
    ensures difference == Difference(filter, f, buffer[from..from + filter.RowSize(f, w)], w, 3 * x + c)
  {
    hide Rows, RawPixels, FromBytes, Shr;
    if filter.Gradient24? {
      difference := buffer[from + 3 * x + c];
    } else {
      var n := f.bpp / 8;
      ghost var row := buffer[from..from + filter.RowSize(f, w)];
      RawPixelsAt(row, n, w, x);
      var at := RowOffset(n, x);
      Slice(buffer[..], from, filter.RowSize(f, w), at, n);
      difference := Shr(FromBytes(buffer[from + at..from + at + n]), f.Part(c).shift);
      assert (3 * x + c) / 3 == x && (3 * x + c) % 3 == c;
    }
  }

  lemma {:induction false} RangeOf(filter: Filter, f: Format, x: nat, c: nat)
    requires c < 3
    ensures Range(filter, f, 3 * x + c) == if filter.Gradient24? then 256 else Pow2(f.Part(c).bits)
  {
    hide Pow2;
    assert (3 * x + c) % 3 == c;
  }

  /** The three components of one pixel. */
  method GradientPixel(prevRow: array<nat>, thisRow: array<nat>, pix: array<nat>, buffer: array<byte>, from: nat,
                       filter: Filter, f: Format, w: nat, x: nat, ghost prev: seq<nat>, ghost d: seq<nat>)
    requires prevRow != thisRow && prevRow != pix && thisRow != pix && pix.Length == 3
    requires filter.Predicts() && x < w && from + filter.RowSize(f, w) <= buffer.Length
    requires d == Differences(filter, f, buffer[from..from + filter.RowSize(f, w)], w)
    requires Undoing(filter, f, prevRow, thisRow, prev, d, 3 * x)
    requires forall k :: 0 <= k < 3 && x > 0 ==> pix[k] == thisRow[3 * (x - 1) + k]
    modifies thisRow, pix
    ensures Undoing(filter, f, prevRow, thisRow, prev, d, 3 * x + 3)
    ensures forall k :: 0 <= k < 3 ==> pix[k] == thisRow[3 * x + k]
  {
    hide Rows, Undo, Range, Difference, Pow2;
    ghost var was := pix[..];
    for c := 0 to 3
      invariant Undoing(filter, f, prevRow, thisRow, prev, d, 3 * x + c)
      invariant forall k :: 0 <= k < c ==> pix[k] == thisRow[3 * x + k]
      invariant forall k :: c <= k < 3 ==> pix[k] == was[k]
      invariant forall k :: 0 <= k < 3 * x ==> thisRow[k] == old(thisRow[k])
    {
      var difference := ReadDifference(buffer, from, filter, f, w, x, c);
      var max := if filter.Gradient24? then 255 else Pow2(f.Part(c).bits) - 1;
      RangeOf(filter, f, x, c);
      Component(prevRow, thisRow, pix, x, c, difference, max, filter, f, prev, d);
    }
  }

  method KeepRow(prevRow: array<nat>, thisRow: array<nat>, n: nat)
    requires n <= prevRow.Length && n <= thisRow.Length && prevRow != thisRow
    modifies prevRow
    ensures prevRow[..n] == thisRow[..n]
  {
    forall k | 0 <= k < n {
      prevRow[k] := thisRow[k];
    }
  }

  /** FilterGradient24 and FilterGradientBPP: a row, whose components are then the row above. */
  method GradientRow(fb: array<Pixel>, a: Area, j: nat, buffer: array<byte>, from: nat, prevRow: array<nat>,
                     filter: Filter, f: Format, ghost prev: seq<nat>, ghost pen: Pen, ghost drawn0: seq<Pixel>)
    returns (ghost drawn: seq<Pixel>)
    requires filter.Predicts() && AtRow(fb, buffer, from, filter.RowSize(f, a.w), a, j, pen, drawn0)
    requires fb != prevRow && 0 < a.w <= 2048 && 3 * a.w <= prevRow.Length && prevRow[..3 * a.w] == prev
    modifies fb, prevRow
    ensures var parts := NextPrev(filter, f, prev, buffer[from..from + filter.RowSize(f, a.w)], a.w);
            pen.Drew(fb[..], drawn) && drawn == drawn0 + RgbPixels(f, parts, a.w) && prevRow[..3 * a.w] == parts
  {
    hide Rows, Blit, Undo, Range, Difference, Differences, Pack, RgbPixels, Pen.Drew, Filter.RowSize, Undoing, NextPrev;
    drawn := drawn0;
    var start := RowOffset(a.stride, a.y + j);
    ghost var row := buffer[from..from + filter.RowSize(f, a.w)];
    ghost var d := Differences(filter, f, row, a.w);
    var thisRow, pix := new nat[3 * 2048], new nat[3];
    NothingUndone(filter, f, prevRow, thisRow, prev, row, a.w);
    RgbNone(f);
    var x: nat := 0;
    while x < a.w
      invariant x <= a.w && pen.Drew(fb[..], drawn) && |drawn| == Rows(a.w, j) + x
      invariant Undoing(filter, f, prevRow, thisRow, prev, d, 3 * x)
      invariant forall k :: 0 <= k < 3 && x > 0 ==> pix[k] == thisRow[3 * (x - 1) + k]
      invariant drawn == drawn0 + RgbPixels(f, Undo(filter, f, prev, d, 3 * x), x)
    {
      ghost var parts := RgbPixels(f, Undo(filter, f, prev, d, 3 * x), x);
      GradientPixel(prevRow, thisRow, pix, buffer, from, filter, f, a.w, x, prev, d);
      var word := Pack(f, pix[0], pix[1], pix[2]);
      DrawInRow(fb, start, x, word, a, j, pen, drawn);
      PixelUndone(filter, f, prevRow, thisRow, pix, prev, d, x);
      drawn := drawn + [word];
      assert drawn == drawn0 + (parts + [word]);
      x := x + 1;
    }
    RowUndone(filter, f, prevRow, thisRow, prev, row, a.w);
    KeepRow(prevRow, thisRow, 3 * a.w);
  }

  lemma {:induction false} NothingUndone(filter: Filter, f: Format, prevRow: array<nat>, thisRow: array<nat>,
                                         prev: seq<nat>, row: seq<byte>, w: nat)
    requires filter.Predicts() && |row| == filter.RowSize(f, w)
    requires 3 * w <= prevRow.Length && 3 * w <= thisRow.Length && prevRow[..3 * w] == prev
    ensures var d := Differences(filter, f, row, w);
            Undoing(filter, f, prevRow, thisRow, prev, d, 0) && Undo(filter, f, prev, d, 0) == []
  {
    hide Difference, Rows;
  }

  lemma {:induction false} RowUndone(filter: Filter, f: Format, prevRow: array<nat>, thisRow: array<nat>,
                                     prev: seq<nat>, row: seq<byte>, w: nat)
    requires filter.Predicts() && |row| == filter.RowSize(f, w) && |prev| == 3 * w <= thisRow.Length
    requires Undoing(filter, f, prevRow, thisRow, prev, Differences(filter, f, row, w), 3 * w)
    ensures var parts := NextPrev(filter, f, prev, row, w);
            thisRow[..3 * w] == parts && parts == Undo(filter, f, prev, Differences(filter, f, row, w), 3 * w)
  {
    hide Undo, Difference, Rows;
  }

  /** The next pixel of row j. */
  method DrawInRow(fb: array<Pixel>, start: nat, x: nat, word: Pixel, a: Area, j: nat, ghost pen: Pen,
                   ghost drawn: seq<Pixel>)
    requires pen.a == a && pen.Drew(fb[..], drawn) && j < pen.h && x < a.w && |drawn| == Rows(a.w, j) + x
    requires start == Rows(a.stride, a.y + j)
    modifies fb
    ensures pen.Drew(fb[..], drawn + [word])
  {
    hide Rows, Blit;
    RowFits(pen, j);
    Draw(fb, start + a.x + x, word, pen.before, pen.screen, a, pen.h, drawn, x, j);
  }

  /** A component of the first pixel of a row without pixels. */
  method StrayComponent(buffer: array<byte>, prevRow: array<nat>, filter: Filter, f: Format, c: nat) returns (v: nat)
    requires filter.Predicts() && f.Valid() && buffer.Length >= 4 && prevRow.Length >= 3 && c < 3
    ensures v == StrayPart(filter, f, prevRow[..3], buffer[..4], c)
    ensures filter.Gradient24? ==> v == (prevRow[c] + buffer[c]) % 256
    ensures var part := if c == 0 then f.red else if c == 1 then f.green else f.blue;
            filter.Gradient? ==>
              v == (prevRow[c] + FromBytes(buffer[..f.bpp / 8]) / Pow2(part.shift)) % Pow2(part.bits)
  {
    hide FromBytes, Pow2;
    var difference := if filter.Gradient24? then buffer[c] else Shr(FromBytes(buffer[..f.bpp / 8]), f.Part(c).shift);
    var max := if filter.Gradient24? then 255 else Pow2(f.Part(c).bits) - 1;
    assert buffer[..4][..f.bpp / 8] == buffer[..f.bpp / 8];
    v := (prevRow[c] + difference) % (max + 1);
  }

  /** FilterGradient24 and FilterGradientBPP in a row without pixels: the first pixel is decoded all the
      same, to offset p. */
  method StrayRow(fb: array<Pixel>, p: nat, buffer: array<byte>, prevRow: array<nat>, filter: Filter, f: Format)
    requires filter.Predicts() && f.Valid() && p < fb.Length && buffer.Length >= 4 && prevRow.Length >= 3 &&
             fb != prevRow
    modifies fb
    ensures fb[..] == old(fb[..])[p := StrayPixel(filter, f, prevRow[..3], buffer[..4])]
  {
    hide StrayPart, Pack;
    ghost var prev, head := prevRow[..3], buffer[..4];
    var pix := new nat[3];
    for c := 0 to 3
      invariant forall k :: 0 <= k < c ==> pix[k] == StrayPart(filter, f, prev, head, k)
      invariant fb[..] == old(fb[..])
    {
      pix[c] := StrayComponent(buffer, prevRow, filter, f, c);
    }
    fb[p] := Pack(f, pix[0], pix[1], pix[2]);
  }

  lemma {:induction false} RgbNone(f: Format)
    ensures RgbPixels(f, [], 0) == []
  {
  }

  lemma {:induction false} UndoPrefix(filter: Filter, f: Format, prev: seq<nat>, d: seq<nat>, n: nat, m: nat)
    requires m <= n <= |prev| && n <= |d|
    ensures Undo(filter, f, prev, d, n)[..m] == Undo(filter, f, prev, d, m)
  {
    hide Range, Estimate;
    if m < n {
      UndoPrefix(filter, f, prev, d, n - 1, m);
    }
  }

  lemma {:induction false} PixelUndone(filter: Filter, f: Format, prevRow: array<nat>, thisRow: array<nat>,
                                       pix: array<nat>, prev: seq<nat>, d: seq<nat>, x: nat)
    requires 3 * x + 3 <= |d| == |prev| && Undoing(filter, f, prevRow, thisRow, prev, d, 3 * x + 3)
    requires pix.Length == 3 && forall k :: 0 <= k < 3 ==> pix[k] == thisRow[3 * x + k]
    ensures RgbPixels(f, Undo(filter, f, prev, d, 3 * x + 3), x + 1) ==
            RgbPixels(f, Undo(filter, f, prev, d, 3 * x), x) + [Pack(f, pix[0], pix[1], pix[2])]
  {
    hide Pack, Undo, RgbPixels;
    ghost var this3 := thisRow[..3 * x + 3];
    RgbNext(f, this3, x);
    UndoPrefix(filter, f, prev, d, 3 * x + 3, 3 * x);
    assert pix[0] == this3[3 * x + 0];
  }

  lemma {:induction false} RgbNext(f: Format, parts: seq<nat>, x: nat)
    requires |parts| == 3 * x + 3
    ensures RgbPixels(f, parts, x + 1) ==
            RgbPixels(f, parts[..3 * x], x) + [Pack(f, parts[3 * x], parts[3 * x + 1], parts[3 * x + 2])]
  {
    hide Pack;
  }
}
