/** The filter calls and the inflate loop of HandleTightBPP (src/encodings/tight.c). */
module TightInflate {
  import opened Bytes
  import opened Area
  import opened VncViewer
  import opened TightFormat
  import opened TightFilter
  import TightRows

  const ZLIB_BUFFER_SIZE: nat := 30000

  /** The components of the row above, for a filter that keeps them. */
  ghost function PrevRow(filter: Filter, prevRow: array<nat>, w: nat): (prev: seq<nat>)
    requires filter.Predicts() ==> 3 * w <= prevRow.Length
    reads prevRow
    ensures filter.Remembers(prev, w)
  {
    if filter.Predicts() then prevRow[..3 * w] else []
  }

  /** One row of whichever filter it is. */
  method FilterRow(fb: array<Pixel>, a: Area, j: nat, buffer: array<byte>, from: nat, prevRow: array<nat>,
                   filter: Filter, f: Format, ghost pen: Pen, ghost drawn0: seq<Pixel>)
    returns (ghost drawn: seq<Pixel>)
    requires filter.Valid(f) && filter.Predictable(f, a.w) && !filter.Spills(a.w) && a.w > 0
    requires prevRow.Length == PrevLength(f) && fb != prevRow
    requires TightRows.AtRow(fb, buffer, from, filter.RowSize(f, a.w), a, j, pen, drawn0)
    modifies fb, prevRow
    ensures var prev, row := old(PrevRow(filter, prevRow, a.w)), buffer[from..from + filter.RowSize(f, a.w)];
            && pen.Drew(fb[..], drawn) && drawn == drawn0 + RowPixels(filter, f, prev, row, a.w)
            && PrevRow(filter, prevRow, a.w) == NextPrev(filter, f, prev, row, a.w)
  {
    hide Rows, Blit, Undo, RawPixels, RgbPixels, BitImage, ByteImage, Differences;
    match filter
    case Copy => drawn := TightRows.CopyRow(fb, a, j, buffer, from, f.bpp / 8, pen, drawn0);
    case Copy24 => drawn := TightRows.Copy24Row(fb, a, j, buffer, from, f, pen, drawn0);
    case TwoColours(palette) => drawn := TightRows.BitsRow(fb, a, j, buffer, from, palette, pen, drawn0);
    case Colours(palette) => drawn := TightRows.ColoursRow(fb, a, j, buffer, from, palette, pen, drawn0);
    case _ =>
      ghost var prev := PrevRow(filter, prevRow, a.w);
      drawn := TightRows.GradientRow(fb, a, j, buffer, from, prevRow, filter, f, prev, pen, drawn0);
  }

  /** A filter function: numRows rows from the start of the buffer, at (srcx, srcy). A gradient filter
      for rows without pixels draws a stray column; that runs past the framebuffer exactly if the
      column begins after the last one and the rows end with the last one. Rows too long for thisRow
      run over it as soon as there is one. */
  method FilterRows(client: RfbClient, buffer: array<byte>, prevRow: array<nat>, filter: Filter, f: Format, w: nat,
                    srcx: nat, srcy: nat, numRows: nat)
    returns (overrun: bool)
    requires client.Valid() && client.frameBuffer != null && client.CheckRect(srcx, srcy, w, numRows)
    requires filter.Valid(f) && filter.Predictable(f, w) && prevRow.Length == PrevLength(f) &&
             client.frameBuffer != prevRow
    requires Rows(filter.RowSize(f, w), numRows) <= buffer.Length && buffer.Length >= 4
    modifies client.frameBuffer, prevRow
    ensures overrun <==>
              if filter.Strays(w) then RunsOver(client.width, client.height, srcx, srcy, numRows)
              else filter.Spills(w) && numRows > 0
    ensures !filter.Strays(w) && !overrun ==>
              var prev := old(PrevRow(filter, prevRow, w));
              && client.Screen() == Blit(old(client.Screen()), Area(client.width, srcx, srcy, w),
                                         Filtered(filter, f, prev, buffer[..], w, numRows))
              && PrevRow(filter, prevRow, w) == After(filter, f, prev, buffer[..], w, numRows)
    ensures filter.Strays(w) && !overrun ==>
              client.Screen() == Blit(old(client.Screen()), StrayArea(client.width, srcx, srcy),
                                      Filled(StrayPixel(filter, f, old(prevRow[..3]), buffer[..4]), numRows))
  {
    hide Rows, Blit, Filtered, After, RowPixels, NextPrev, StrayPixel;
    overrun := false;
    if w == 0 {
      if filter.Predicts() {
        overrun := StrayColumn(client, buffer, prevRow, filter, f, srcx, srcy, numRows);
      } else {
        BlitNone(client.Screen(), Area(client.width, srcx, srcy, w));
        NarrowRows(filter, f, buffer[..], numRows);
      }
      return;
    }
    if filter.Predicts() && w > 2048 {
      BlitNone(client.Screen(), Area(client.width, srcx, srcy, w));
      FilteredNone(filter, f, PrevRow(filter, prevRow, w), buffer[..], w);
      return numRows > 0;
    }
    PixelRows(client, buffer, prevRow, filter, f, w, srcx, srcy, numRows);
  }

  method PixelRows(client: RfbClient, buffer: array<byte>, prevRow: array<nat>, filter: Filter, f: Format, w: nat,
                   srcx: nat, srcy: nat, numRows: nat)
    requires !filter.Spills(w)
    requires client.Valid() && client.frameBuffer != null && client.CheckRect(srcx, srcy, w, numRows) && w > 0
    requires filter.Valid(f) && filter.Predictable(f, w) && prevRow.Length == PrevLength(f) &&
             client.frameBuffer != prevRow
    requires Rows(filter.RowSize(f, w), numRows) <= buffer.Length
    modifies client.frameBuffer, prevRow
    ensures var prev := old(PrevRow(filter, prevRow, w));
            && client.Screen() == Blit(old(client.Screen()), Area(client.width, srcx, srcy, w),
                                       Filtered(filter, f, prev, buffer[..], w, numRows))
            && PrevRow(filter, prevRow, w) == After(filter, f, prev, buffer[..], w, numRows)
  {
    hide Rows, Blit, Filtered, After, RowPixels, NextPrev;
    ghost var prev, data := PrevRow(filter, prevRow, w), buffer[..];
    var a := Area(client.width, srcx, srcy, w);
    ghost var pen := Pen(client.Screen(), client.height, a, numRows);
    ghost var drawn: seq<Pixel> := [];
    FilteredNone(filter, f, prev, data, w);
    BlitNone(client.Screen(), a);
    RowsZero(w);
    var size := filter.RowSize(f, w);
    var y: nat := 0;
    while y < numRows
      invariant y <= numRows && client.Valid() && buffer[..] == data
      invariant pen.Drew(client.Screen(), drawn) && Rows(size, y) <= |data|
      invariant drawn == Filtered(filter, f, prev, data, w, y)
      invariant PrevRow(filter, prevRow, w) == After(filter, f, prev, data, w, y)
    {
      RowsMonotonic(size, y + 1, numRows);
      FilteredNext(filter, f, prev, data, w, y);
      var from := RowOffset(size, y);
      drawn := FilterRow(client.frameBuffer, a, y, buffer, from, prevRow, filter, f, pen, drawn);
      assert data[from..from + size] == RowAt(data, size, y);
      y := y + 1;
    }
  }

  /** Whether a stray column runs past the framebuffer. */
  predicate RunsOver(width: nat, height: nat, x: nat, y: nat, rows: nat) {
    rows > 0 && x >= width && (y + rows >= height || width == 0)
  }

  /** The row loop of the gradient filters with rectWidth 0. */
  method StrayColumn(client: RfbClient, buffer: array<byte>, prevRow: array<nat>, filter: Filter, f: Format,
                     srcx: nat, srcy: nat, numRows: nat)
    returns (overrun: bool)
    requires client.Valid() && client.frameBuffer != null && client.CheckRect(srcx, srcy, 0, numRows)
    requires filter.Valid(f) && filter.Predicts() && prevRow.Length == PrevLength(f) && client.frameBuffer != prevRow
    requires buffer.Length >= 4
    modifies client.frameBuffer
    ensures overrun == RunsOver(client.width, client.height, srcx, srcy, numRows)
    ensures !overrun ==>
              client.Screen() == Blit(old(client.Screen()), StrayArea(client.width, srcx, srcy),
                                      Filled(StrayPixel(filter, f, prevRow[..3], buffer[..4]), numRows))
  {
    hide Rows, Blit, StrayPixel, CursorAt;
    ghost var before, a := client.Screen(), StrayArea(client.width, srcx, srcy);
    ghost var pixel := StrayPixel(filter, f, prevRow[..3], buffer[..4]);
    BlitNone(before, a);
    assert Filled(pixel, 0) == [];
    var y: nat := 0;
    while y < numRows
      invariant y <= numRows && client.Valid() && buffer[..4] == old(buffer[..4]) && prevRow[..3] == old(prevRow[..3])
      invariant client.Screen() == Blit(before, a, Filled(pixel, y))
      invariant y > 0 ==> !RunsOver(client.width, client.height, srcx, srcy, y)
    {
      var p := RowOffset(client.width, srcy + y);
      p := p + srcx;
      StrayPlace(client.width, client.height, srcx, srcy, y);
      if p >= client.frameBuffer.Length {
        return true;
      }
      BlitNext(before, a, Filled(pixel, y), pixel);
      assert Filled(pixel, y + 1) == Filled(pixel, y) + [pixel];
      TightRows.StrayRow(client.frameBuffer, p, buffer, prevRow, filter, f);
      y := y + 1;
    }
    overrun := false;
  }

  /** Where row y of a stray column goes, and when that is past the framebuffer. */
  lemma {:induction false} StrayPlace(width: nat, height: nat, x: nat, y0: nat, y: nat)
    requires x <= width && y0 + y < height
    ensures PixelOffset(StrayArea(width, x, y0), y) == Rows(width, y0 + y) + x
    ensures Rows(width, y0 + y) + x >= Rows(width, height) <==> RunsOver(width, height, x, y0, y + 1)
  {
    hide Rows, CursorAt;
    var a := StrayArea(width, x, y0);
    ColumnOffset(a, y);
    assert y0 + 1 + y == y0 + y + 1;
    RowsNext(width, y0 + y);
    if x < width {
      InsideRows(width, height, x, y0 + y);
    } else if width == 0 {
      RowsIsProduct(0, height);
    } else if y0 + y + 1 < height {
      RowsMonotonic(width, y0 + y + 1, height);
    }
  }

  /** Rows without pixels leave nothing behind. */
  lemma {:induction false} NarrowRows(filter: Filter, f: Format, data: seq<byte>, k: nat)
    requires filter.Valid(f) && !filter.Predicts() && Rows(filter.RowSize(f, 0), k) <= |data|
    ensures Filtered(filter, f, [], data, 0, k) == [] && After(filter, f, [], data, 0, k) == []
  {
    hide RowPixels;
    RowsIsProduct(0, k);
    if k > 0 {
      NarrowRows(filter, f, data, k - 1);
    }
  }

  datatype InflateStatus = StreamOk | StreamEnd | BufError | StreamError

  /** What zlib makes of the bytes it is fed is any function under which more bytes give more output;
      a fault in the bytes stays. */
  ghost predicate Streams(inflated: seq<byte> -> seq<byte>, breaks: seq<byte> -> bool) {
    && inflated([]) == [] && !breaks([])
    && (forall a, b :: inflated(a) <= inflated(a + b))
    && (forall a, b :: breaks(a) ==> breaks(a + b))
  }

  /** A z_stream: the bytes fed since inflateInit, and how many of the inflated ones were handed out. */
  class Inflater {
    const inflated: seq<byte> -> seq<byte>
    const breaks: seq<byte> -> bool
    var active: bool
    var fed: seq<byte>
    var handed: nat

    constructor (inflated: seq<byte> -> seq<byte>, breaks: seq<byte> -> bool)
      requires Streams(inflated, breaks)
      ensures Ready() && Before() == []
    {
      this.inflated, this.breaks := inflated, breaks;
      active, fed, handed := false, [], 0;
    }

    ghost predicate Valid()
      reads this
    {
      Streams(inflated, breaks) && handed <= |inflated(fed)|
    }

    /** Everything that can be handed out has been. */
    predicate Drained()
      reads this
    {
      handed == |inflated(fed)| && !breaks(fed)
    }

    /** Between rectangles. */
    ghost predicate Ready()
      reads this
    {
      Valid() && (active ==> Drained())
    }

    /** The bytes that the next ones continue. */
    function Before(): seq<byte>
      reads this
    {
      if active then fed else []
    }

    /** inflateEnd */
    method End()
      requires Ready()
      modifies this`active
      ensures Ready() && Before() == []
    {
      active := false;
    }

    /** inflateInit, if the stream is not active. */
    method Init()
      requires Ready()
      modifies this
      ensures Ready() && active && fed == old(Before())
    {
      if !active {
        active, fed, handed := true, [], 0;
      }
    }

    /** Setting next_in and avail_in: bytes not yet taken in would be lost. */
    method Feed(portion: seq<byte>)
      requires Valid() && Drained()
      modifies this`fed
      ensures Valid() && fed == old(fed) + portion
      ensures inflated(old(fed)) <= inflated(fed)
    {
      fed := fed + portion;
    }

    /** inflate with Z_SYNC_FLUSH hands out as much as it has or there is room for. Without room it
        could not go on, so the caller must leave some. */
    method Inflate(availOut: nat) returns (err: InflateStatus, output: seq<byte>)
      requires Valid() && availOut > 0
      modifies this`handed
      ensures Valid() && |output| <= availOut && handed == old(handed) + |output|
      ensures output == inflated(fed)[old(handed)..handed]
      ensures err.StreamError? ==> breaks(fed) && output == []
      ensures err.BufError? ==> output == []
      ensures !err.StreamError? && |output| < availOut ==> Drained()
    {
      var left := |inflated(fed)| - handed;
      if breaks(fed) && left < availOut {
        return StreamError, [];
      }
      var size := Min(left, availOut);
      output := inflated(fed)[handed..handed + size];
      handed := handed + size;
      err := *;
      if err == StreamError || (err == BufError && size > 0) {
        err := StreamOk;
      }
    }
  }

  /** The state of the row-carry loop: of `data`, all that was inflated so far, `rows` rows have been
      filtered and the bytes of the row begun after them wait at the start of the buffer. */
  ghost predicate Carrying(filter: Filter, f: Format, w: nat, prev0: seq<nat>, data: seq<byte>, rows: nat, extra: nat,
                           buffer: seq<byte>, prev: seq<nat>, before: seq<Pixel>, a: Area, now: seq<Pixel>)
  {
    && filter.Valid(f) && filter.Remembers(prev0, w) && a.w == w
    && var size := filter.RowSize(f, w);
       && extra < size && extra <= |buffer| && Rows(size, rows) + extra == |data|
       && buffer[..extra] == data[Rows(size, rows)..]
       && prev == After(filter, f, prev0, data, w, rows)
       && now == Blit(before, a, Filtered(filter, f, prev0, data, w, rows))
  }

  /** What the loop has after `more` bytes were inflated behind the carried ones and the filter was
      applied to the whole rows among them. */
  lemma {:induction false} Carried(filter: Filter, f: Format, w: nat, prev0: seq<nat>, data: seq<byte>, rows: nat,
                                   extra: nat, buffer: seq<byte>, prev: seq<nat>, before: seq<Pixel>, a: Area,
                                   now: seq<Pixel>, more: seq<byte>, buffer': seq<byte>, k: nat)
    requires Carrying(filter, f, w, prev0, data, rows, extra, buffer, prev, before, a, now)
    requires extra + |more| <= |buffer'| && buffer'[..extra + |more|] == buffer[..extra] + more
    requires Rows(filter.RowSize(f, w), k) <= extra + |more|
    ensures Rows(filter.RowSize(f, w), rows + k) == Rows(filter.RowSize(f, w), rows) + Rows(filter.RowSize(f, w), k)
    ensures After(filter, f, prev, buffer', w, k) == After(filter, f, prev0, data + more, w, rows + k)
    ensures Blit(now, a.(y := a.y + rows), Filtered(filter, f, prev, buffer', w, k)) ==
            Blit(before, a, Filtered(filter, f, prev0, data + more, w, rows + k))
  {
    hide Rows, Blit, Filtered, After, RowAt;
    var size, all := filter.RowSize(f, w), data + more;
    RowsAdd(size, rows, k);
    FilteredPrefix(filter, f, prev0, data, more, w, rows);
    FilteredSplit(filter, f, prev0, all, w, rows, k);
    AfterSplit(filter, f, prev0, all, w, rows, k);
    var block := all[Rows(size, rows)..];
    assert block == buffer'[..extra + |more|];
    FilteredPrefix(filter, f, prev, block, buffer'[extra + |more|..], w, k);
    assert block + buffer'[extra + |more|..] == buffer';
    BlitRows(before, a, rows, Filtered(filter, f, prev0, all, w, rows), Filtered(filter, f, prev, block, w, k));
  }

  /** memcpy within the buffer: the two ranges are apart, or the same. */
  method Memcpy(buffer: array<byte>, dest: nat, src: nat, n: nat)
    requires src + n <= buffer.Length && (dest == src || dest + n <= src)
    modifies buffer
    ensures buffer[dest..dest + n] == old(buffer[src..src + n])
    ensures forall k :: 0 <= k < buffer.Length && !(dest <= k < dest + n) ==> buffer[k] == old(buffer[k])
  {
    forall k | 0 <= k < n {
      buffer[dest + k] := buffer[src + k];
    }
  }

  /** a / b, for the whole rows among the bytes there are. */
  method WholeRows(size: nat, bytes: nat) returns (k: nat)
    requires size > 0
    ensures Rows(size, k) <= bytes < Rows(size, k) + size
  {
    k := bytes / size;
    RowsIsProduct(size, k);
  }

  /** inflate writes behind the carried bytes. */
  method Append(buffer: array<byte>, p: nat, output: seq<byte>)
    requires p + |output| <= buffer.Length
    modifies buffer
    ensures buffer[..p + |output|] == old(buffer[..])[..p] + output
  {
    forall k | 0 <= k < |output| {
      buffer[p + k] := output[k];
    }
  }

  /** The bytes after the whole rows of a block are those after the whole rows of all the data. */
  lemma {:induction false} RestOfBlock(data: seq<byte>, start: nat, carried: seq<byte>, output: seq<byte>,
                                       block: seq<byte>, filtered: nat)
    requires start + |carried| == |data| && carried == data[start..]
    requires filtered <= |carried| + |output| <= |block| && block[..|carried| + |output|] == carried + output
    ensures (data + output)[start + filtered..] == block[filtered..|carried| + |output|]
  {
    var all := carried + output;
    assert (data + output)[start..] == all;
    assert all[filtered..] == block[..|all|][filtered..];
    SlicePrefix(block, |all|, filtered, |all|);
  }

  /** The rows filtered, what is left of the block is carried on. */
  lemma {:induction false} CarriedOn(filter: Filter, f: Format, w: nat, prev0: seq<nat>, data: seq<byte>, rows: nat,
                                     extra: nat, buffer: seq<byte>, prev: seq<nat>, before: seq<Pixel>, a: Area,
                                     now: seq<Pixel>, more: seq<byte>, block: seq<byte>, k: nat, extra': nat,
                                     buffer': seq<byte>, now': seq<Pixel>)
    requires Carrying(filter, f, w, prev0, data, rows, extra, buffer, prev, before, a, now)
    requires extra + |more| <= |block| && block[..extra + |more|] == buffer[..extra] + more
    requires var size := filter.RowSize(f, w);
             && Rows(size, k) + extra' == extra + |more| && extra' < size && extra' <= |buffer'|
             && buffer'[..extra'] == block[Rows(size, k)..Rows(size, k) + extra']
    requires now' == Blit(now, a.(y := a.y + rows), Filtered(filter, f, prev, block, w, k))
    ensures Carrying(filter, f, w, prev0, data + more, rows + k, extra', buffer',
                     After(filter, f, prev, block, w, k), before, a, now')
  {
    hide Rows, Blit, Filtered, After, Filter.RowSize;
    var size := filter.RowSize(f, w);
    Carried(filter, f, w, prev0, data, rows, extra, buffer, prev, before, a, now, more, block, k);
    RestOfBlock(data, Rows(size, rows), buffer[..extra], more, block, Rows(size, k));
  }

  /** The first number of rows that is too many: one more than the framebuffer has, or for rows that
      thisRow does not hold just one. */
  function RowLimit(filter: Filter, w: nat, y: nat, height: nat): nat
    requires y <= height
  {
    if filter.Spills(w) then 1 else height - y + 1
  }

  /** One turn of the inner loop after inflate: filter the whole rows, move the rest to the front. */
  method FilterBlock(client: RfbClient, buffer: array<byte>, prevRow: array<nat>, filter: Filter, f: Format, w: nat,
                     rx: nat, ry: nat, rows0: nat, extra0: nat, output: seq<byte>,
                     ghost prev0: seq<nat>, ghost data: seq<byte>, ghost before: seq<Pixel>)
    returns (overrun: bool, rows: nat, extra: nat)
    requires client.Valid() && client.frameBuffer != null && filter.Valid(f) && filter.Predictable(f, w)
    requires prevRow.Length == PrevLength(f) && client.frameBuffer != prevRow && extra0 + |output| <= buffer.Length
    requires rx + w <= client.width && w > 0 && buffer.Length >= 4
    requires ry <= client.height && rows0 < RowLimit(filter, w, ry, client.height)
    requires Carrying(filter, f, w, prev0, data, rows0, extra0, buffer[..], PrevRow(filter, prevRow, w), before,
                      Area(client.width, rx, ry, w), client.Screen())
    modifies buffer, prevRow, client.frameBuffer
    ensures overrun <==> rows >= RowLimit(filter, w, ry, client.height)
    ensures overrun ==> Rows(filter.RowSize(f, w), rows) <= |data + output|
    ensures !overrun ==>
              && extra < filter.RowSize(f, w)
              && Carrying(filter, f, w, prev0, data + output, rows, extra, buffer[..],
                          PrevRow(filter, prevRow, w), before, Area(client.width, rx, ry, w), client.Screen())
  {
    hide Rows, Blit, Filtered, After, Carrying, Filter.RowSize;
    var size := filter.RowSize(f, w);
    ghost var carried, prev := buffer[..], PrevRow(filter, prevRow, w);
    ghost var now, a := client.Screen(), Area(client.width, rx, ry, w);
    BlockFits(filter, f, w, prev0, data, rows0, extra0, carried, prev, before, a, now);
    Append(buffer, extra0, output);
    var numRows := WholeRows(size, extra0 + |output|);
    rows, extra := rows0 + numRows, 0;
    RowsAdd(size, rows0, numRows);
    if ry + rows > client.height {
      return true, rows, extra;
    }
    ghost var block := buffer[..];
    overrun := FilterRows(client, buffer, prevRow, filter, f, w, rx, ry + rows0, numRows);
    if overrun {
      return;
    }
    var filtered := RowOffset(size, numRows);
    extra := extra0 + |output| - filtered;
    if extra > 0 {
      Memcpy(buffer, 0, filtered, extra);
    }
    assert buffer[..extra] == block[filtered..filtered + extra];
    CarriedOn(filter, f, w, prev0, data, rows0, extra0, carried, prev, before, a, now, output, block, numRows, extra,
              buffer[..], client.Screen());
  }

  lemma {:induction false} BlockFits(filter: Filter, f: Format, w: nat, prev0: seq<nat>, data: seq<byte>, rows: nat,
                                     extra: nat, buffer: seq<byte>, prev: seq<nat>, before: seq<Pixel>, a: Area,
                                     now: seq<Pixel>)
    requires Carrying(filter, f, w, prev0, data, rows, extra, buffer, prev, before, a, now)
    ensures extra < filter.RowSize(f, w) && Rows(filter.RowSize(f, w), rows) + extra == |data|
    ensures filter.Remembers(prev, w)
  {
    hide Rows, Blit, Filtered, Filter.RowSize;
  }

  /** RFB_BUFFER_SIZE * bitsPixel / (bitsPixel + BPP) & 0xFFFFFFFC */
  function InflateSize(filter: Filter, f: Format): nat
    requires f.Valid()
  {
    var bits := filter.BitsPixel(f);
    BUFFER_SIZE * bits / (bits + f.bpp) / 4 * 4
  }

  /** How much inflate may fill, for every format and filter. */
  lemma {:induction false} InflateSizes(filter: Filter, f: Format)
    requires filter.Valid(f)
    ensures filter.Copy? || filter.Gradient? ==> InflateSize(filter, f) == 153600
    ensures filter.Copy24? || filter.Gradient24? ==> InflateSize(filter, f) == 131656
    ensures filter.TwoColours? ==>
              InflateSize(filter, f) == if f.bpp == 8 then 34132 else if f.bpp == 16 then 18068 else 9308
    ensures filter.Colours? ==>
              InflateSize(filter, f) == if f.bpp == 8 then 153600 else if f.bpp == 16 then 102400 else 61440
  {
    hide InflateSize;
    if f.bpp == 8 {
      InflateSizes8(filter, f);
    } else if f.bpp == 16 {
      InflateSizes16(filter, f);
    } else {
      InflateSizes32(filter, f);
    }
  }

  lemma {:induction false} InflateSizes8(filter: Filter, f: Format)
    requires filter.Valid(f) && f.bpp == 8
    ensures InflateSize(filter, f) == if filter.TwoColours? then 34132 else 153600
  {
  }

  lemma {:induction false} InflateSizes16(filter: Filter, f: Format)
    requires filter.Valid(f) && f.bpp == 16
    ensures InflateSize(filter, f) == if filter.TwoColours? then 18068 else if filter.Colours? then 102400 else 153600
  {
  }

  lemma {:induction false} InflateSizes32(filter: Filter, f: Format)
    requires filter.Valid(f) && f.bpp == 32
    ensures InflateSize(filter, f) ==
            match filter
            case TwoColours(_) => 9308
            case Colours(_) => 61440
            case Copy => 153600
            case Gradient => 153600
            case _ => 131656
  {
  }

  lemma {:induction false} InflateSizeFits(filter: Filter, f: Format)
    requires filter.Valid(f)
    ensures 9308 <= InflateSize(filter, f) <= BUFFER_SIZE
  {
    hide InflateSize;
    InflateSizes(filter, f);
  }

  /** A row as wide as the format allows fits what inflate may fill, and so does any row whose
      predictions are kept. */
  lemma {:induction false} RowFitsBuffer(filter: Filter, f: Format, w: nat)
    requires filter.Valid(f) && (w <= 2048 || (filter.Predicts() && filter.Predictable(f, w)))
    ensures filter.RowSize(f, w) <= InflateSize(filter, f)
  {
    hide InflateSize, Rows;
    InflateSizeFits(filter, f);
    RowsIsProduct(f.bpp / 8, w);
    if w <= 2048 {
      WordsFit(f.bpp / 8, w);
    } else {
      GradientSize(filter, f);
    }
  }

  lemma {:induction false} GradientSize(filter: Filter, f: Format)
    requires filter.Valid(f) && filter.Gradient24?
    ensures InflateSize(filter, f) >= PrevLength(f)
  {
    hide InflateSize;
    InflateSizes(filter, f);
  }

  lemma {:induction false} WordsFit(n: nat, w: nat)
    requires n <= 4 && w <= 2048
    ensures n * w <= 8192
  {
  }

  lemma {:induction false} NothingCarried(filter: Filter, f: Format, w: nat, prev: seq<nat>, buffer: seq<byte>,
                                          before: seq<Pixel>, a: Area)
    requires filter.Valid(f) && filter.Remembers(prev, w) && a.w == w && filter.RowSize(f, w) > 0
    ensures Carrying(filter, f, w, prev, [], 0, 0, buffer, prev, before, a, before)
  {
    hide Rows, Blit, Filtered, After;
    FilteredNone(filter, f, prev, [], w);
    BlitNone(before, a);
  }

  /** Exactly one number of whole rows is in the data. */
  lemma {:induction false} RowCount(size: nat, data: nat, rows: nat, extra: nat, rh: nat)
    requires extra < size && Rows(size, rows) + extra == data
    ensures rows == rh <==> Rows(size, rh) <= data < Rows(size, rh + 1)
    ensures rows > rh <==> Rows(size, rh + 1) <= data
  {
    hide Rows;
    RowsNext(size, rh);
    if rows < rh {
      RowsMonotonic(size, rows, rh);
    } else if rows > rh {
      RowsMonotonic(size, rh + 1, rows);
    }
  }

  /** What zlib makes of the next `length` bytes of the input, after those fed before. */
  function Inflated(zs: Inflater, fed: seq<byte>, compressed: seq<byte>): (data: seq<byte>)
    requires Streams(zs.inflated, zs.breaks)
  {
    assert zs.inflated(fed) <= zs.inflated(fed + compressed);
    zs.inflated(fed + compressed)[|zs.inflated(fed)|..]
  }

  /** The data is rh whole rows, and perhaps a part of one more. */
  predicate IsRows(size: nat, data: nat, rh: nat) {
    Rows(size, rh) <= data < Rows(size, rh) + (if size == 0 then 1 else size)
  }

  /** How many of `length` bytes are read, of those that are there: all, or whole portions. */
  function Taken(length: nat, there: nat): nat {
    if length <= there then length else there / ZLIB_BUFFER_SIZE * ZLIB_BUFFER_SIZE
  }

  /** The result is Overrun exactly if zlib makes at least `tooMany` bytes of those read, as far as it
      accepts them. */
  ghost predicate RunsOverAt(status: Status, zs: Inflater, fed: seq<byte>, input: seq<byte>, length: nat, tooMany: nat)
  {
    && Streams(zs.inflated, zs.breaks) && Taken(length, |input|) <= |input|
    && var taken := input[..Taken(length, |input|)];
       && (status.Overrun? ==> tooMany <= |Inflated(zs, fed, taken)|)
       && (!zs.breaks(fed + taken) ==> (status.Overrun? <==> tooMany <= |Inflated(zs, fed, taken)|))
  }

  /** The inflate loops. Whatever pieces it is read and inflated in, the data is what zlib makes of the
      next `length` bytes. If they are there and zlib accepts them, the result is success exactly when
      the data is rh rows that thisRow holds; and then just those bytes are consumed and the screen is
      as if the filter had been applied to all the data at once. The rows run over exactly if there is
      one too many in what was read. */
  method InflateRows(client: RfbClient, zs: Inflater, buffer: array<byte>, prevRow: array<nat>, filter: Filter,
                     f: Format, rx: nat, ry: nat, rw: nat, rh: nat, length: nat)
    returns (status: Status)
    requires client.Valid() && client.frameBuffer != null && client.CheckRect(rx, ry, rw, rh) && rw > 0
    requires filter.Valid(f) && filter.Predictable(f, rw) && prevRow.Length == PrevLength(f)
    requires buffer.Length == BUFFER_SIZE && client.frameBuffer != prevRow && filter.RowSize(f, rw) > 0
    requires zs.Valid() && zs.Drained()
    modifies client`input, client.frameBuffer, zs, buffer, prevRow
    ensures zs.active == old(zs.active)
    ensures filter.RowSize(f, rw) > InflateSize(filter, f) ==> status.Failed?
    ensures Inflates(zs, old(zs.fed), old(client.input), length) && filter.RowSize(f, rw) <= InflateSize(filter, f) ==>
              (status.Done? <==>
                 && IsRows(filter.RowSize(f, rw), |Inflated(zs, old(zs.fed), old(client.input)[..length])|, rh)
                 && rh < RowLimit(filter, rw, ry, client.height))
    ensures status.Done? ==>
              && Inflates(zs, old(zs.fed), old(client.input), length)
              && client.input == old(client.input)[length..]
              && zs.Valid() && zs.Drained() && zs.fed == old(zs.fed) + old(client.input)[..length]
              && var data := Inflated(zs, old(zs.fed), old(client.input)[..length]);
                 && IsRows(filter.RowSize(f, rw), |data|, rh) && rh < RowLimit(filter, rw, ry, client.height)
                 && client.Screen() == Blit(old(client.Screen()), Area(client.width, rx, ry, rw),
                                            Filtered(filter, f, old(PrevRow(filter, prevRow, rw)), data, rw, rh))
    ensures filter.RowSize(f, rw) <= InflateSize(filter, f) ==>
              RunsOverAt(status, zs, old(zs.fed), old(client.input), length,
                         Rows(filter.RowSize(f, rw), RowLimit(filter, rw, ry, client.height)))
  {
    hide Rows, Blit, Filtered, After, Carrying, Streams, Fed, Inflates, Inflated, IsRows, InflateSize, Filter.RowSize,
         RunsOverAt, RowLimit, Portions, Taken;
    ghost var before, prev0, a := client.Screen(), PrevRow(filter, prevRow, rw), Area(client.width, rx, ry, rw);
    ghost var input, fed0, data: seq<byte> := client.input, zs.fed, [];
    var bufferSize, rowSize := InflateSize(filter, f), filter.RowSize(f, rw);
    ghost var limit := RowLimit(filter, rw, ry, client.height);
    InflateSizeFits(filter, f);
    if rowSize > bufferSize {
      status := Failed;
      return;
    }
    var compressedLen: nat, rows: nat, extra: nat := length, 0, 0;
    NothingCarried(filter, f, rw, prev0, buffer[..], before, a);
    NothingFed(zs, input);
    LimitIsPositive(filter, rw, ry, client.height);
    FirstPortion(length);
    while compressedLen > 0
      invariant client.Valid() && extra < rowSize && zs.active == old(zs.active) && zs.Valid() && zs.Drained()
      invariant compressedLen <= length && rows < limit && Portions(length - compressedLen, length)
      invariant Fed(zs, fed0, zs.fed, zs.handed, data, input, client.input, length - compressedLen)
      invariant Carrying(filter, f, rw, prev0, data, rows, extra, buffer[..], PrevRow(filter, prevRow, rw), before, a,
                         client.Screen())
    {
      var portionLen := Min(compressedLen, ZLIB_BUFFER_SIZE);
      status, rows, extra, data :=
        InflateTurn(client, zs, buffer, prevRow, filter, f, rw, rx, ry, bufferSize, portionLen, rows, extra,
                    data, prev0, before, fed0, input, length - compressedLen, length, rh);
      if !status.Done? {
        return;
      }
      compressedLen := compressedLen - portionLen;
    }
    AllFed(zs, fed0, zs.fed, zs.handed, data, input, client.input, length);
    RowsBelow(filter, f, rw, prev0, data, rows, extra, buffer[..], PrevRow(filter, prevRow, rw), before, a,
              client.Screen(), limit);
    RowsHeld(filter, f, rw, prev0, data, rows, extra, buffer[..], PrevRow(filter, prevRow, rw), before, a,
             client.Screen(), rh);
    status := if rows != rh then Failed else Done;
    NotTooMuch(status, zs, fed0, zs.fed, zs.handed, data, input, client.input, length, Rows(rowSize, limit));
  }

  /** One turn of the outer loop: read a portion of the bytes and inflate it. Done means to go on. */
  method InflateTurn(client: RfbClient, zs: Inflater, buffer: array<byte>, prevRow: array<nat>, filter: Filter,
                     f: Format, w: nat, rx: nat, ry: nat, bufferSize: nat, portionLen: nat, rows0: nat, extra0: nat,
                     ghost data0: seq<byte>, ghost prev0: seq<nat>, ghost before: seq<Pixel>, ghost fed0: seq<byte>,
                     ghost input: seq<byte>, ghost n: nat, ghost length: nat, ghost rh: nat)
    returns (status: Status, rows: nat, extra: nat, ghost data: seq<byte>)
    requires client.Valid() && client.frameBuffer != null && rx + w <= client.width && w > 0
    requires ry <= client.height && rows0 < RowLimit(filter, w, ry, client.height)
    requires filter.Valid(f) && filter.Predictable(f, w) && prevRow.Length == PrevLength(f)
    requires client.frameBuffer != prevRow
    requires extra0 < filter.RowSize(f, w) <= bufferSize <= buffer.Length && buffer.Length >= 4
    requires zs.Valid() && zs.Drained() && Fed(zs, fed0, zs.fed, zs.handed, data0, input, client.input, n)
    requires Portions(n, length) && n < length && portionLen == Min(length - n, ZLIB_BUFFER_SIZE)
    requires Carrying(filter, f, w, prev0, data0, rows0, extra0, buffer[..], PrevRow(filter, prevRow, w), before,
                      Area(client.width, rx, ry, w), client.Screen())
    modifies client`input, client.frameBuffer, zs`fed, zs`handed, buffer, prevRow
    ensures !status.Done? ==>
              var size, limit := filter.RowSize(f, w), RowLimit(filter, w, ry, client.height);
              && RunsOverAt(status, zs, fed0, input, length, Rows(size, limit))
              && (Inflates(zs, fed0, input, length) ==>
                    !(IsRows(size, |Inflated(zs, fed0, input[..length])|, rh) && rh < limit))
    ensures status.Done? ==>
              && zs.Valid() && zs.Drained()
              && Fed(zs, fed0, zs.fed, zs.handed, data, input, client.input, n + portionLen)
              && Portions(n + portionLen, length)
              && extra < filter.RowSize(f, w) && rows < RowLimit(filter, w, ry, client.height)
              && Carrying(filter, f, w, prev0, data, rows, extra, buffer[..], PrevRow(filter, prevRow, w), before,
                          Area(client.width, rx, ry, w), client.Screen())
  {
    hide Rows, Blit, Filtered, After, Carrying, Streams, Fed, Inflates, Inflated, IsRows, Filter.RowSize,
         RunsOverAt, RowLimit, Portions, Taken;
    rows, extra, data := rows0, extra0, data0;
    ghost var left, size, limit := client.input, filter.RowSize(f, w), RowLimit(filter, w, ry, client.height);
    RowsBelow(filter, f, w, prev0, data, rows, extra, buffer[..], PrevRow(filter, prevRow, w), before,
              Area(client.width, rx, ry, w), client.Screen(), limit);
    var ok, portion := client.ReadFromRFBServer(portionLen);
    if !ok {
      TooShort(zs, fed0, zs.fed, zs.handed, data, input, left, n, portionLen, length, Rows(size, limit));
      return Failed, rows, extra, data;
    }
    PortionFed(zs, fed0, zs.fed, zs.handed, data, input, left, n, portionLen);
    NextPortion(n, portionLen, length);
    zs.Feed(portion);
    var overrun;
    ok, overrun, rows, extra, data :=
      InflatePortion(client, zs, buffer, prevRow, filter, f, w, rx, ry, bufferSize, rows, extra,
                     data, prev0, before, fed0, input, n + portionLen);
    if overrun {
      RowsMonotonic(size, limit, rows);
      TooMuch(zs, fed0, zs.fed, zs.handed, data, input, client.input, n + portionLen, length, size, limit, rh);
      return Overrun, rows, extra, data;
    }
    if !ok {
      Broken(zs, fed0, zs.fed, zs.handed, data, input, client.input, n + portionLen, length, Rows(size, limit));
      return Failed, rows, extra, data;
    }
    status := Done;
  }

  lemma {:induction false} FirstPortion(length: nat)
    ensures Portions(0, length)
  {
  }

  lemma {:induction false} NextPortion(n: nat, portion: nat, length: nat)
    requires Portions(n, length) && n < length && portion == Min(length - n, ZLIB_BUFFER_SIZE)
    ensures Portions(n + portion, length)
  {
  }

  lemma {:induction false} LimitIsPositive(filter: Filter, w: nat, y: nat, height: nat)
    requires y <= height
    ensures RowLimit(filter, w, y, height) > 0
  {
  }

  /** The inner loop: inflate the portion just fed, until zlib leaves room. */
  method InflatePortion(client: RfbClient, zs: Inflater, buffer: array<byte>, prevRow: array<nat>, filter: Filter,
                        f: Format, w: nat, rx: nat, ry: nat, bufferSize: nat, rows0: nat, extra0: nat,
                        ghost data0: seq<byte>, ghost prev0: seq<nat>, ghost before: seq<Pixel>, ghost fed0: seq<byte>,
                        ghost input: seq<byte>, ghost n: nat)
    returns (ok: bool, overrun: bool, rows: nat, extra: nat, ghost data: seq<byte>)
    requires client.Valid() && client.frameBuffer != null && rx + w <= client.width && w > 0
    requires ry <= client.height && rows0 < RowLimit(filter, w, ry, client.height)
    requires filter.Valid(f) && filter.Predictable(f, w) && prevRow.Length == PrevLength(f) &&
             client.frameBuffer != prevRow
    requires extra0 < filter.RowSize(f, w) <= bufferSize <= buffer.Length && buffer.Length >= 4
    requires zs.Valid() && Fed(zs, fed0, zs.fed, zs.handed, data0, input, client.input, n)
    requires Carrying(filter, f, w, prev0, data0, rows0, extra0, buffer[..], PrevRow(filter, prevRow, w), before,
                      Area(client.width, rx, ry, w), client.Screen())
    modifies client.frameBuffer, zs`handed, buffer, prevRow
    ensures zs.Valid() && Fed(zs, fed0, zs.fed, zs.handed, data, input, client.input, n)
    ensures overrun ==> rows >= RowLimit(filter, w, ry, client.height) && Rows(filter.RowSize(f, w), rows) <= |data|
    ensures !overrun ==> if ok then zs.Drained() else zs.breaks(zs.fed)
    ensures !overrun ==>
              && extra < filter.RowSize(f, w) && rows < RowLimit(filter, w, ry, client.height)
              && Carrying(filter, f, w, prev0, data, rows, extra, buffer[..], PrevRow(filter, prevRow, w), before,
                          Area(client.width, rx, ry, w), client.Screen())
  {
    hide Rows, Blit, Filtered, After, Carrying, Streams, Fed;
    ok, overrun, rows, extra, data := true, false, rows0, extra0, data0;
    var full := true;
    while full
      invariant ok && !overrun && client.Valid() && extra < filter.RowSize(f, w) && zs.Valid()
      invariant Fed(zs, fed0, zs.fed, zs.handed, data, input, client.input, n)
      invariant (!full ==> zs.Drained()) && rows < RowLimit(filter, w, ry, client.height)
      invariant Carrying(filter, f, w, prev0, data, rows, extra, buffer[..], PrevRow(filter, prevRow, w), before,
                         Area(client.width, rx, ry, w), client.Screen())
      decreases |zs.inflated(zs.fed)| - zs.handed, full
    {
      ghost var handed := zs.handed;
      var err, output := zs.Inflate(bufferSize - extra);
      if err == StreamError {
        ok := false;
        return;
      }
      PieceHanded(zs, fed0, zs.fed, handed, data, input, client.input, n, output);
      if err == BufError {
        assert data + output == data;
        break;
      }
      full := |output| == bufferSize - extra;
      overrun, rows, extra :=
        FilterBlock(client, buffer, prevRow, filter, f, w, rx, ry, rows, extra, output, prev0, data, before);
      data := data + output;
      if overrun {
        return;
      }
    }
  }

  /** The bytes are there and zlib accepts them. */
  ghost predicate Inflates(zs: Inflater, fed: seq<byte>, input: seq<byte>, length: nat) {
    Streams(zs.inflated, zs.breaks) && length <= |input| && !zs.breaks(fed + input[..length])
  }

  /** n bytes of the input have been fed, and `data` is what was handed out since. */
  ghost predicate Fed(zs: Inflater, fed0: seq<byte>, fed: seq<byte>, handed: nat, data: seq<byte>,
                      input: seq<byte>, left: seq<byte>, n: nat)
  {
    && Streams(zs.inflated, zs.breaks)
    && n <= |input| && left == input[n..] && fed == fed0 + input[..n]
    && |zs.inflated(fed0)| <= handed <= |zs.inflated(fed)| && data == zs.inflated(fed)[|zs.inflated(fed0)|..handed]
  }

  lemma {:induction false} NothingFed(zs: Inflater, input: seq<byte>)
    requires zs.Valid() && zs.Drained()
    ensures Fed(zs, zs.fed, zs.fed, zs.handed, [], input, input, 0)
  {
    assert zs.fed + input[..0] == zs.fed;
  }

  lemma {:induction false} PortionFed(zs: Inflater, fed0: seq<byte>, fed: seq<byte>, handed: nat, data: seq<byte>,
                                      input: seq<byte>, left: seq<byte>, n: nat, portion: nat)
    requires Fed(zs, fed0, fed, handed, data, input, left, n) && portion <= |left|
    ensures Fed(zs, fed0, fed + left[..portion], handed, data, input, left[portion..], n + portion)
  {
    assert input[..n + portion] == input[..n] + left[..portion];
    assert fed0 + input[..n + portion] == fed + left[..portion];
    var less, more := zs.inflated(fed), zs.inflated(fed + left[..portion]);
    assert less <= more;
    assert less == more[..|less|];
  }

  lemma {:induction false} PieceHanded(zs: Inflater, fed0: seq<byte>, fed: seq<byte>, handed: nat, data: seq<byte>,
                                       input: seq<byte>, left: seq<byte>, n: nat, output: seq<byte>)
    requires Fed(zs, fed0, fed, handed, data, input, left, n)
    requires handed + |output| <= |zs.inflated(fed)| && output == zs.inflated(fed)[handed..handed + |output|]
    ensures Fed(zs, fed0, fed, handed + |output|, data + output, input, left, n)
  {
    hide Streams;
  }

  /** Bytes are read in portions, of which only the last may be short. */
  ghost predicate Portions(n: nat, length: nat) {
    n <= length && (n % ZLIB_BUFFER_SIZE == 0 || n == length)
  }

  /** What was fed is the beginning of what is taken. */
  lemma {:induction false} FedIsTaken(zs: Inflater, fed0: seq<byte>, fed: seq<byte>, handed: nat, data: seq<byte>,
                                      input: seq<byte>, left: seq<byte>, n: nat, length: nat)
    requires Fed(zs, fed0, fed, handed, data, input, left, n) && Portions(n, length)
    ensures var t := Taken(length, |input|); n <= t <= |input| && fed0 + input[..t] == fed + input[n..t]
  {
    hide Streams;
    var t := Taken(length, |input|);
    assert input[..t] == input[..n] + input[n..t];
  }

  lemma {:induction false} TooShort(zs: Inflater, fed0: seq<byte>, fed: seq<byte>, handed: nat, data: seq<byte>,
                                    input: seq<byte>, left: seq<byte>, n: nat, portion: nat, length: nat, tooMany: nat)
    requires Fed(zs, fed0, fed, handed, data, input, left, n) && Portions(n, length) && n < length
    requires portion == Min(length - n, ZLIB_BUFFER_SIZE) > |left|
    requires handed == |zs.inflated(fed)| && |data| < tooMany
    ensures !Inflates(zs, fed0, input, length)
    ensures RunsOverAt(Failed, zs, fed0, input, length, tooMany)
  {
    hide Streams;
    assert Taken(length, |input|) == n;
    FedIsTaken(zs, fed0, fed, handed, data, input, left, n, length);
  }

  lemma {:induction false} NotTooMuch(status: Status, zs: Inflater, fed0: seq<byte>, fed: seq<byte>, handed: nat,
                                      data: seq<byte>, input: seq<byte>, left: seq<byte>, length: nat, tooMany: nat)
    requires Fed(zs, fed0, fed, handed, data, input, left, length) && !status.Overrun?
    requires handed == |zs.inflated(fed)| && |data| < tooMany
    ensures RunsOverAt(status, zs, fed0, input, length, tooMany)
  {
    hide Streams;
  }

  lemma {:induction false} Broken(zs: Inflater, fed0: seq<byte>, fed: seq<byte>, handed: nat, data: seq<byte>,
                                  input: seq<byte>, left: seq<byte>, n: nat, length: nat, tooMany: nat)
    requires Fed(zs, fed0, fed, handed, data, input, left, n) && Portions(n, length) && zs.breaks(fed)
    ensures !Inflates(zs, fed0, input, length)
    ensures RunsOverAt(Failed, zs, fed0, input, length, tooMany)
  {
    FedIsTaken(zs, fed0, fed, handed, data, input, left, n, length);
  }

  /** Rows that are too many stay so. */
  lemma {:induction false} TooMuch(zs: Inflater, fed0: seq<byte>, fed: seq<byte>, handed: nat, data: seq<byte>,
                                   input: seq<byte>, left: seq<byte>, n: nat, length: nat, size: nat, limit: nat,
                                   rh: nat)
    requires Fed(zs, fed0, fed, handed, data, input, left, n) && Portions(n, length) && size > 0
    requires Rows(size, limit) <= |data|
    ensures Inflates(zs, fed0, input, length) ==>
              !(IsRows(size, |Inflated(zs, fed0, input[..length])|, rh) && rh < limit)
    ensures RunsOverAt(Overrun, zs, fed0, input, length, Rows(size, limit))
  {
    hide Rows;
    FedIsTaken(zs, fed0, fed, handed, data, input, left, n, length);
    var t := Taken(length, |input|);
    assert zs.inflated(fed) <= zs.inflated(fed + input[n..t]);
    if rh < limit {
      RowsNext(size, rh);
      RowsMonotonic(size, rh + 1, limit);
    }
  }

  lemma {:induction false} AllFed(zs: Inflater, fed0: seq<byte>, fed: seq<byte>, handed: nat, data: seq<byte>,
                                  input: seq<byte>, left: seq<byte>, length: nat)
    requires Fed(zs, fed0, fed, handed, data, input, left, length)
    requires handed == |zs.inflated(fed)| && !zs.breaks(fed)
    ensures Inflates(zs, fed0, input, length) && data == Inflated(zs, fed0, input[..length])
    ensures left == input[length..] && fed == fed0 + input[..length]
  {
  }

  lemma {:induction false} RowsBelow(filter: Filter, f: Format, w: nat, prev0: seq<nat>, data: seq<byte>, rows: nat,
                                     extra: nat, buffer: seq<byte>, prev: seq<nat>, before: seq<Pixel>, a: Area,
                                     now: seq<Pixel>, limit: nat)
    requires Carrying(filter, f, w, prev0, data, rows, extra, buffer, prev, before, a, now) && rows < limit
    ensures |data| < Rows(filter.RowSize(f, w), limit)
  {
    hide Rows, Blit, Filtered, After;
    RowCount(filter.RowSize(f, w), |data|, rows, extra, limit - 1);
  }

  lemma {:induction false} RowsHeld(filter: Filter, f: Format, w: nat, prev0: seq<nat>, data: seq<byte>, rows: nat,
                                    extra: nat, buffer: seq<byte>, prev: seq<nat>, before: seq<Pixel>, a: Area,
                                    now: seq<Pixel>, rh: nat)
    requires Carrying(filter, f, w, prev0, data, rows, extra, buffer, prev, before, a, now)
    ensures rows == rh <==> IsRows(filter.RowSize(f, w), |data|, rh)
    ensures rows == rh ==> now == Blit(before, a, Filtered(filter, f, prev0, data, w, rh))
  {
    hide Rows, Blit, Filtered, After;
    RowCount(filter.RowSize(f, w), |data|, rows, extra, rh);
    RowsNext(filter.RowSize(f, w), rh);
  }
}
