/** The sending side of Tight rectangles of rows, after include/rfbproto.h: every image has bytes that
    send it. */
module TightSender {
  import opened Bytes
  import opened Bits
  import opened Area
  import opened VncViewer
  import opened TightFormat
  import opened TightFilter
  import opened TightInflate
  import opened TightEncode
  import opened Tight

  /** A palette filter for the colours sent in bs; entries beyond them do not matter. */
  function PaletteFilter(f: Format, bs: seq<byte>, count: nat): Filter
    requires Rows(ColourSize(f), count) <= |bs| && 2 <= count <= 256
  {
    var palette := seq(if count == 2 then 2 else 256, i requires 0 <= i =>
                         if i < count then ColourAt(f, bs, count, i) else 0);
    if count == 2 then TwoColours(palette) else Colours(palette)
  }

  function ColourAt(f: Format, bs: seq<byte>, count: nat, i: nat): Pixel
    requires Rows(ColourSize(f), count) <= |bs| && i < count
  {
    hide Rows;
    RowsNext(ColourSize(f), i);
    RowsMonotonic(ColourSize(f), i + 1, count);
    ColourSent(f, bs, i)
  }

  /** The three headers that name a filter. */
  lemma {:induction false} Headers(f: Format, bs: seq<byte>, count: nat)
    requires f.Valid() && 2 <= count <= 256 && |bs| == Rows(ColourSize(f), count)
    ensures CopyFilter(f).Valid(f) && HeaderSays([0], f, true, CopyFilter(f), 1)
    ensures GradientFilter(f).Valid(f) && HeaderSays([2], f, true, GradientFilter(f), 1)
    ensures PaletteFilter(f, bs, count).Valid(f)
    ensures var header := [1, count - 1] + bs; HeaderSays(header, f, true, PaletteFilter(f, bs, count), |header|)
  {
    hide Rows;
    var header, palette := [1, count - 1] + bs, PaletteFilter(f, bs, count).palette;
    assert header[2..] == bs;
    forall i: nat | i < count
      ensures ColourHeld(f, palette, bs, i)
    {
      RowsNext(ColourSize(f), i);
      RowsMonotonic(ColourSize(f), i + 1, count);
    }
  }

  /** What follows a header does not change what it says. */
  lemma {:induction false} HeaderAlone(header: seq<byte>, more: seq<byte>, f: Format, filter: Filter)
    requires filter.Valid(f) && HeaderSays(header, f, true, filter, |header|)
    ensures HeaderSays(header + more, f, true, filter, |header|)
    ensures (filter.TwoColours? || filter.Colours?) ==> PaletteSize(header + more) == PaletteSize(header)
  {
    hide Rows, ColourSent;
    if header[0] == 1 {
      var count, bs := PaletteSize(header), header[2..];
      assert (header + more)[2..] == bs + more;
      forall i: nat | i < count
        ensures ColourHeld(f, filter.palette, bs + more, i)
      {
        assert ColourHeld(f, filter.palette, bs, i);
        SameColour(f, bs, more, i);
      }
    }
  }

  lemma {:induction false} SameColour(f: Format, bs: seq<byte>, more: seq<byte>, i: nat)
    requires f.Valid() && Rows(ColourSize(f), i + 1) <= |bs|
    ensures ColourSent(f, bs + more, i) == ColourSent(f, bs, i)
  {
    hide Rows, Pack, FromBytes;
    RowsNext(ColourSize(f), i);
    var p := Rows(ColourSize(f), i);
    assert (bs + more)[p..p + ColourSize(f)] == bs[p..p + ColourSize(f)];
  }

  /** The data of a rectangle: few bytes as they are; more either flagged, after their length, or
      compressed, if there are bytes that zlib makes them of. */
  function DataBytes(data: seq<byte>, compressed: seq<byte>): seq<byte>
    requires |compressed| < 0x40_0000 && (compressed == [] ==> |data| <= BUFFER_SIZE)
  {
    if |data| < TIGHT_MIN_TO_COMPRESS then data
    else if compressed == [] then CompactLen(|data|) + data
    else CompactLen(|compressed|) + compressed
  }

  /** A control byte for an explicit filter, by way of stream k if zlib is used, that resets the
      streams in `reset`. */
  function ControlByte(k: nat, reset: set<nat>, data: seq<byte>, compressed: seq<byte>): byte
    requires k < 4
  {
    (if |data| >= TIGHT_MIN_TO_COMPRESS && compressed == [] then 0xE0 else 0x40 + 0x10 * k) + Flags(reset)
  }

  function Flags(reset: set<nat>): (flags: nat)
    ensures flags < 16
  {
    (if 0 in reset then 1 else 0) + (if 1 in reset then 2 else 0) +
    (if 2 in reset then 4 else 0) + (if 3 in reset then 8 else 0)
  }

  /** Just those streams are reset, whatever the other bits. */
  lemma {:induction false} ResetsAsked(b: byte, reset: set<nat>, k: nat)
    requires b % 16 == Flags(reset) && k < 4
    ensures Resets(b, k) <==> k in reset
  {
    hide Resets;
    FlagValues(b);
    LowBits(b / 16, if 0 in reset then 1 else 0, if 1 in reset then 1 else 0, if 2 in reset then 1 else 0,
            if 3 in reset then 1 else 0);
  }

  lemma {:induction false} LowBits(high: nat, e0: nat, e1: nat, e2: nat, e3: nat)
    requires e0 < 2 && e1 < 2 && e2 < 2 && e3 < 2
    ensures var b := 16 * high + 8 * e3 + 4 * e2 + 2 * e1 + e0;
            b % 2 == e0 && b / 2 % 2 == e1 && b / 4 % 2 == e2 && b / 8 % 2 == e3
  {
    var b := 16 * high + 8 * e3 + 4 * e2 + 2 * e1 + e0;
    DivModUnique(b, 2, 8 * high + 4 * e3 + 2 * e2 + e1, e0);
    DivModUnique(b, 4, 4 * high + 2 * e3 + e2, 2 * e1 + e0);
    DivModUnique(b, 8, 2 * high + e3, 4 * e2 + 2 * e1 + e0);
    DivModUnique(b / 2, 2, 4 * high + 2 * e3 + e2, e1);
    DivModUnique(b / 4, 2, 2 * high + e3, e2);
    DivModUnique(b / 8, 2, high, e3);
  }

  function TightBytes(k: nat, reset: set<nat>, header: seq<byte>, data: seq<byte>, compressed: seq<byte>): seq<byte>
    requires k < 4 && |compressed| < 0x40_0000 && (compressed == [] ==> |data| <= BUFFER_SIZE)
  {
    [ControlByte(k, reset, data, compressed)] + (header + DataBytes(data, compressed))
  }

  lemma {:induction false} Parts(k: nat, reset: set<nat>, header: seq<byte>, data: seq<byte>, compressed: seq<byte>,
                                 rest: seq<byte>)
    requires k < 4 && |compressed| < 0x40_0000 && (compressed == [] ==> |data| <= BUFFER_SIZE)
    ensures var input, part := TightBytes(k, reset, header, data, compressed) + rest, DataBytes(data, compressed);
            && |input| >= 1 + |header| && input[1..] == header + (part + rest) && input[1 + |header|..] == part + rest
            && (part + rest)[|part|..] == rest
            && input[0] == ControlByte(k, reset, data, compressed)
  {
    hide ControlByte, DataBytes;
    var input, part := TightBytes(k, reset, header, data, compressed) + rest, DataBytes(data, compressed);
    assert input == [input[0]] + (header + (part + rest));
  }

  lemma {:induction false} Controls(k: nat, reset: set<nat>, data: seq<byte>, compressed: seq<byte>)
    requires k < 4
    ensures var b := ControlByte(k, reset, data, compressed);
            && ControlOf(b) == (if |data| >= TIGHT_MIN_TO_COMPRESS && compressed == [] then Control(4, true)
                                else Control(4 + k, false))
            && Explicit(b) && b % 16 == Flags(reset)
  {
    hide Flags;
  }

  /** What is fed to the stream. */
  function Compressed(data: seq<byte>, compressed: seq<byte>): seq<byte> {
    if |data| < TIGHT_MIN_TO_COMPRESS then [] else compressed
  }

  lemma {:induction false} DataReceived(zs: Inflater, fed: seq<byte>, data: seq<byte>, compressed: seq<byte>,
                                        stale: seq<byte>, rest: seq<byte>)
    requires Streams(zs.inflated, zs.breaks) && |stale| == BUFFER_SIZE && |compressed| < 0x40_0000
    requires if compressed == [] then |data| <= BUFFER_SIZE
             else !zs.breaks(fed + compressed) && zs.inflated(fed + compressed) == zs.inflated(fed) + data
    ensures var got := Receive(zs, fed, DataBytes(data, compressed) + rest, stale, |data|,
                               |data| >= TIGHT_MIN_TO_COMPRESS && compressed == []);
            && got.Bytes? && got.data == data && got.used == |DataBytes(data, compressed)|
            && got.fed == fed + Compressed(data, compressed)
  {
    hide Streams, Receive, CompactLen;
    if |data| < TIGHT_MIN_TO_COMPRESS {
      ReceiveFew(zs, fed, data, rest, stale, false);
    } else if compressed == [] {
      ReceiveFlagged(zs, fed, data, rest, stale);
      assert DataBytes(data, compressed) + rest == CompactLen(|data|) + (data + rest);
    } else {
      ReceiveCompressed(zs, fed, compressed, data, rest, stale);
      assert DataBytes(data, compressed) + rest == CompactLen(|compressed|) + (compressed + rest);
    }
  }

  /** Every image that a filter allows has bytes that send it, whatever the buffer holds: without zlib if
      the buffer has room for the data, and with zlib if it makes the data of some bytes. The control
      byte may reset any of the streams. */
  lemma {:induction false} AnyImage(zs: Inflater, fed: seq<byte>, k: nat, reset: set<nat>, f: Format, header: seq<byte>,
                                    filter: Filter, rows: seq<seq<nat>>, w: nat, compressed: seq<byte>,
                                    stale: seq<byte>, rest: seq<byte>)
    requires Streams(zs.inflated, zs.breaks) && |stale| == BUFFER_SIZE && k < 4 && |compressed| < 0x40_0000
    requires filter.Valid(f) && filter.Predictable(f, w) && HeaderSays(header, f, true, filter, |header|)
    requires ValidRows(filter, f, rows, w) && InPalette(filter, rows, PaletteSize(header))
    requires filter.RowSize(f, w) <= InflateSize(filter, f) && (filter.Strays(w) || filter.Spills(w) ==> rows == [])
    requires var data := EncodeRows(filter, f, Zeros(filter, w), rows, w);
             if compressed == [] then |data| <= BUFFER_SIZE
             else !zs.breaks(fed + compressed) && zs.inflated(fed + compressed) == zs.inflated(fed) + data
    ensures var data := EncodeRows(filter, f, Zeros(filter, w), rows, w);
            var input := TightBytes(k, reset, header, data, compressed) + rest;
            && Sends(zs, fed, input, stale, f, filter, |header|, rows, w, |rows|, rest)
            && FedAfter(zs, fed, input, stale, f, filter, |header|, w, |rows|) == fed + Compressed(data, compressed)
  {
    hide Rows, Streams, EncodeRows, ValidRows, HeaderSays, InPalette, Zeros, InflateSize, Receive, PaletteSize,
         DataBytes, TightBytes, ControlByte, ControlOf, Explicit, Filter.RowSize;
    var data := EncodeRows(filter, f, Zeros(filter, w), rows, w);
    RowsUndone(filter, f, Zeros(filter, w), rows, w);
    var part := DataBytes(data, compressed);
    Parts(k, reset, header, data, compressed, rest);
    Controls(k, reset, data, compressed);
    HeaderAlone(header, part + rest, f, filter);
    SameIndices(filter, rows, header, part + rest);
    DataReceived(zs, fed, data, compressed, stale, rest);
  }

  lemma {:induction false} SameIndices(filter: Filter, rows: seq<seq<nat>>, header: seq<byte>, more: seq<byte>)
    requires InPalette(filter, rows, PaletteSize(header))
    requires (filter.TwoColours? || filter.Colours?) ==> PaletteSize(header + more) == PaletteSize(header)
    ensures InPalette(filter, rows, PaletteSize(header + more))
  {
    hide PaletteSize;
  }
}
