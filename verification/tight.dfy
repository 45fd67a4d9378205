/** Tight rectangles: HandleTightBPP, InitFilterPaletteBPP and ReadCompactLen
    (src/encodings/tight.c). */
module Tight {
  import opened Bytes
  import opened Area
  import opened VncViewer
  import opened TightFormat
  import opened TightFilter
  import opened TightInflate
  import opened TightEncode

  const TIGHT_MIN_TO_COMPRESS: nat := 12

  /** Lengths in one to three bytes: seven bits, seven bits and eight bits, low ones first. */
  function CompactLen(n: nat): seq<byte>
    requires n < 0x40_0000
  {
    if n < 128 then [n]
    else if n < 16384 then [n % 128 + 128, n / 128]
    else [n % 128 + 128, n / 128 % 128 + 128, n / 16384]
  }

  /** The bytes of a length as the reader meets them. */
  lemma {:induction false} CompactBytes(n: nat, rest: seq<byte>)
    requires n < 0x40_0000
    ensures var bs := CompactLen(n) + rest;
            && |bs| > 0
            && (n < 128 ==> bs[0] == n && bs[1..] == rest)
            && (n >= 128 ==> |bs| > 1 && bs[0] == n % 128 + 128)
            && (128 <= n < 16384 ==> bs[1] == n / 128 && bs[1..][1..] == rest)
            && (n >= 16384 ==>
                  |bs| > 2 && bs[1] == n / 128 % 128 + 128 && bs[2] == n / 16384 && bs[1..][1..][1..] == rest)
    ensures n >= 16384 ==> n % 128 + n / 128 % 128 * 128 + n / 16384 * 16384 == n
  {
  }

  /** A length at the beginning of the bytes, and how many of them it takes. */
  datatype Length = NoLength | Length(n: nat, used: nat)

  function CompactRead(bs: seq<byte>): Length {
    if |bs| < 1 then NoLength
    else if bs[0] < 128 then Length(bs[0], 1)
    else if |bs| < 2 then NoLength
    else if bs[1] < 128 then Length(Combined(bs[0], bs[1], 0), 2)
    else if |bs| < 3 then NoLength
    else Length(Combined(bs[0], bs[1], bs[2]), 3)
  }

  function Combined(a: nat, b: nat, c: nat): nat {
    a % 128 + b % 128 * 128 + c * 16384
  }

  lemma {:induction false} CompactUndone(n: nat, rest: seq<byte>)
    requires n < 0x40_0000
    ensures CompactRead(CompactLen(n) + rest) == Length(n, |CompactLen(n)|)
  {
    hide CompactLen;
    CompactBytes(n, rest);
    CompactSize(n);
  }

  lemma {:induction false} CompactSize(n: nat)
    requires n < 0x40_0000
    ensures |CompactLen(n)| == if n < 128 then 1 else if n < 16384 then 2 else 3
  {
  }

  method ReadCompactLen(client: RfbClient) returns (len: int)
    modifies client`input
    ensures match CompactRead(old(client.input))
            case NoLength => len == -1
            case Length(n, used) => len == n && used <= |old(client.input)| && client.input == old(client.input)[used..]
  {
    ghost var input := client.input;
    var ok, bs := client.ReadFromRFBServer(1);
    if !ok {
      return -1;
    }
    var b: nat := bs[0];
    len := b % 128;
    if b >= 128 {
      ok, bs := client.ReadFromRFBServer(1);
      if !ok {
        return -1;
      }
      assert client.input == input[2..];
      b := bs[0];
      len := len + b % 128 * 128;
      if b >= 128 {
        ok, bs := client.ReadFromRFBServer(1);
        if !ok {
          return -1;
        }
        assert client.input == input[3..];
        b := bs[0];
        len := len + b * 16384;
      }
    }
  }

  /** Colours of three bytes each become words of four, in place and from the last one down: no
      byte still to be read is overwritten. */
  method ExpandPalette(tightPalette: array<byte>, count: nat, f: Format)
    requires tightPalette.Length == 256 * 4 && count <= 256
    modifies tightPalette
    ensures forall i :: 0 <= i < count ==>
              var c := old(tightPalette[..]);
              tightPalette[4 * i..4 * i + 4] == ToBytes(Pack(f, c[3 * i], c[3 * i + 1], c[3 * i + 2]), 4)
  {
    hide Pack, ToBytes;
    ghost var colours := tightPalette[..];
    var i: int := count - 1;
    while i >= 0
      invariant -1 <= i < count
      invariant forall k :: 0 <= k < 3 * (i + 1) ==> tightPalette[k] == colours[k]
      invariant forall k :: i < k < count ==>
                  tightPalette[4 * k..4 * k + 4] ==
                  ToBytes(Pack(f, colours[3 * k], colours[3 * k + 1], colours[3 * k + 2]), 4)
    {
      var word := ToBytes(Pack(f, tightPalette[3 * i], tightPalette[3 * i + 1], tightPalette[3 * i + 2]), 4);
      StoreWord(tightPalette, 4 * i, word);
      i := i - 1;
    }
  }

  method StoreWord(tightPalette: array<byte>, p: nat, word: seq<byte>)
    requires |word| == 4 && p + 4 <= tightPalette.Length
    modifies tightPalette
    ensures tightPalette[p..p + 4] == word
    ensures forall k :: 0 <= k < tightPalette.Length && !(p <= k < p + 4) ==> tightPalette[k] == old(tightPalette[k])
  {
    forall k | 0 <= k < 4 {
      tightPalette[p + k] := word[k];
    }
  }

  /** Bytes a palette colour takes. */
  function ColourSize(f: Format): nat {
    if f.CutZeros() then 3 else f.bpp / 8
  }

  /** Colour i of a palette as sent. */
  function ColourSent(f: Format, bs: seq<byte>, i: nat): Pixel
    requires Rows(ColourSize(f), i + 1) <= |bs|
  {
    var p := Rows(ColourSize(f), i);
    if f.CutZeros() then Pack(f, bs[p], bs[p + 1], bs[p + 2]) else FromBytes(bs[p..p + ColourSize(f)])
  }

  /** The stored palette holds the colours sent. */
  ghost predicate PaletteSent(f: Format, palette: seq<Pixel>, bs: seq<byte>, count: nat) {
    && count <= |palette| && Rows(ColourSize(f), count) <= |bs|
    && forall i: nat :: i < count ==> ColourHeld(f, palette, bs, i)
  }

  ghost predicate ColourHeld(f: Format, palette: seq<Pixel>, bs: seq<byte>, i: nat) {
    i < |palette| && Rows(ColourSize(f), i + 1) <= |bs| && palette[i] == ColourSent(f, bs, i)
  }

  /** InitFilterPaletteBPP. It succeeds exactly when the input holds a palette of at least two
      colours, and then it has consumed just that palette, and the filter uses its colours. */
  method InitFilterPalette(client: RfbClient, tightPalette: array<byte>, f: Format) returns (ok: bool, filter: Filter)
    requires f.Valid() && tightPalette.Length == 256 * 4
    modifies client`input, tightPalette
    ensures var input := old(client.input);
            && (ok <==> |input| > 0 && input[0] > 0 && 1 + Rows(ColourSize(f), (input[0] as int) + 1) <= |input|)
            && (ok ==>
                  var count := (input[0] as int) + 1;
                  && client.input == input[1 + Rows(ColourSize(f), count)..]
                  && filter.Valid(f) && (filter.TwoColours? <==> count == 2) && (filter.Colours? <==> count > 2)
                  && PaletteSent(f, filter.palette, input[1..], count))
  {
    hide Rows, RawPixels, FromBytes, ToBytes, Pack, PaletteSent;
    filter := Copy;
    var bs;
    ok, bs := client.ReadFromRFBServer(1);
    if !ok {
      return;
    }
    var count := (bs[0] as int) + 1;
    if count < 2 {
      return false, filter;
    }
    var size := RowOffset(ColourSize(f), count);
    ok, bs := client.ReadFromRFBServer(size);
    if !ok {
      return;
    }
    PaletteFits(f, count);
    forall k | 0 <= k < size {
      tightPalette[k] := bs[k];
    }
    ghost var sent := tightPalette[..];
    if f.CutZeros() {
      ExpandPalette(tightPalette, count, f);
    }
    var palette := RawPixels(tightPalette[..], f.bpp / 8, 256);
    PaletteStored(f, palette, sent, tightPalette[..], bs, old(client.input)[1..], count);
    if count == 2 {
      FirstTwo(f, palette, old(client.input)[1..]);
      filter := TwoColours(palette[..2]);
    } else {
      filter := Colours(palette);
    }
  }

  lemma {:induction false} PaletteFits(f: Format, count: nat)
    requires f.Valid() && count <= 256
    ensures Rows(ColourSize(f), count) <= 1024 && Rows(f.bpp / 8, 256) <= 1024
  {
    hide Rows;
    RowsIsProduct(ColourSize(f), count);
    RowsIsProduct(f.bpp / 8, 256);
  }

  lemma {:induction false} FirstTwo(f: Format, palette: seq<Pixel>, input: seq<byte>)
    requires PaletteSent(f, palette, input, 2)
    ensures PaletteSent(f, palette[..2], input, 2)
  {
    hide Rows, FromBytes, Pack, ColourSent;
    forall i: nat | i < 2
      ensures ColourHeld(f, palette[..2], input, i)
    {
      assert ColourHeld(f, palette, input, i);
    }
  }

  lemma {:induction false} PaletteStored(f: Format, palette: seq<Pixel>, sent: seq<byte>, stored: seq<byte>,
                                         bs: seq<byte>, input: seq<byte>, count: nat)
    requires f.Valid() && count <= 256 && |sent| == |stored| == 1024
    requires Rows(ColourSize(f), count) == |bs| <= |input| && |bs| <= |sent| && bs == input[..|bs|] &&
             sent[..|bs|] == bs
    requires Rows(f.bpp / 8, 256) <= 1024 && palette == RawPixels(stored, f.bpp / 8, 256)
    requires if !f.CutZeros() then stored == sent
             else forall i :: 0 <= i < count ==>
               stored[4 * i..4 * i + 4] == ToBytes(Pack(f, sent[3 * i], sent[3 * i + 1], sent[3 * i + 2]), 4)
    ensures PaletteSent(f, palette, input, count)
  {
    hide Rows, FromBytes, Pack, ToBytes, RawPixels;
    forall i: nat | i < count
      ensures ColourHeld(f, palette, input, i)
    {
      ColourStored(f, palette, sent, stored, bs, input, count, i);
    }
  }

  lemma {:induction false} ColourStored(f: Format, palette: seq<Pixel>, sent: seq<byte>, stored: seq<byte>,
                                        bs: seq<byte>, input: seq<byte>, count: nat, i: nat)
    requires f.Valid() && i < count <= 256 && |sent| == |stored| == 1024
    requires Rows(ColourSize(f), count) == |bs| <= |input| && |bs| <= |sent| && bs == input[..|bs|] &&
             sent[..|bs|] == bs
    requires Rows(f.bpp / 8, 256) <= 1024 && palette == RawPixels(stored, f.bpp / 8, 256)
    requires if !f.CutZeros() then stored == sent
             else stored[4 * i..4 * i + 4] == ToBytes(Pack(f, sent[3 * i], sent[3 * i + 1], sent[3 * i + 2]), 4)
    ensures Rows(ColourSize(f), i + 1) <= |input| && palette[i] == ColourSent(f, input, i)
  {
    hide Rows, FromBytes, Pack, ToBytes, RawPixels;
    var size, p := ColourSize(f), Rows(ColourSize(f), i);
    RowsNext(size, i);
    RowsMonotonic(size, i + 1, count);
    RawPixelsAt(stored, f.bpp / 8, 256, i);
    if f.CutZeros() {
      RowsIsProduct(3, i);
      RowsIsProduct(4, i);
      var word := Pack(f, sent[3 * i], sent[3 * i + 1], sent[3 * i + 2]);
      LoadIsLow(word, 4);
      PackFits(f, sent[3 * i], sent[3 * i + 1], sent[3 * i + 2], 4);
      assert sent[..|bs|][p] == input[p] && sent[..|bs|][p + 1] == input[p + 1] && sent[..|bs|][p + 2] == input[p + 2];
    } else {
      SlicePrefix(sent, |bs|, p, p + size);
      SlicePrefix(input, |bs|, p, p + size);
    }
  }

  /** tightPrevRow at the start of a rectangle. */
  function Zeros(filter: Filter, w: nat): (prev: seq<nat>)
    ensures filter.Remembers(prev, w) && forall t :: 0 <= t < |prev| ==> prev[t] == 0
  {
    if filter.Predicts() then seq(3 * w, _ => 0) else []
  }

  /** What there is to be filtered: bytes, how many of the input they were made of, and what the zlib
      stream has been fed then. */
  datatype Received = Missing | Bytes(data: seq<byte>, used: nat, fed: seq<byte>)

  /** The data of a rectangle of `total` bytes: sent as they are, or after their length if `flagged`,
      or compressed. With too few bytes flagged, what the buffer held follows them. */
  function Receive(zs: Inflater, fed: seq<byte>, input: seq<byte>, stale: seq<byte>, total: nat,
                   flagged: bool): Received
    requires Streams(zs.inflated, zs.breaks) && |stale| == BUFFER_SIZE
  {
    if total < TIGHT_MIN_TO_COMPRESS then
      if total <= |input| then Bytes(input[..total], total, fed) else Missing
    else
      match CompactRead(input)
      case NoLength => Missing
      case Length(n, used) =>
        var bs := if used <= |input| then input[used..] else [];
        if n == 0 || n > |bs| then Missing
        else if flagged then
          if n > BUFFER_SIZE then Missing
          else Bytes((bs[..n] + stale[n..])[..Min(total, BUFFER_SIZE)], used + n, fed)
        else if zs.breaks(fed + bs[..n]) then Missing
        else Bytes(Inflated(zs, fed, bs[..n]), used + n, fed + bs[..n])
  }

  /** Few bytes are received as they are. */
  lemma {:induction false} ReceiveFew(zs: Inflater, fed: seq<byte>, bs: seq<byte>, rest: seq<byte>, stale: seq<byte>,
                                      flagged: bool)
    requires Streams(zs.inflated, zs.breaks) && |stale| == BUFFER_SIZE && |bs| < TIGHT_MIN_TO_COMPRESS
    ensures Receive(zs, fed, bs + rest, stale, |bs|, flagged) == Bytes(bs, |bs|, fed)
  {
    hide Streams;
  }

  /** Flagged bytes are received as they are, after their length. */
  lemma {:induction false} ReceiveFlagged(zs: Inflater, fed: seq<byte>, bs: seq<byte>, rest: seq<byte>,
                                          stale: seq<byte>)
    requires Streams(zs.inflated, zs.breaks) && |stale| == BUFFER_SIZE && TIGHT_MIN_TO_COMPRESS <= |bs| <= BUFFER_SIZE
    ensures Receive(zs, fed, CompactLen(|bs|) + (bs + rest), stale, |bs|, true) ==
            Bytes(bs, |CompactLen(|bs|)| + |bs|, fed)
  {
    hide Streams, CompactLen, CompactRead;
    CompactUndone(|bs|, bs + rest);
    Split(CompactLen(|bs|), bs + rest);
    Split(bs, rest);
    assert (bs + stale[|bs|..])[..|bs|] == bs;
  }

  /** Compressed bytes, after their length, are received as what zlib makes of them. */
  lemma {:induction false} ReceiveCompressed(zs: Inflater, fed: seq<byte>, compressed: seq<byte>, bs: seq<byte>,
                                             rest: seq<byte>, stale: seq<byte>)
    requires Streams(zs.inflated, zs.breaks) && |stale| == BUFFER_SIZE && TIGHT_MIN_TO_COMPRESS <= |bs|
    requires 0 < |compressed| < 0x40_0000 && !zs.breaks(fed + compressed)
    requires zs.inflated(fed + compressed) == zs.inflated(fed) + bs
    ensures Receive(zs, fed, CompactLen(|compressed|) + (compressed + rest), stale, |bs|, false) ==
            Bytes(bs, |CompactLen(|compressed|)| + |compressed|, fed + compressed)
  {
    hide Streams, CompactLen, CompactRead;
    CompactUndone(|compressed|, compressed + rest);
    Split(CompactLen(|compressed|), compressed + rest);
    Split(compressed, rest);
  }

  method StoreBytes(buffer: array<byte>, bs: seq<byte>)
    requires |bs| <= buffer.Length
    modifies buffer
    ensures buffer[..|bs|] == bs && buffer[|bs|..] == old(buffer[|bs|..])
  {
    forall k | 0 <= k < |bs| {
      buffer[k] := bs[k];
    }
  }

  /** Whether rows run over thisRow, the buffer or the framebuffer. Rows that thisRow does not hold do
      so as soon as one is filtered; others if the buffer cannot have held all the bytes, or if there
      are more rows than the framebuffer has. */
  ghost predicate RowsRunOver(status: Status, zs: Inflater, fed: seq<byte>, input: seq<byte>, filter: Filter, f: Format,
                              a: Area, height: nat, rh: nat, flagged: bool)
    requires Streams(zs.inflated, zs.breaks) && filter.Valid(f) && a.y <= height
  {
    var size := filter.RowSize(f, a.w);
    var total := Rows(size, rh);
    var length := CompactRead(input);
    if total < TIGHT_MIN_TO_COMPRESS || length.NoLength? || length.n == 0 then !status.Overrun?
    else if flagged then
      status.Overrun? <==>
        length.used + length.n <= |input| && length.n <= BUFFER_SIZE && (filter.Spills(a.w) || total > BUFFER_SIZE)
    else if size > InflateSize(filter, f) then !status.Overrun?
    else
      && length.used <= |input|
      && RunsOverAt(status, zs, fed, input[length.used..], length.n, Rows(size, RowLimit(filter, a.w, a.y, height)))
  }

  /** How a rectangle of filtered rows ends. Stray columns apart, it succeeds exactly if the bytes are
      there, the data is rh rows and thisRow holds them; then just those bytes are consumed, and the
      rectangle shows what the filter makes of all the data at once. */
  ghost predicate Outcome(status: Status, zs: Inflater, fed: seq<byte>, fed': seq<byte>, input: seq<byte>,
                          input': seq<byte>, stale: seq<byte>, prev: seq<nat>, filter: Filter, f: Format,
                          before: seq<Pixel>, now: seq<Pixel>, a: Area, height: nat, rh: nat, flagged: bool)
    requires Streams(zs.inflated, zs.breaks) && |stale| == BUFFER_SIZE && |prev| == 3 && filter.Valid(f)
    requires a.y + rh <= height
  {
    var size := filter.RowSize(f, a.w);
    if filter.Strays(a.w) then
      && (status == if RunsOver(a.stride, height, a.x, a.y, rh) then Overrun else Done)
      && (status.Done? ==>
            && input' == input && fed' == fed
            && now == Blit(before, StrayArea(a.stride, a.x, a.y), Filled(StrayPixel(filter, f, prev, stale[..4]), rh)))
    else
      var got := Receive(zs, fed, input, stale, Rows(size, rh), flagged);
      && (got.Bytes? && size <= InflateSize(filter, f) ==>
            (status.Done? <==> IsRows(size, |got.data|, rh) && (filter.Spills(a.w) ==> rh == 0)))
      && RowsRunOver(status, zs, fed, input, filter, f, a, height, rh, flagged)
      && (status.Done? ==>
            && got.Bytes? && IsRows(size, |got.data|, rh) && (filter.Spills(a.w) ==> rh == 0)
            && got.used <= |input| && input' == input[got.used..] && fed' == got.fed
            && now == Blit(before, a, Filtered(filter, f, Zeros(filter, a.w), got.data, a.w, rh)))
  }

  /** Filter a rectangle whose bytes are all in the buffer. */
  method FilterAll(client: RfbClient, buffer: array<byte>, prevRow: array<nat>, filter: Filter, f: Format,
                   rx: nat, ry: nat, rw: nat, rh: nat)
    requires client.Valid() && client.frameBuffer != null && client.CheckRect(rx, ry, rw, rh) && !filter.Strays(rw)
    requires filter.Valid(f) && filter.Predictable(f, rw) && prevRow.Length == PrevLength(f) &&
             client.frameBuffer != prevRow
    requires Rows(filter.RowSize(f, rw), rh) <= buffer.Length && buffer.Length >= 4
    requires filter.Spills(rw) ==> rh == 0
    modifies client.frameBuffer, prevRow
    ensures client.Screen() == Blit(old(client.Screen()), Area(client.width, rx, ry, rw),
                                    Filtered(filter, f, old(PrevRow(filter, prevRow, rw)),
                                             buffer[..Rows(filter.RowSize(f, rw), rh)], rw, rh))
  {
    hide Rows, Blit, Filtered, After;
    ghost var data := buffer[..Rows(filter.RowSize(f, rw), rh)];
    ghost var prev := PrevRow(filter, prevRow, rw);
    assert data + buffer[|data|..] == buffer[..];
    FilteredPrefix(filter, f, prev, data, buffer[|data|..], rw, rh);
    var overrun := FilterRows(client, buffer, prevRow, filter, f, rw, rx, ry, rh);
  }

  /** A rectangle of filtered rows, after the header. */
  method BasicRectangle(client: RfbClient, zs: Inflater, buffer: array<byte>, prevRow: array<nat>, filter: Filter,
                        f: Format, rx: nat, ry: nat, rw: nat, rh: nat, readUncompressed: bool)
    returns (status: Status)
    requires client.Valid() && client.frameBuffer != null && client.CheckRect(rx, ry, rw, rh)
    requires filter.Valid(f) && filter.Predictable(f, rw) && buffer.Length == BUFFER_SIZE &&
             prevRow.Length == PrevLength(f)
    requires client.frameBuffer != prevRow && PrevRow(filter, prevRow, rw) == Zeros(filter, rw) && zs.Ready()
    modifies client`input, client.frameBuffer, zs, buffer, prevRow
    ensures Outcome(status, zs, old(zs.Before()), zs.Before(), old(client.input), client.input, old(buffer[..]),
                    old(prevRow[..3]), filter, f, old(client.Screen()), client.Screen(), Area(client.width, rx, ry, rw),
                    client.height, rh, readUncompressed)
    ensures status.Done? ==> zs.Ready()
  {
    hide Rows, Blit, Filtered, Zeros, Inflated, IsRows, InflateSize, CompactRead, Streams, StrayPixel;
    if filter.Strays(rw) {
      assert buffer[..][..4] == buffer[..4];
      status := StrayRectangle(client, buffer, prevRow, filter, f, rx, ry, rh);
      return;
    }
    var size := RowOffset(filter.RowSize(f, rw), rh);
    if size < TIGHT_MIN_TO_COMPRESS {
      status := FewBytes(client, buffer, prevRow, filter, f, rx, ry, rw, rh, size);
      return;
    }
    status := ManyBytes(client, zs, buffer, prevRow, filter, f, rx, ry, rw, rh, size, readUncompressed);
  }

  /** The bytes come after their length. */
  method ManyBytes(client: RfbClient, zs: Inflater, buffer: array<byte>, prevRow: array<nat>, filter: Filter, f: Format,
                   rx: nat, ry: nat, rw: nat, rh: nat, size: nat, readUncompressed: bool)
    returns (status: Status)
    requires client.Valid() && client.frameBuffer != null && client.CheckRect(rx, ry, rw, rh) && !filter.Strays(rw)
    requires filter.Valid(f) && filter.Predictable(f, rw) && buffer.Length == BUFFER_SIZE &&
             prevRow.Length == PrevLength(f)
    requires client.frameBuffer != prevRow && PrevRow(filter, prevRow, rw) == Zeros(filter, rw) && zs.Ready()
    requires size == Rows(filter.RowSize(f, rw), rh) >= TIGHT_MIN_TO_COMPRESS
    modifies client`input, client.frameBuffer, zs, buffer, prevRow
    ensures Outcome(status, zs, old(zs.Before()), zs.Before(), old(client.input), client.input, old(buffer[..]),
                    old(prevRow[..3]), filter, f, old(client.Screen()), client.Screen(), Area(client.width, rx, ry, rw),
                    client.height, rh, readUncompressed)
    ensures status.Done? ==> zs.Ready()
  {
    hide Rows, Blit, Filtered, Zeros, Inflated, IsRows, InflateSize, CompactRead, Streams, Outcome;
    ghost var input, fed, stale, prev := client.input, zs.Before(), buffer[..], prevRow[..3];
    ghost var before, a := client.Screen(), Area(client.width, rx, ry, rw);
    var compressedLen := ReadCompactLen(client);
    if compressedLen <= 0 {
      NoBytesOutcome(zs, fed, zs.Before(), input, client.input, stale, prev, filter, f, before, before, a,
                     client.height, rh, readUncompressed);
      return Failed;
    }
    NonemptyRow(filter.RowSize(f, rw), rh);
    if readUncompressed {
      status := FlaggedBytes(client, buffer, prevRow, filter, f, rx, ry, rw, rh, size, compressedLen);
      FlaggedOutcome(status, zs, fed, input, client.input, stale, prev, filter, f, before, client.Screen(), a,
                     client.height, rh);
      return;
    }
    zs.Init();
    status := InflateRows(client, zs, buffer, prevRow, filter, f, rx, ry, rw, rh, compressedLen);
    InflatedOutcome(status, zs, fed, zs.fed, input, client.input, stale, prev, filter, f, before, client.Screen(), a,
                    client.height, rh);
  }

  lemma {:induction false} NoBytesOutcome(zs: Inflater, fed: seq<byte>, fed': seq<byte>, input: seq<byte>,
                                          input': seq<byte>, stale: seq<byte>, prev: seq<nat>, filter: Filter,
                                          f: Format, before: seq<Pixel>, now: seq<Pixel>, a: Area, height: nat, rh: nat,
                                          flagged: bool)
    requires Streams(zs.inflated, zs.breaks) && |stale| == BUFFER_SIZE && |prev| == 3 && filter.Valid(f)
    requires a.y + rh <= height && rh > 0
    requires !filter.Strays(a.w) && Rows(filter.RowSize(f, a.w), rh) >= TIGHT_MIN_TO_COMPRESS
    requires CompactRead(input).NoLength? || CompactRead(input).n == 0
    ensures Outcome(Failed, zs, fed, fed', input, input', stale, prev, filter, f, before, now, a, height, rh, flagged)
  {
    hide Rows, Blit, Filtered, Zeros, Inflated, IsRows, InflateSize, CompactRead, Streams;
  }

  lemma {:induction false} FlaggedOutcome(status: Status, zs: Inflater, fed: seq<byte>, input: seq<byte>,
                                          input': seq<byte>, stale: seq<byte>, prev: seq<nat>, filter: Filter,
                                          f: Format, before: seq<Pixel>, now: seq<Pixel>, a: Area, height: nat, rh: nat)
    requires Streams(zs.inflated, zs.breaks) && |stale| == BUFFER_SIZE && |prev| == 3 && filter.Valid(f)
    requires a.y + rh <= height && rh > 0
    requires !filter.Strays(a.w) && Rows(filter.RowSize(f, a.w), rh) >= TIGHT_MIN_TO_COMPRESS
    requires CompactRead(input).Length? && CompactRead(input).n > 0 && CompactRead(input).used <= |input|
    requires var n, left := CompactRead(input).n, input[CompactRead(input).used..];
             var total := Rows(filter.RowSize(f, a.w), rh);
             && (status.Done? <==> n <= BUFFER_SIZE && n <= |left| && total <= BUFFER_SIZE && !filter.Spills(a.w))
             && (status.Overrun? <==> n <= BUFFER_SIZE && n <= |left| && (total > BUFFER_SIZE || filter.Spills(a.w)))
             && (status.Done? ==>
                   && input' == left[n..]
                   && now == Blit(before, a, Filtered(filter, f, Zeros(filter, a.w), (left[..n] + stale[n..])[..total],
                                                      a.w, rh)))
    ensures Outcome(status, zs, fed, fed, input, input', stale, prev, filter, f, before, now, a, height, rh, true)
  {
    hide Rows, Blit, Filtered, Zeros, Inflated, InflateSize, CompactRead, Streams;
    if status.Done? {
      Dropped(input, CompactRead(input).used, CompactRead(input).n);
    }
  }

  lemma {:induction false} InflatedOutcome(status: Status, zs: Inflater, fed: seq<byte>, fed': seq<byte>,
                                           input: seq<byte>, input': seq<byte>, stale: seq<byte>, prev: seq<nat>,
                                           filter: Filter, f: Format, before: seq<Pixel>, now: seq<Pixel>, a: Area,
                                           height: nat, rh: nat)
    requires Streams(zs.inflated, zs.breaks) && |stale| == BUFFER_SIZE && |prev| == 3 && filter.Valid(f)
    requires a.y + rh <= height && rh > 0
    requires !filter.Strays(a.w) && Rows(filter.RowSize(f, a.w), rh) >= TIGHT_MIN_TO_COMPRESS
    requires CompactRead(input).Length? && CompactRead(input).n > 0 && CompactRead(input).used <= |input|
    requires var n, left, size := CompactRead(input).n, input[CompactRead(input).used..], filter.RowSize(f, a.w);
             && (size > InflateSize(filter, f) ==> status.Failed?)
             && (Inflates(zs, fed, left, n) && size <= InflateSize(filter, f) ==>
                   (status.Done? <==> IsRows(size, |Inflated(zs, fed, left[..n])|, rh) && !filter.Spills(a.w)))
             && (size <= InflateSize(filter, f) ==>
                   RunsOverAt(status, zs, fed, left, n, Rows(size, RowLimit(filter, a.w, a.y, height))))
             && (status.Done? ==>
                   && Inflates(zs, fed, left, n) && input' == left[n..] && fed' == fed + left[..n]
                   && IsRows(size, |Inflated(zs, fed, left[..n])|, rh) && !filter.Spills(a.w)
                   && now == Blit(before, a, Filtered(filter, f, Zeros(filter, a.w), Inflated(zs, fed, left[..n]), a.w,
                                                      rh)))
    ensures Outcome(status, zs, fed, fed', input, input', stale, prev, filter, f, before, now, a, height, rh, false)
  {
    hide Rows, Blit, Filtered, Zeros, Inflated, IsRows, InflateSize, CompactRead, Streams;
    if status.Done? {
      Dropped(input, CompactRead(input).used, CompactRead(input).n);
    }
  }

  /** Nothing is read for rows without pixels; the filter is called all the same. */
  method StrayRectangle(client: RfbClient, buffer: array<byte>, prevRow: array<nat>, filter: Filter, f: Format,
                        rx: nat, ry: nat, rh: nat)
    returns (status: Status)
    requires client.Valid() && client.frameBuffer != null && client.CheckRect(rx, ry, 0, rh) && filter.Strays(0)
    requires filter.Valid(f) && prevRow.Length == PrevLength(f) && client.frameBuffer != prevRow &&
             buffer.Length == BUFFER_SIZE
    modifies client`input, client.frameBuffer, buffer, prevRow
    ensures status == if RunsOver(client.width, client.height, rx, ry, rh) then Overrun else Done
    ensures status.Done? ==>
              && client.input == old(client.input)
              && client.Screen() == Blit(old(client.Screen()), StrayArea(client.width, rx, ry),
                                         Filled(StrayPixel(filter, f, old(prevRow[..3]), old(buffer[..4])), rh))
  {
    hide Rows, Blit, StrayPixel;
    var _, bs := client.ReadFromRFBServer(0);
    RowsIsProduct(filter.RowSize(f, 0), rh);
    RowsZero(f.bpp / 8);
    StoreBytes(buffer, bs);
    var overrun := FilterRows(client, buffer, prevRow, filter, f, 0, rx, ry, rh);
    status := if overrun then Overrun else Done;
  }

  /** Fewer than TIGHT_MIN_TO_COMPRESS bytes are sent as they are. */
  method FewBytes(client: RfbClient, buffer: array<byte>, prevRow: array<nat>, filter: Filter, f: Format,
                  rx: nat, ry: nat, rw: nat, rh: nat, size: nat)
    returns (status: Status)
    requires client.Valid() && client.frameBuffer != null && client.CheckRect(rx, ry, rw, rh) && !filter.Strays(rw)
    requires filter.Valid(f) && filter.Predictable(f, rw) && prevRow.Length == PrevLength(f) &&
             client.frameBuffer != prevRow
    requires size == Rows(filter.RowSize(f, rw), rh) <= buffer.Length && buffer.Length >= 4
    requires size < TIGHT_MIN_TO_COMPRESS
    modifies client`input, client.frameBuffer, buffer, prevRow
    ensures !status.Overrun? && (filter.Spills(rw) ==> rh == 0)
    ensures status.Done? <==> size <= |old(client.input)|
    ensures status.Done? ==>
              && client.input == old(client.input)[size..] && IsRows(filter.RowSize(f, rw), size, rh)
              && client.Screen() == Blit(old(client.Screen()), Area(client.width, rx, ry, rw),
                                         Filtered(filter, f, old(PrevRow(filter, prevRow, rw)),
                                                  old(client.input)[..size], rw, rh))
  {
    hide Rows, Blit, Filtered;
    if filter.Spills(rw) {
      NoSpilledRows(filter.RowSize(f, rw), rh);
    }
    var ok, bs := client.ReadFromRFBServer(size);
    if !ok {
      return Failed;
    }
    StoreBytes(buffer, bs);
    FilterAll(client, buffer, prevRow, filter, f, rx, ry, rw, rh);
    status := Done;
  }

  /** Bytes flagged as not compressed: `length` of them, whatever the rectangle needs. */
  method FlaggedBytes(client: RfbClient, buffer: array<byte>, prevRow: array<nat>, filter: Filter, f: Format,
                      rx: nat, ry: nat, rw: nat, rh: nat, size: nat, length: nat)
    returns (status: Status)
    requires client.Valid() && client.frameBuffer != null && client.CheckRect(rx, ry, rw, rh) && !filter.Strays(rw)
    requires filter.Valid(f) && filter.Predictable(f, rw) && prevRow.Length == PrevLength(f) &&
             client.frameBuffer != prevRow
    requires size == Rows(filter.RowSize(f, rw), rh) && buffer.Length == BUFFER_SIZE && rh > 0
    modifies client`input, client.frameBuffer, buffer, prevRow
    ensures var there := length <= BUFFER_SIZE && length <= |old(client.input)|;
            && (status.Done? <==> there && size <= BUFFER_SIZE && !filter.Spills(rw))
            && (status.Overrun? <==> there && (size > BUFFER_SIZE || filter.Spills(rw)))
    ensures status.Done? ==>
              && client.input == old(client.input)[length..] && IsRows(filter.RowSize(f, rw), size, rh)
              && client.Screen() == Blit(old(client.Screen()), Area(client.width, rx, ry, rw),
                                         Filtered(filter, f, old(PrevRow(filter, prevRow, rw)),
                                                  (old(client.input)[..length] + old(buffer[..])[length..])[..size], rw,
                                                  rh))
  {
    hide Rows, Blit, Filtered;
    if length > BUFFER_SIZE {
      return Failed;
    }
    var ok, bs := client.ReadFromRFBServer(length);
    if !ok {
      return Failed;
    }
    StoreBytes(buffer, bs);
    assert buffer[..] == bs + old(buffer[..])[length..];
    if size > buffer.Length || (filter.Predicts() && rw > 2048) {
      return Overrun;
    }
    FilterAll(client, buffer, prevRow, filter, f, rx, ry, rw, rh);
    status := Done;
  }

  lemma {:induction false} NonemptyRow(size: nat, rh: nat)
    requires Rows(size, rh) > 0
    ensures size > 0 && rh > 0
  {
    RowsIsProduct(size, rh);
  }

  lemma {:induction false} NoSpilledRows(size: nat, rh: nat)
    requires Rows(size, rh) < TIGHT_MIN_TO_COMPRESS <= size
    ensures rh == 0
  {
    hide Rows;
    RowsMonotonic(size, 0, rh);
  }

  /** comp_ctl after the four stream flags, and whether its bits say that zlib was not used. */
  datatype Control = Control(kind: nat, readUncompressed: bool)

  /** comp_ctl >> 4, without rfbTightNoZlib if all its bits are set. */
  function ControlOf(b: byte): Control {
    var high := b / 16;
    if high / 8 % 2 == 1 && high / 2 % 2 == 1 then Control(high - 10, true) else Control(high, false)
  }

  /** The filter without an explicit id, and for id 0. */
  function CopyFilter(f: Format): Filter {
    if f.CutZeros() then Copy24 else Copy
  }

  function GradientFilter(f: Format): Filter {
    if f.CutZeros() then Gradient24 else Gradient
  }

  lemma {:induction false} Dropped(input: seq<byte>, a: nat, b: nat)
    requires a + b <= |input|
    ensures input[a..][b..] == input[a + b..]
  {
  }

  /** What the bytes after the control byte say about the filter, and how many they are. */
  ghost predicate HeaderSays(input: seq<byte>, f: Format, explicit: bool, filter: Filter, used: nat) {
    if !explicit then filter == CopyFilter(f) && used == 0
    else if |input| == 0 || input[0] > 2 then false
    else if input[0] == 0 then filter == CopyFilter(f) && used == 1
    else if input[0] == 2 then filter == GradientFilter(f) && used == 1
    else
      && |input| > 1
      && var count := (input[1] as int) + 1;
         && count >= 2 && (if count == 2 then filter.TwoColours? else filter.Colours?)
         && PaletteSent(f, filter.palette, input[2..], count) && used == 2 + Rows(ColourSize(f), count)
  }

  /** The filter of a rectangle, set up for its first row. */
  method ChooseFilter(client: RfbClient, tightPalette: array<byte>, prevRow: array<nat>, f: Format, w: nat,
                      explicit: bool)
    returns (ok: bool, filter: Filter, ghost used: nat)
    requires f.Valid() && tightPalette.Length == 256 * 4 && prevRow.Length == PrevLength(f)
    modifies client`input, tightPalette, prevRow
    ensures ok ==>
              && filter.Valid(f) && (filter.Predictable(f, w) ==> PrevRow(filter, prevRow, w) == Zeros(filter, w))
              && (w == 0 ==> prevRow[..] == old(prevRow[..]))
              && HeaderSays(old(client.input), f, explicit, filter, used)
              && used <= |old(client.input)| && client.input == old(client.input)[used..]
    ensures !ok ==>
              forall other, n: nat ::
                !(HeaderSays(old(client.input), f, explicit, other, n) && n <= |old(client.input)|)
  {
    hide Rows, PaletteSent;
    ok, filter, used := true, CopyFilter(f), 0;
    if explicit {
      var bs;
      ok, bs := client.ReadFromRFBServer(1);
      if !ok || bs[0] > 2 {
        return false, filter, used;
      }
      used := 1;
      if bs[0] == 1 {
        ok, filter := InitFilterPalette(client, tightPalette, f);
        if ok {
          used := 2 + Rows(ColourSize(f), (old(client.input)[1] as int) + 1);
          Dropped(old(client.input), 1, 1);
          Dropped(old(client.input), 1, used - 1);
        }
      } else if bs[0] == 2 {
        filter := GradientFilter(f);
        forall k | 0 <= k < Min(3 * w, prevRow.Length) {
          prevRow[k] := 0;
        }
      }
    }
  }

  /** What a rectangle shows: one colour, or filtered rows. */
  datatype Content = Nothing | Fill(colour: Pixel) | FilteredRows(filter: Filter, used: nat)

  /** The colour of a solid rectangle, as sent. */
  function SolidColour(f: Format, bs: seq<byte>): Pixel
    requires ColourSize(f) <= |bs|
  {
    if f.CutZeros() then Pack(f, bs[0], bs[1], bs[2]) else FromBytes(bs[..ColourSize(f)])
  }

  /** A solid rectangle. */
  method FillSolid(client: RfbClient, f: Format, rx: nat, ry: nat, rw: nat, rh: nat) returns (ok: bool, colour: Pixel)
    requires client.Valid() && client.frameBuffer != null && client.CheckRect(rx, ry, rw, rh)
    requires f.Valid() && client.bitsPerPixel == f.bpp
    modifies client`input, client.frameBuffer
    ensures var input, size := old(client.input), ColourSize(f);
            && (ok <==> size <= |input|)
            && (ok ==>
                  && client.input == input[size..] && colour == SolidColour(f, input)
                  && client.Screen() == Blit(old(client.Screen()), Area(client.width, rx, ry, rw),
                                             Filled(Low(colour, f.bpp / 8), Rows(rw, rh))))
  {
    hide Rows, Blit, Low, Pack, FromBytes;
    colour := 0;
    var bs;
    ok, bs := client.ReadFromRFBServer(ColourSize(f));
    if ok {
      colour := if f.CutZeros() then Pack(f, bs[0], bs[1], bs[2]) else FromBytes(bs);
      client.FillRectangle(rx, ry, rw, rh, colour);
    }
  }

  /** Whether the control byte's flag for stream k is set: the stream is to be reset. */
  predicate Resets(b: byte, k: nat) {
    Bit(b, k) == 1
  }

  /** The flag of stream k is the bit of value 2^k. */
  lemma {:induction false} FlagValues(b: byte)
    ensures forall k :: 0 <= k < 4 ==> (Resets(b, k) <==> [b % 2, b / 2 % 2, b / 4 % 2, b / 8 % 2][k] == 1)
  {
    assert Bit(b, 1) == Bit(b / 2, 0);
    assert Bit(b, 2) == Bit(b / 2, 1) == Bit(b / 2 / 2, 0) && b / 2 / 2 == b / 4;
    assert Bit(b, 3) == Bit(b / 2, 2) == Bit(b / 2 / 2, 1) == Bit(b / 2 / 2 / 2, 0) && b / 2 / 2 / 2 == b / 8;
  }

  /** Whether the rectangle's rows may come out of stream k. */
  predicate Uses(b: byte, k: nat) {
    ControlOf(b).kind < 8 && k == ControlOf(b).kind % 4
  }

  predicate Explicit(b: byte) {
    ControlOf(b).kind / 4 % 2 == 1
  }

  ghost predicate AllReady(streams: seq<Inflater>)
    reads streams
  {
    |streams| == 4 && forall k :: 0 <= k < 4 ==> streams[k].Ready()
  }

  ghost predicate Distinct(streams: seq<Inflater>) {
    forall j, k :: 0 <= j < k < |streams| ==> streams[j] != streams[k]
  }

  /** inflateEnd for every active stream whose flag is set. */
  method ResetStreams(streams: seq<Inflater>, b: byte)
    requires AllReady(streams) && Distinct(streams)
    modifies streams
    ensures AllReady(streams)
    ensures forall k :: 0 <= k < 4 ==> streams[k].Before() == if Resets(b, k) then [] else old(streams[k].Before())
    ensures forall k :: 0 <= k < 4 ==>
              streams[k].Before() ==
              if [b % 2, b / 2 % 2, b / 4 % 2, b / 8 % 2][k] == 1 then [] else old(streams[k].Before())
  {
    hide Streams, ShiftedBits, Bit;
    var ctl: nat := b;
    NotShifted(b);
    for i := 0 to 4
      invariant AllReady(streams) && ShiftedBits(ctl, b, i)
      invariant forall k :: 0 <= k < i ==> streams[k].Before() == if Resets(b, k) then [] else old(streams[k].Before())
      invariant forall k :: i <= k < 4 ==> streams[k].Before() == old(streams[k].Before())
    {
      ShiftOnce(ctl, b, i);
      if ctl % 2 == 1 && streams[i].active {
        streams[i].End();
      }
      ctl := ctl / 2;
    }
    FlagValues(b);
  }

  ghost predicate ShiftedBits(ctl: nat, b: nat, i: nat) {
    forall k: nat :: Bit(ctl, k) == Bit(b, i + k)
  }

  lemma {:induction false} NotShifted(b: nat)
    ensures ShiftedBits(b, b, 0)
  {
    hide Bit;
  }

  lemma {:induction false} ShiftOnce(ctl: nat, b: nat, i: nat)
    requires ShiftedBits(ctl, b, i)
    ensures ctl % 2 == Bit(b, i) && ShiftedBits(ctl / 2, b, i + 1)
  {
    assert Bit(ctl, 0) == Bit(b, i + 0);
    forall k: nat
      ensures Bit(ctl / 2, k) == Bit(b, i + 1 + k)
    {
      assert Bit(ctl, k + 1) == Bit(b, i + (k + 1));
    }
  }

  /** Filters that differ at most in palette entries from the n-th on. */
  ghost predicate Alike(a: Filter, b: Filter, n: nat) {
    match a
    case TwoColours(p) =>
      b.TwoColours? && |p| == |b.palette| && forall i :: 0 <= i < n && i < |p| ==> p[i] == b.palette[i]
    case Colours(p) =>
      b.Colours? && |p| == |b.palette| && forall i :: 0 <= i < n && i < |p| ==> p[i] == b.palette[i]
    case _ => a == b
  }

  /** The colours of the palette in the header. */
  function PaletteSize(input: seq<byte>): nat {
    if |input| > 1 then (input[1] as int) + 1 else 0
  }

  /** The header determines the filter, but for entries its palette does not have. */
  lemma {:induction false} HeaderUnique(input: seq<byte>, f: Format, explicit: bool, a: Filter, m: nat, b: Filter,
                                        n: nat)
    requires a.Valid(f) && b.Valid(f)
    requires HeaderSays(input, f, explicit, a, m) && HeaderSays(input, f, explicit, b, n)
    ensures m == n && Alike(a, b, PaletteSize(input))
  {
    hide Rows, ColourSent;
    if explicit && |input| > 1 && input[0] == 1 {
      var count := PaletteSize(input);
      forall i: nat | i < count
        ensures a.palette[i] == b.palette[i]
      {
        assert ColourHeld(f, a.palette, input[2..], i) && ColourHeld(f, b.palette, input[2..], i);
      }
    }
  }

  /** Palette indices are those of the palette's colours. */
  ghost predicate InPalette(filter: Filter, rows: seq<seq<nat>>, n: nat) {
    filter.TwoColours? || filter.Colours? ==>
      forall j, x :: 0 <= j < |rows| && 0 <= x < |rows[j]| ==> rows[j][x] < n
  }

  lemma {:induction false} AlikeRows(a: Filter, b: Filter, n: nat, f: Format, prev: seq<nat>, rows: seq<seq<nat>>,
                                     w: nat)
    requires a.Valid(f) && b.Valid(f) && Alike(a, b, n) && InPalette(a, rows, n)
    requires ValidRows(a, f, rows, w) && a.Remembers(prev, w)
    ensures ValidRows(b, f, rows, w) && b.Remembers(prev, w)
    ensures EncodeRows(b, f, prev, rows, w) == EncodeRows(a, f, prev, rows, w)
    ensures ShownRows(b, f, rows, w) == ShownRows(a, f, rows, w)
  {
    hide Rows, Sent, SentWords;
    if (a.TwoColours? || a.Colours?) && rows != [] {
      var init, last := rows[..|rows| - 1], rows[|rows| - 1];
      assert ValidRow(a, f, last, w);
      AlikeRows(a, b, n, f, prev, init, w);
      forall j | 0 <= j < |rows|
        ensures ValidRow(b, f, rows[j], w)
      {
        assert ValidRow(a, f, rows[j], w);
      }
      assert ShownRow(b, f, last, w) == ShownRow(a, f, last, w);
    }
  }

  /** The input is a filtered rectangle that sends the image of the rows: a header that names the
      filter, then data that is received as the encoded rows. */
  ghost predicate Sends(zs: Inflater, fed: seq<byte>, input: seq<byte>, stale: seq<byte>, f: Format,
                        filter: Filter, used: nat, rows: seq<seq<nat>>, w: nat, h: nat, rest: seq<byte>)
    requires Streams(zs.inflated, zs.breaks) && |stale| == BUFFER_SIZE
  {
    && |input| > 0 && ControlOf(input[0]).kind < 8 && 1 + used <= |input|
    && filter.Valid(f) && filter.Predictable(f, w) && HeaderSays(input[1..], f, Explicit(input[0]), filter, used)
    && ValidRows(filter, f, rows, w) && |rows| == h && InPalette(filter, rows, PaletteSize(input[1..]))
    && filter.RowSize(f, w) <= InflateSize(filter, f) && (filter.Strays(w) || filter.Spills(w) ==> h == 0)
    && var got := Receive(zs, fed, input[1 + used..], stale, Rows(filter.RowSize(f, w), h),
                          ControlOf(input[0]).readUncompressed);
       && got.Bytes? && got.data == EncodeRows(filter, f, Zeros(filter, w), rows, w)
       && got.used <= |input[1 + used..]| && rest == input[1 + used..][got.used..]
  }

  /** What the stream has been fed once the data is received. */
  function FedAfter(zs: Inflater, fed: seq<byte>, input: seq<byte>, stale: seq<byte>, f: Format, filter: Filter,
                    used: nat, w: nat, h: nat): seq<byte>
    requires Streams(zs.inflated, zs.breaks) && |stale| == BUFFER_SIZE && 1 + used <= |input|
  {
    match Receive(zs, fed, input[1 + used..], stale, Rows(filter.RowSize(f, w), h),
                  ControlOf(input[0]).readUncompressed)
    case Bytes(_, _, fed') => fed'
    case Missing => fed
  }

  /** What a rectangle that sends an image comes to. */
  lemma {:induction false} ImageShown(status: Status, zs: Inflater, fed: seq<byte>, fed': seq<byte>, input: seq<byte>,
                                      input': seq<byte>, stale: seq<byte>, prev: seq<nat>, f: Format,
                                      before: seq<Pixel>, now: seq<Pixel>, a: Area, height: nat, rh: nat, got: Filter,
                                      m: nat, filter: Filter, used: nat, rows: seq<seq<nat>>, rest: seq<byte>)
    requires Streams(zs.inflated, zs.breaks) && |stale| == BUFFER_SIZE && |prev| == 3 && got.Valid(f)
    requires Sends(zs, fed, input, stale, f, filter, used, rows, a.w, rh, rest)
    requires HeaderSays(input[1..], f, Explicit(input[0]), got, m) && 1 + m <= |input| && a.y + rh <= height
    requires Outcome(status, zs, fed, fed', input[1 + m..], input', stale, prev, got, f, before, now, a, height, rh,
                     ControlOf(input[0]).readUncompressed)
    ensures status.Done? && input' == rest && now == Blit(before, a, ShownRows(filter, f, rows, a.w))
    ensures fed' == FedAfter(zs, fed, input, stale, f, filter, used, a.w, rh)
  {
    hide Rows, Blit, Filtered, Zeros, Inflated, InflateSize, CompactRead, Streams, EncodeRows, ShownRows, HeaderSays,
         ValidRows, InPalette, Receive, StrayPixel, RowsRunOver, Filter.RowSize, Alike;
    HeaderUnique(input[1..], f, Explicit(input[0]), filter, used, got, m);
    AlikeSizes(filter, got, PaletteSize(input[1..]), f, a.w);
    AlikeRows(filter, got, PaletteSize(input[1..]), f, Zeros(filter, a.w), rows, a.w);
    RowsUndone(got, f, Zeros(filter, a.w), rows, a.w);
    if got.Strays(a.w) {
      NoRowsStray(zs, fed, input[1 + m..], stale, f, filter, rows, before, a, StrayPixel(got, f, prev, stale[..4]),
                  ControlOf(input[0]).readUncompressed);
    }
  }

  lemma {:induction false} AlikeSizes(a: Filter, b: Filter, n: nat, f: Format, w: nat)
    requires a.Valid(f) && b.Valid(f) && Alike(a, b, n)
    ensures a.RowSize(f, w) == b.RowSize(f, w) && a.BitsPixel(f) == b.BitsPixel(f) && Zeros(a, w) == Zeros(b, w)
    ensures InflateSize(a, f) == InflateSize(b, f)
    ensures a.Predicts() == b.Predicts() && a.Strays(w) == b.Strays(w) && a.Spills(w) == b.Spills(w)
  {
  }

  /** Without rows nothing strays. */
  lemma {:induction false} NoRowsStray(zs: Inflater, fed: seq<byte>, input: seq<byte>, stale: seq<byte>, f: Format,
                                       filter: Filter, rows: seq<seq<nat>>, before: seq<Pixel>, a: Area, c: Pixel,
                                       flagged: bool)
    requires Streams(zs.inflated, zs.breaks) && |stale| == BUFFER_SIZE && filter.Valid(f) && rows == []
    requires ValidRows(filter, f, rows, a.w)
    ensures Receive(zs, fed, input, stale, Rows(filter.RowSize(f, a.w), 0), flagged) == Bytes([], 0, fed)
    ensures input[0..] == input
    ensures Blit(before, StrayArea(a.stride, a.x, a.y), Filled(c, 0)) == before ==
            Blit(before, a, ShownRows(filter, f, rows, a.w))
  {
    hide Streams;
    RowsZero(filter.RowSize(f, a.w));
    assert Filled(c, 0) == [];
  }

  /** Only a stray column depends on what the row of predictions held. */
  lemma {:induction false} PredictionsCleared(status: Status, zs: Inflater, fed: seq<byte>, fed': seq<byte>,
                                              input: seq<byte>, input': seq<byte>, stale: seq<byte>, prev: seq<nat>,
                                              prev0: seq<nat>, filter: Filter, f: Format, before: seq<Pixel>,
                                              now: seq<Pixel>, a: Area, height: nat, rh: nat, flagged: bool)
    requires Streams(zs.inflated, zs.breaks) && |stale| == BUFFER_SIZE && |prev| == |prev0| == 3 && filter.Valid(f)
    requires a.y + rh <= height
    requires Outcome(status, zs, fed, fed', input, input', stale, prev, filter, f, before, now, a, height, rh, flagged)
    requires a.w == 0 ==> prev == prev0
    ensures Outcome(status, zs, fed, fed', input, input', stale, prev0, filter, f, before, now, a, height, rh, flagged)
  {
    hide Rows, Blit, Filtered, Zeros, Inflated, IsRows, InflateSize, CompactRead, Streams, StrayPixel, Receive,
         RowsRunOver;
  }

  /** A rectangle that is decoded leaves everything outside it as it was, except for a gradient
      rectangle without columns: that one changes the screen exactly if the column it writes does not
      hold the pixel already. */
  lemma {:induction false} OutsideKept(zs: Inflater, fed: seq<byte>, fed': seq<byte>, input: seq<byte>,
                                       input': seq<byte>, stale: seq<byte>, prev: seq<nat>, filter: Filter, f: Format,
                                       before: seq<Pixel>, now: seq<Pixel>, a: Area, height: nat, rh: nat,
                                       flagged: bool, x: nat, y: nat)
    requires Streams(zs.inflated, zs.breaks) && |stale| == BUFFER_SIZE && |prev| == 3 && filter.Valid(f)
    requires a.x + a.w <= a.stride && a.y + rh <= height && |before| == Rows(a.stride, height)
    requires Outcome(Done, zs, fed, fed', input, input', stale, prev, filter, f, before, now, a, height, rh, flagged)
    requires x < a.stride && y < height && !(a.x <= x < a.x + a.w && a.y <= y < a.y + rh)
    ensures Rows(a.stride, y) + x < |before| == |now|
    ensures !filter.Strays(a.w) ==> now[Rows(a.stride, y) + x] == before[Rows(a.stride, y) + x]
    ensures filter.Strays(a.w) ==>
              (now == before <==>
                 Holding(before, StrayArea(a.stride, a.x, a.y), rh, StrayPixel(filter, f, prev, stale[..4])))
  {
    hide Rows, Blit, Filtered, Zeros, Inflated, InflateSize, CompactRead, Streams, StrayPixel, Receive, RowsRunOver;
    InsideRows(a.stride, height, x, y);
    if filter.Strays(a.w) {
      StrayColumnChanges(before, a, height, rh, StrayPixel(filter, f, prev, stale[..4]));
    } else {
      var got := Receive(zs, fed, input, stale, Rows(filter.RowSize(f, a.w), rh), flagged);
      var img := Filtered(filter, f, Zeros(filter, a.w), got.data, a.w, rh);
      BlitAt(before, a, img, x, y);
      CoversWhole(a, rh, x, y);
    }
  }

  lemma {:induction false} StrayColumnChanges(before: seq<Pixel>, a: Area, height: nat, rh: nat, c: Pixel)
    requires a.w == 0 && a.x <= a.stride && a.y + rh <= height && |before| == Rows(a.stride, height) && a.stride > 0
    requires !RunsOver(a.stride, height, a.x, a.y, rh)
    ensures var column := StrayArea(a.stride, a.x, a.y);
            Blit(before, column, Filled(c, rh)) == before <==> Holding(before, column, rh, c)
  {
    hide Rows, Blit, CursorAt, PixelOffset;
    var column := StrayArea(a.stride, a.x, a.y);
    forall k: nat | k < rh
      ensures PixelOffset(column, k) < |before|
    {
      StrayPlace(a.stride, height, a.x, a.y, k);
    }
    StrayChanges(before, column, rh, c);
  }

  /** A gradient rectangle whose rows tightPrevRow holds but thisRow does not. Without rows it succeeds;
      with some it does not, and runs over exactly if all flagged bytes are there, or if what zlib
      makes of the compressed ones, as far as they are there, is at least one row. */
  lemma {:induction false} WideGradient(status: Status, zs: Inflater, fed: seq<byte>, fed': seq<byte>, input: seq<byte>,
                                        input': seq<byte>, stale: seq<byte>, prev: seq<nat>, filter: Filter, f: Format,
                                        before: seq<Pixel>, now: seq<Pixel>, a: Area, height: nat, rh: nat,
                                        flagged: bool)
    requires Streams(zs.inflated, zs.breaks) && |stale| == BUFFER_SIZE && |prev| == 3 && filter.Valid(f)
    requires a.y + rh <= height && filter.Spills(a.w) && filter.Predictable(f, a.w)
    requires Outcome(status, zs, fed, fed', input, input', stale, prev, filter, f, before, now, a, height, rh, flagged)
    ensures rh == 0 ==> status.Done? && input' == input && fed' == fed && now == before
    ensures rh > 0 ==>
              && !status.Done?
              && var length := CompactRead(input);
                 if length.NoLength? || length.n == 0 then status.Failed?
                 else if flagged then status.Overrun? <==> length.used + length.n <= |input| && length.n <= BUFFER_SIZE
                 else
                   && length.used <= |input|
                   && RunsOverAt(status, zs, fed, input[length.used..], length.n, filter.RowSize(f, a.w))
  {
    hide Rows, Blit, Filtered, Zeros, Inflated, InflateSize, CompactRead, Streams, StrayPixel, RunsOverAt;
    var size := filter.RowSize(f, a.w);
    RowFitsBuffer(filter, f, a.w);
    RowsZero(size);
    if rh == 0 {
      FilteredNone(filter, f, Zeros(filter, a.w), [], a.w);
      BlitNone(before, a);
    } else {
      WideSize(filter, f, a.w);
      RowsMonotonic(size, 1, rh);
      RowsNext(size, 0);
    }
  }

  lemma {:induction false} WideSize(filter: Filter, f: Format, w: nat)
    requires filter.Valid(f) && filter.Spills(w) && filter.Predictable(f, w)
    ensures filter.RowSize(f, w) >= TIGHT_MIN_TO_COMPRESS
  {
  }

  /** The bytes 0x40 and 2 begin a gradient rectangle. With 24-bit pixels, one of 3000 columns and no
      rows takes no more bytes and succeeds. */
  lemma {:induction false} EmptyWideRectangle(status: Status, zs: Inflater, fed: seq<byte>, fed': seq<byte>,
                                              input': seq<byte>, stale: seq<byte>, prev: seq<nat>, filter: Filter,
                                              used: nat, f: Format, before: seq<Pixel>, now: seq<Pixel>, height: nat)
    requires Streams(zs.inflated, zs.breaks) && |stale| == BUFFER_SIZE && |prev| == 3 && filter.Valid(f) && f.CutZeros()
    requires HeaderSays([2], f, Explicit(0x40), filter, used) && ControlOf(0x40) == Control(4, false)
    requires Outcome(status, zs, fed, fed', [2][used..], input', stale, prev, filter, f, before, now,
                     Area(4000, 0, 0, 3000), height, 0, false)
    ensures filter.Predictable(f, 3000) && filter.Spills(3000)
    ensures status.Done? && input' == [] && now == before
  {
    hide Outcome, Streams;
    WideGradient(status, zs, fed, fed', [2][used..], input', stale, prev, filter, f, before, now,
                 Area(4000, 0, 0, 3000), height, 0, false);
  }

  /** A rectangle of rows, from the byte that names the filter on. */
  method FilteredRectangle(client: RfbClient, zs: Inflater, buffer: array<byte>, tightPalette: array<byte>,
                           prevRow: array<nat>, f: Format, rx: nat, ry: nat, rw: nat, rh: nat, control: Control,
                           ghost input: seq<byte>, ghost filter: Filter, ghost used: nat, ghost rows: seq<seq<nat>>,
                           ghost rest: seq<byte>, ghost wellFormed: bool)
    returns (status: Status, ghost content: Content)
    requires client.Valid() && client.frameBuffer != null && client.CheckRect(rx, ry, rw, rh) && zs.Ready()
    requires f.Valid() && client.bitsPerPixel == f.bpp && |input| > 0 && control == ControlOf(input[0])
    requires client.input == input[1..] && control.kind < 8
    requires buffer.Length == BUFFER_SIZE && tightPalette.Length == 256 * 4 && prevRow.Length == PrevLength(f)
    requires client.frameBuffer != prevRow && buffer != tightPalette
    requires wellFormed ==> Sends(zs, zs.Before(), input, buffer[..], f, filter, used, rows, rw, rh, rest)
    modifies client`input, client.frameBuffer, zs, buffer, tightPalette, prevRow
    ensures TightOutcome(status, content, zs, old(zs.Before()), zs.Before(), input, client.input, old(buffer[..]),
                         old(prevRow[..3]), f, old(client.Screen()), client.Screen(), Area(client.width, rx, ry, rw),
                         client.height, rh)
    ensures status.Done? ==> zs.Ready()
    ensures wellFormed ==>
              && status.Done? && client.input == rest && 1 + used <= |input|
              && zs.Before() == FedAfter(zs, old(zs.Before()), input, old(buffer[..]), f, filter, used, rw, rh)
              && client.Screen() == Blit(old(client.Screen()), Area(client.width, rx, ry, rw),
                                         ShownRows(filter, f, rows, rw))
  {
    hide Rows, Blit, HeaderSays, Outcome, Zeros, Streams, Sends, ShownRows, FedAfter;
    ghost var stale, prev0, before := buffer[..], prevRow[..3], client.Screen();
    content := Nothing;
    if wellFormed {
      HeaderSent(zs, zs.Before(), input, stale, f, filter, used, rows, rw, rh, rest);
    }
    var ok, chosen;
    ghost var m;
    ok, chosen, m := ChooseFilter(client, tightPalette, prevRow, f, rw, control.kind / 4 % 2 == 1);
    if !ok {
      return Failed, content;
    }
    Dropped(input, 1, m);
    content := FilteredRows(chosen, m);
    if !chosen.Predictable(f, rw) {
      if wellFormed {
        HeaderUnique(input[1..], f, Explicit(input[0]), filter, used, chosen, m);
      }
      return Overrun, content;
    }
    ghost var fed, prev, cleared := zs.Before(), prevRow[..3], prevRow[..];
    assert rw == 0 ==> prev == prev0 by {
      assert rw == 0 ==> cleared == old(prevRow[..]);
    }
    status := BasicRectangle(client, zs, buffer, prevRow, chosen, f, rx, ry, rw, rh, control.readUncompressed);
    ghost var a := Area(client.width, rx, ry, rw);
    PredictionsCleared(status, zs, fed, zs.Before(), input[1 + m..], client.input, stale, prev, prev0, chosen, f,
                       before, client.Screen(), a, client.height, rh, control.readUncompressed);
    if wellFormed {
      ImageShown(status, zs, fed, zs.Before(), input, client.input, stale, prev0, f, before, client.Screen(), a,
                 client.height, rh, chosen, m, filter, used, rows, rest);
    }
  }

  /** The header of a rectangle that sends an image. */
  lemma {:induction false} HeaderSent(zs: Inflater, fed: seq<byte>, input: seq<byte>, stale: seq<byte>, f: Format,
                                      filter: Filter, used: nat, rows: seq<seq<nat>>, w: nat, h: nat, rest: seq<byte>)
    requires Streams(zs.inflated, zs.breaks) && |stale| == BUFFER_SIZE
    requires Sends(zs, fed, input, stale, f, filter, used, rows, w, h, rest)
    ensures |input| > 0 && 1 + used <= |input| && used <= |input[1..]| && ControlOf(input[0]).kind < 8
    ensures filter.Valid(f) && filter.Predictable(f, w) && HeaderSays(input[1..], f, Explicit(input[0]), filter, used)
  {
    hide HeaderSays, Receive, ValidRows, Streams;
  }

  /** How a Tight rectangle within the framebuffer ends, from its control byte on. JPEG fails here, and so
      do unknown kinds. A solid rectangle succeeds exactly if its colour is there. Another one fails unless
      its header names a filter; if tightPrevRow does not hold its rows it runs over; else it has the
      outcome that the data received and the filter determine. */
  ghost predicate TightOutcome(status: Status, content: Content, zs: Inflater, fed: seq<byte>, fed': seq<byte>,
                               input: seq<byte>, input': seq<byte>, stale: seq<byte>, prev: seq<nat>, f: Format,
                               before: seq<Pixel>, now: seq<Pixel>, a: Area, height: nat, rh: nat)
    requires |input| > 0 && Streams(zs.inflated, zs.breaks) && |stale| == BUFFER_SIZE && |prev| == 3 && f.Valid()
    requires a.y + rh <= height
  {
    var control, size := ControlOf(input[0]), ColourSize(f);
    if control.kind > 8 then status.Failed?
    else if control.kind == 8 then
      && (status == if size < |input| then Done else Failed)
      && (status.Done? ==>
            && input' == input[1 + size..]
            && now == Blit(before, a, Filled(Low(SolidColour(f, input[1..]), f.bpp / 8), Rows(a.w, rh))))
    else
      && !content.Fill?
      && (content.Nothing? ==>
            && status.Failed?
            && forall other, n: nat ::
                 !(HeaderSays(input[1..], f, Explicit(input[0]), other, n) && 1 + n <= |input|))
      && (content.FilteredRows? ==>
            && content.filter.Valid(f) && 1 + content.used <= |input|
            && HeaderSays(input[1..], f, Explicit(input[0]), content.filter, content.used)
            && if !content.filter.Predictable(f, a.w) then status.Overrun?
               else
                 Outcome(status, zs, fed, fed', input[1 + content.used..], input', stale, prev, content.filter, f,
                         before, now, a, height, rh, control.readUncompressed))
  }

  lemma {:induction false} SolidOutcome(ok: bool, zs: Inflater, fed: seq<byte>, fed': seq<byte>, input: seq<byte>,
                                        input': seq<byte>, stale: seq<byte>, prev: seq<nat>, f: Format,
                                        before: seq<Pixel>, now: seq<Pixel>, a: Area, height: nat, rh: nat,
                                        colour: Pixel)
    requires |input| > 0 && Streams(zs.inflated, zs.breaks) && |stale| == BUFFER_SIZE && |prev| == 3 && f.Valid()
    requires a.y + rh <= height && ControlOf(input[0]).kind == 8
    requires var body, size := input[1..], ColourSize(f);
             && (ok <==> size <= |body|)
             && (ok ==>
                   && input' == body[size..] && colour == SolidColour(f, body)
                   && now == Blit(before, a, Filled(Low(colour, f.bpp / 8), Rows(a.w, rh))))
    ensures TightOutcome(if ok then Done else Failed, Fill(colour), zs, fed, fed', input, input', stale, prev, f,
                         before, now, a, height, rh)
  {
    hide Rows, Blit, Low, SolidColour, Streams, Outcome, HeaderSays, ColourSize;
    if ok {
      Dropped(input, 1, ColourSize(f));
    }
  }

  lemma {:induction false} UnknownOutcome(zs: Inflater, fed: seq<byte>, fed': seq<byte>, input: seq<byte>,
                                          input': seq<byte>, stale: seq<byte>, prev: seq<nat>, f: Format,
                                          before: seq<Pixel>, now: seq<Pixel>, a: Area, height: nat, rh: nat)
    requires |input| > 0 && Streams(zs.inflated, zs.breaks) && |stale| == BUFFER_SIZE && |prev| == 3 && f.Valid()
    requires a.y + rh <= height && ControlOf(input[0]).kind > 8
    ensures TightOutcome(Failed, Nothing, zs, fed, fed', input, input', stale, prev, f, before, now, a, height, rh)
  {
    hide Outcome, Streams, HeaderSays;
  }

  /** A Tight rectangle. One that sends an image is shown, with just its bytes consumed; the zlib streams
      it does not use are reset or stay. */
  method HandleTight(client: RfbClient, streams: seq<Inflater>, buffer: array<byte>, tightPalette: array<byte>,
                     prevRow: array<nat>, f: Format, rx: nat, ry: nat, rw: nat, rh: nat,
                     ghost filter: Filter, ghost used: nat, ghost rows: seq<seq<nat>>, ghost rest: seq<byte>,
                     ghost wellFormed: bool)
    returns (status: Status, ghost content: Content)
    requires client.Valid() && f.Valid() && client.bitsPerPixel == f.bpp && AllReady(streams) && Distinct(streams)
    requires buffer.Length == BUFFER_SIZE && tightPalette.Length == 256 * 4 && prevRow.Length == PrevLength(f)
    requires client.frameBuffer != prevRow && buffer != tightPalette
    requires wellFormed ==>
               && client.frameBuffer != null && client.CheckRect(rx, ry, rw, rh) && |client.input| > 0
               && var zs := streams[ControlOf(client.input[0]).kind % 4];
                  Sends(zs, FedBefore(streams, client.input[0]), client.input, buffer[..], f, filter, used, rows, rw,
                        rh, rest)
    modifies client`input, client.frameBuffer, streams, buffer, tightPalette, prevRow
    ensures client.frameBuffer == null || !client.CheckRect(rx, ry, rw, rh) || |old(client.input)| == 0 ==>
              status.Failed?
    ensures var input := old(client.input);
            client.frameBuffer != null && client.CheckRect(rx, ry, rw, rh) && |input| > 0 ==>
              var zs := streams[ControlOf(input[0]).kind % 4];
              TightOutcome(status, content, zs, old(FedBefore(streams, client.input[0])), zs.Before(), input,
                           client.input, old(buffer[..]), old(prevRow[..3]), f, old(client.Screen()), client.Screen(),
                           Area(client.width, rx, ry, rw), client.height, rh)
    ensures status.Done? ==> AllReady(streams)
    ensures var input := old(client.input);
            client.frameBuffer != null && client.CheckRect(rx, ry, rw, rh) && |input| > 0 ==>
              forall k :: 0 <= k < 4 && !Uses(input[0], k) ==>
                streams[k].Before() == if Resets(input[0], k) then [] else old(streams[k].Before())
    ensures var input := old(client.input);
            client.frameBuffer != null && client.CheckRect(rx, ry, rw, rh) && |input| > 0 ==>
              var b := input[0];
              forall k :: 0 <= k < 4 && !Uses(b, k) ==>
                streams[k].Before() ==
                if [b % 2, b / 2 % 2, b / 4 % 2, b / 8 % 2][k] == 1 then [] else old(streams[k].Before())
    ensures wellFormed ==>
              && status.Done? && client.input == rest
              && client.Screen() == Blit(old(client.Screen()), Area(client.width, rx, ry, rw),
                                         ShownRows(filter, f, rows, rw))
    ensures wellFormed ==>
              var input := old(client.input);
              var zs := streams[ControlOf(input[0]).kind % 4];
              && 1 + used <= |input|
              && zs.Before() == FedAfter(zs, old(FedBefore(streams, client.input[0])), input, old(buffer[..]), f,
                                         filter, used, rw, rh)
  {
    hide Rows, Blit, Low, SolidColour, TightOutcome, Streams, Sends, ShownRows, ControlOf, Resets, ColourSize,
         Filter.Valid, Filter.Predictable, Format.Valid, FedAfter;
    content := Nothing;
    if client.frameBuffer == null || !client.CheckRect(rx, ry, rw, rh) {
      return Failed, content;
    }
    ghost var input, before, stale, prev := client.input, client.Screen(), buffer[..], prevRow[..3];
    var ok, bs := client.ReadFromRFBServer(1);
    if !ok {
      return Failed, content;
    }
    ghost var zs, fed := streams[ControlOf(input[0]).kind % 4], FedBefore(streams, input[0]);
    ghost var a := Area(client.width, rx, ry, rw);
    if wellFormed {
      HeaderSent(streams[ControlOf(input[0]).kind % 4], FedBefore(streams, input[0]), input, buffer[..], f, filter,
                 used, rows, rw, rh, rest);
    }
    ResetStreams(streams, bs[0]);
    FlagValues(bs[0]);
    var control := ControlOf(bs[0]);
    if control.kind == 8 {
      var colour;
      ok, colour := FillSolid(client, f, rx, ry, rw, rh);
      SolidOutcome(ok, zs, fed, zs.Before(), input, client.input, stale, prev, f, before, client.Screen(), a,
                   client.height, rh, colour);
      return if ok then Done else Failed, Fill(colour);
    }
    if control.kind > 8 {
      UnknownOutcome(zs, fed, zs.Before(), input, client.input, stale, prev, f, before, client.Screen(), a,
                     client.height, rh);
      return Failed, content;
    }
    status, content := FilteredRectangle(client, streams[control.kind % 4], buffer, tightPalette, prevRow, f, rx, ry,
                                         rw, rh, control, input, filter, used, rows, rest, wellFormed);
  }

  /** What the stream of the control byte continues, once flagged streams are reset. */
  ghost function FedBefore(streams: seq<Inflater>, b: byte): seq<byte>
    requires |streams| == 4
    reads streams
  {
    var k := ControlOf(b).kind % 4;
    if Resets(b, k) then [] else streams[k].Before()
  }
}
