/** TRLE rectangles: HandleTRLE (src/encodings/trle.c), and the encoding of RFC 6143 section 7.7.5.

    Every read goes into a scratch buffer of at least 16 * 16 * n * 2 bytes, at a position that
    only grows within a tile. The palette, its size and the last colour are kept from tile to
    tile, and types 127 and 129 refer back to them. */
module Trle {
  import opened Bytes
  import opened Bits
  import opened Area
  import opened VncViewer
  import opened TileCode
  import opened TileDecode
  import opened Tiles

  /** The decoder's variables, but for the palette array. */
  datatype State = State(lastType: byte, bpp: nat, mask: nat, divider: nat, colour: Pixel) {
    /** A last type in 2..16 is the size of the palette whose index width is set up. */
    ghost predicate Consistent() {
      2 <= lastType <= 16 ==> bpp == IndexBits(lastType) && IsMask(mask, bpp) && divider == PerByte(bpp)
    }
  }

  /** (1 << bpp) - 1 */
  predicate IsMask(mask: nat, bpp: nat) {
    mask + 1 == Pow2(bpp)
  }

  /** A tile as encoded: on its own, or with the colour or the palette of earlier tiles. */
  datatype TrleCode = Fresh(code: Code) | SameSolid | SamePacked(rows: seq<seq<nat>>) | SameIndexed(runs: seq<Run>)

  /** What kind of colours came last, leaving out raw and plain-RLE tiles. */
  datatype Last = Nothing | Colour(c: Pixel) | Palette

  /** What earlier tiles leave behind: `palette` is that of the latest tile that had one. */
  datatype Carried = Carried(last: Last, palette: seq<Pixel>)

  ghost predicate ValidTile(t: TrleCode, c: Carried, w: nat, h: nat) {
    match t
    case Fresh(code) => Codes(code, w, h, 16)
    case SameSolid => c.last.Colour?
    case SamePacked(rows) =>
      c.last.Palette? && 2 <= |c.palette| <= 16 && |rows| == h && RowsOf(rows, w, |c.palette|)
    case SameIndexed(runs) =>
      |c.palette| <= 127 && IndexRunsFor(runs, |c.palette|) && |Expand(runs)| == Rows(w, h)
  }

  function CarryOn(t: TrleCode, c: Carried): Carried {
    match t
    case Fresh(Solid(colour)) => c.(last := Colour(colour))
    case Fresh(Packed(palette, _)) => Carried(Palette, palette)
    case Fresh(Indexed(palette, _)) => Carried(Palette, palette)
    case _ => c
  }

  function TileBytes(t: TrleCode, c: Carried, n: nat, w: nat, h: nat): seq<byte>
    requires ValidTile(t, c, w, h)
  {
    match t
    case Fresh(code) => Encode(code, n, w, h)
    case SameSolid => [127]
    case SamePacked(rows) => [127] + PackRows(rows, w, |c.palette|)
    case SameIndexed(runs) => [129] + IndexRuns(runs, |c.palette|)
  }

  function TileImage(t: TrleCode, c: Carried, w: nat, h: nat): seq<Pixel> {
    match t
    case Fresh(code) => Image(code, w, h)
    case SameSolid => Filled(if c.last.Colour? then c.last.c else 0, Rows(w, h))
    case SamePacked(rows) => Look(c.palette, Flatten(rows))
    case SameIndexed(runs) => Look(c.palette, Expand(runs))
  }

  /** The decoder's variables hold what earlier tiles left behind. */
  ghost predicate Remembers(c: Carried, s: State, palette: seq<Pixel>, n: nat) {
    && |c.palette| <= 127 && HoldsColours(palette, c.palette, n)
    && match c.last
       case Nothing => s.lastType == 0
       case Colour(colour) => s.lastType == 1 && Low(s.colour, n) == Low(colour, n)
       case Palette =>
         |c.palette| >= 2 && ((s.lastType == |c.palette| && s.lastType <= 16) || s.lastType == 128 + |c.palette|)
  }

  /** ReadFromRFBServer into the scratch buffer. */
  method Read(client: RfbClient, raw: array<byte>, pos: nat, n: nat) returns (status: Status)
    modifies client`input, raw
    ensures status.Done? <==> pos + n <= raw.Length && n <= |old(client.input)|
    ensures status.Overrun? <==> pos + n > raw.Length
    ensures status.Done? ==>
              && client.input == old(client.input)[n..]
              && Stored(MemoryOf(raw[..]), pos, old(client.input)[..n])
    ensures forall k :: 0 <= k < raw.Length && !(pos <= k < pos + n) ==> raw[k] == old(raw[k])
  {
    if pos + n > raw.Length {
      return Overrun;
    }
    var ok, bs := client.ReadFromRFBServer(n);
    if !ok {
      return Failed;
    }
    forall k | 0 <= k < n {
      raw[pos + k] := bs[k];
    }
    status := Done;
  }

  /** The run-length loop, on the byte at `pos0` and the input after it. */
  method ReadLength(client: RfbClient, raw: array<byte>, pos0: nat, used0: nat,
                    ghost m: nat, ghost rest: seq<byte>, ghost wellFormed: bool)
    returns (status: Status, pos: nat, length: nat)
    requires pos0 < raw.Length
    requires wellFormed ==>
               && [raw[pos0]] + client.input == LengthBytes(m) + rest
               && pos0 + |LengthBytes(m)| <= raw.Length && used0 + |LengthBytes(m)| <= raw.Length
    modifies client`input, raw
    ensures length > 0
    ensures wellFormed ==>
              && status.Done? && length == m + 1 && pos == pos0 + |LengthBytes(m)| && client.input == rest
  {
    hide MemoryOf, Stored;
    pos, length := pos0, 1;
    var used := used0;
    ghost var left := m;
    while raw[pos] == 255 && used < raw.Length - 1
      invariant pos < raw.Length && length > 0
      invariant wellFormed ==>
                  && [raw[pos]] + client.input == LengthBytes(left) + rest && length + left == m + 1
                  && pos + |LengthBytes(left)| == pos0 + |LengthBytes(m)|
                  && used + |LengthBytes(left)| == used0 + |LengthBytes(m)|
      decreases raw.Length - used
    {
      ghost var input := client.input;
      if wellFormed {
        LengthGoesOn(raw[pos], input, left, rest);
        left := left - 255;
      }
      status := Read(client, raw, pos + 1, 1);
      if !status.Done? {
        return;
      }
      FirstStored(raw[..], pos + 1, input[..1]);
      length := length + raw[pos];
      pos, used := pos + 1, used + 1;
    }
    if wellFormed {
      LengthEnds(raw[pos], client.input, left, rest, used, raw.Length);
    }
    length := length + raw[pos];
    pos := pos + 1;
    status := Done;
  }

  lemma {:induction false} FirstStored(bs: seq<byte>, pos: nat, part: seq<byte>)
    requires |part| > 0 && pos < |bs| && Stored(MemoryOf(bs), pos, part)
    ensures bs[pos] == part[0]
  {
    assert MemoryOf(bs)(pos + 0) == part[0];
  }

  lemma {:induction false} LengthGoesOn(b: byte, input: seq<byte>, left: nat, rest: seq<byte>)
    requires [b] + input == LengthBytes(left) + rest && b == 255
    ensures left >= 255 && input == LengthBytes(left - 255) + rest &&
            |LengthBytes(left)| == 1 + |LengthBytes(left - 255)|
    ensures |input| > 0 && [input[0]] + input[1..] == input
  {
    assert ([b] + input)[0] == LengthBytes(left)[0];
    assert ([b] + input)[1..] == input;
    if left >= 255 {
      assert (LengthBytes(left) + rest)[1..] == LengthBytes(left - 255) + rest;
    }
  }

  lemma {:induction false} LengthEnds(b: byte, input: seq<byte>, left: nat, rest: seq<byte>, used: nat, size: nat)
    requires [b] + input == LengthBytes(left) + rest
    requires b == 255 ==> used >= size - 1
    requires used + |LengthBytes(left)| <= size
    ensures left == b && input == rest && |LengthBytes(left)| == 1
  {
    assert ([b] + input)[0] == LengthBytes(left)[0];
    assert ([b] + input)[1..] == input;
    if left < 255 {
      assert (LengthBytes(left) + rest)[1..] == rest;
    }
  }

  /** Runs still to come, the pixels drawn so far, and that the scratch buffer has room. */
  ghost predicate PlainProgress(input: seq<byte>, rest: seq<byte>, pos: nat, size: nat, runs: seq<Run>, r: nat, n: nat,
                                drawn: seq<Pixel>) {
    && r <= |runs| && ProperRuns(runs) && ProperRuns(runs[r..])
    && input == PlainRuns(runs[r..], n) + rest && pos + |PlainRuns(runs[r..], n)| <= size
    && Matches(n, drawn, Expand(runs[..r]))
  }

  /** Type 128: plain RLE. */
  method PlainTile(client: RfbClient, raw: array<byte>, x: nat, y: nat, w: nat, h: nat, n: nat,
                   ghost runs: seq<Run>, ghost rest: seq<byte>, ghost wellFormed: bool)
    returns (status: Status, ghost drawn: seq<Pixel>)
    requires Ready(client, x, y, w, h, n) && Rows(w, h) <= 256 && raw.Length >= 512 * n
    requires wellFormed ==>
               && ProperRuns(runs) && |Expand(runs)| == Rows(w, h) && client.input == PlainRuns(runs, n) + rest
    modifies client`input, client.frameBuffer, raw
    ensures |drawn| <= Rows(w, h) && client.Screen() == Blit(old(client.Screen()), AreaOf(client, x, y, w), drawn)
    ensures status.Done? ==> |drawn| == Rows(w, h)
    ensures wellFormed ==> status.Done? && client.input == rest && Matches(n, drawn, Expand(runs))
  {
    hide Rows, Blit, CursorAt, Expand, PlainRuns, LengthBytes, Low, UncompressCPixel, ToBytes, MemoryOf, Stored;
    ghost var pen := Pen(client.Screen(), client.height, AreaOf(client, x, y, w), h);
    BlitNone(client.Screen(), pen.a);
    var pos: nat, i: nat, j: nat := 0, 0, 0;
    ghost var r := 0;
    drawn := [];
    FirstPixel(w);
    if wellFormed {
      PlainStart(client.input, rest, raw.Length, runs, n);
    }
    while j < h
      invariant client.Valid() && pen.Drew(client.Screen(), drawn) && CursorAt(w, |drawn|) == Cursor(i, j)
      invariant wellFormed ==> PlainProgress(client.input, rest, pos, raw.Length, runs, r, n, drawn)
      decreases Rows(w, h) - |drawn|
    {
      CursorDone(w, h, |drawn|);
      ghost var input, len, after := client.input, 0, [];
      if wellFormed {
        after := PlainStep(client.input, rest, pos, raw.Length, runs, r, n, drawn);
        len := runs[r].len - 1;
      }
      status := Read(client, raw, pos, n + 1);
      if !status.Done? {
        return;
      }
      var colour := UncompressCPixel(MemoryOf(raw[..]), pos, n);
      if wellFormed {
        RunRead(raw[..], pos, input, runs[r], n, after);
      }
      var length;
      status, pos, length := ReadLength(client, raw, pos + n, n, len, after, wellFormed);
      if !status.Done? {
        return;
      }
      ghost var before := drawn;
      i, j, drawn := DrawRun(client.frameBuffer, Area(client.width, x, y, w), h, i, j, colour, length, pen, drawn);
      if wellFormed {
        MatchesRun(n, before, Expand(runs[..r]), colour, runs[r].value, runs[r].len);
        r := r + 1;
      }
    }
    CursorDone(w, h, |drawn|);
    if wellFormed {
      PlainEnd(client.input, rest, pos, raw.Length, runs, r, n, drawn);
    }
    status := Done;
  }

  /** Plain RLE is what may fill the scratch buffer: 256 runs of one pixel take 256 * (n + 1) bytes. */
  lemma {:induction false} PlainStart(input: seq<byte>, rest: seq<byte>, size: nat, runs: seq<Run>, n: nat)
    requires ProperRuns(runs) && |Expand(runs)| <= 256 && 512 * n <= size && n > 0
    requires input == PlainRuns(runs, n) + rest
    ensures PlainProgress(input, rest, 0, size, runs, 0, n, [])
  {
    hide Rows, PlainRuns;
    assert runs[0..] == runs && runs[..0] == [];
    PlainRunsFit(runs, 0, n);
    RowsMonotonic(n + 1, |Expand(runs)|, 256);
    RowsIsProduct(n + 1, 256);
  }

  lemma {:induction false} PlainEnd(input: seq<byte>, rest: seq<byte>, pos: nat, size: nat, runs: seq<Run>, r: nat,
                                    n: nat, drawn: seq<Pixel>)
    requires PlainProgress(input, rest, pos, size, runs, r, n, drawn) && |drawn| == |Expand(runs)|
    ensures input == rest && Matches(n, drawn, Expand(runs))
  {
    hide Expand, Low;
    RunsDone(runs, r);
    assert runs[..r] == runs && runs[r..] == [];
  }

  /** The next run's bytes come first; `after` are those of the others. */
  lemma {:induction false} PlainStep(input: seq<byte>, rest: seq<byte>, pos: nat, size: nat, runs: seq<Run>, r: nat,
                                     n: nat, drawn: seq<Pixel>)
    returns (after: seq<byte>)
    requires PlainProgress(input, rest, pos, size, runs, r, n, drawn) && |drawn| < |Expand(runs)|
    ensures r < |runs| && ProperRuns(runs[r + 1..]) && runs[r].len > 0
    ensures input == PlainRun(runs[r], n) + after && after == PlainRuns(runs[r + 1..], n) + rest
    ensures pos + n + |LengthBytes(runs[r].len - 1)| + |PlainRuns(runs[r + 1..], n)| <= size
    ensures n + |LengthBytes(runs[r].len - 1)| <= |input|
    ensures Expand(runs[..r + 1]) == Expand(runs[..r]) + Filled(runs[r].value, runs[r].len)
    ensures |drawn| + runs[r].len <= |Expand(runs)|
  {
    hide Expand, PlainRuns, LengthBytes, ToBytes, Low;
    RunsRemain(runs, r);
    PlainRunsNext(runs, r, n);
    ExpandPrefix(runs, r);
    after := PlainRuns(runs[r + 1..], n) + rest;
  }

  /** The n + 1 bytes read give the run's colour and the first byte of its length. */
  lemma {:induction false} RunRead(bs: seq<byte>, pos: nat, input: seq<byte>, run: Run, n: nat, after: seq<byte>)
    requires IsPixelSize(n) && run.len > 0 && input == PlainRun(run, n) + after
    requires pos + n + 1 <= |bs| && n + 1 <= |input| && Stored(MemoryOf(bs), pos, input[..n + 1])
    ensures Low(UncompressCPixel(MemoryOf(bs), pos, n), n) == Low(run.value, n)
    ensures [bs[pos + n]] + input[n + 1..] == LengthBytes(run.len - 1) + after
  {
    hide ToBytes, Low, UncompressCPixel, LengthBytes, MemoryOf, Stored;
    var lengths := LengthBytes(run.len - 1);
    assert input[..n + 1] == ToBytes(run.value, n) + [lengths[0]];
    StoredParts(MemoryOf(bs), pos, ToBytes(run.value, n), [lengths[0]]);
    LoadStored(MemoryOf(bs), pos, run.value, n);
    FirstStored(bs, pos + n, [lengths[0]]);
    assert [lengths[0]] + input[n + 1..] == lengths + after;
  }

  ghost predicate IndexProgress(input: seq<byte>, rest: seq<byte>, pos: nat, size: nat, palette: seq<Pixel>,
                                runs: seq<Run>, r: nat, n: nat, drawn: seq<Pixel>)
  {
    && r <= |runs| && |palette| <= 127 && IndexRunsFor(runs, |palette|) && IndexRunsFor(runs[r..], |palette|)
    && input == IndexRuns(runs[r..], |palette|) + rest && pos + |IndexRuns(runs[r..], |palette|)| <= size
    && Matches(n, drawn, Look(palette, Expand(runs[..r])))
  }

  /** Types 129 to 255, after the palette if there is one: palette RLE. */
  method IndexedTile(client: RfbClient, raw: array<byte>, palette: array<Pixel>, pos0: nat, x: nat, y: nat, w: nat,
                     h: nat, n: nat, ghost colours: seq<Pixel>, ghost runs: seq<Run>, ghost rest: seq<byte>,
                     ghost wellFormed: bool)
    returns (status: Status, ghost drawn: seq<Pixel>)
    requires Ready(client, x, y, w, h, n) && Rows(w, h) <= 256
    requires palette != client.frameBuffer && palette.Length == 128
    requires wellFormed ==>
               && pos0 + 256 <= raw.Length && |colours| <= 127 && HoldsColours(palette[..], colours, n)
               && IndexRunsFor(runs, |colours|) && |Expand(runs)| == Rows(w, h)
               && client.input == IndexRuns(runs, |colours|) + rest
    modifies client`input, client.frameBuffer, raw
    ensures |drawn| <= Rows(w, h) && client.Screen() == Blit(old(client.Screen()), AreaOf(client, x, y, w), drawn)
    ensures status.Done? ==> |drawn| == Rows(w, h)
    ensures wellFormed ==> status.Done? && client.input == rest && Matches(n, drawn, Look(colours, Expand(runs)))
  {
    hide Rows, Blit, CursorAt, Expand, IndexRuns, IndexRun, LengthBytes, Low, Look, MemoryOf, Stored;
    ghost var pen := Pen(client.Screen(), client.height, AreaOf(client, x, y, w), h);
    BlitNone(client.Screen(), pen.a);
    var pos: nat, i: nat, j: nat := pos0, 0, 0;
    ghost var r := 0;
    drawn := [];
    FirstPixel(w);
    if wellFormed {
      IndexStart(client.input, rest, pos, raw.Length, colours, runs, n);
    }
    while j < h
      invariant client.Valid() && pen.Drew(client.Screen(), drawn) && CursorAt(w, |drawn|) == Cursor(i, j)
      invariant palette[..] == old(palette[..])
      invariant wellFormed ==> IndexProgress(client.input, rest, pos, raw.Length, colours, runs, r, n, drawn)
      decreases Rows(w, h) - |drawn|
    {
      CursorDone(w, h, |drawn|);
      ghost var input, len, after := client.input, 0, [];
      if wellFormed {
        after := IndexStep(input, rest, pos, raw.Length, colours, runs, r, n, drawn);
        IndexRead(input, runs[r], after);
        len := runs[r].len - 1;
      }
      status := Read(client, raw, pos, 1);
      if !status.Done? {
        return;
      }
      FirstStored(raw[..], pos, input[..1]);
      var colour, length := palette[raw[pos] % 128], 1;
      if raw[pos] >= 128 {
        ghost var input1 := client.input;
        status := Read(client, raw, pos + 1, 1);
        if !status.Done? {
          return;
        }
        FirstStored(raw[..], pos + 1, input1[..1]);
        assert [input1[0]] + input1[1..] == input1;
        status, pos, length := ReadLength(client, raw, pos + 1, 1, len, after, wellFormed);
        if !status.Done? {
          return;
        }
      } else {
        pos := pos + 1;
      }
      ghost var before := drawn;
      i, j, drawn := DrawRun(client.frameBuffer, Area(client.width, x, y, w), h, i, j, colour, length, pen, drawn);
      if wellFormed {
        assert palette[..][runs[r].value] == colour;
        MatchesRun(n, before, Look(colours, Expand(runs[..r])), colour, colours[runs[r].value], runs[r].len);
        r := r + 1;
      }
    }
    CursorDone(w, h, |drawn|);
    if wellFormed {
      IndexEnd(client.input, rest, pos, raw.Length, colours, runs, r, n, drawn);
    }
    status := Done;
  }

  /** A palette run takes at most one byte for each of its pixels. */
  lemma {:induction false} IndexRunsFit(runs: seq<Run>, r: nat, colours: nat)
    requires colours <= 128 && IndexRunsFor(runs, colours) && r <= |runs|
    ensures IndexRunsFor(runs[r..], colours)
    ensures |IndexRuns(runs[r..], colours)| + |Expand(runs[..r])| <= |Expand(runs)|
    decreases |runs| - r
  {
    hide Expand;
    if r == |runs| {
      assert runs[..r] == runs;
    } else {
      IndexRunsNext(runs, r, colours);
      ExpandPrefix(runs, r);
      IndexRunsFit(runs, r + 1, colours);
      IndexRunFits(runs[r]);
    }
  }

  lemma {:induction false} IndexRunFits(r: Run)
    requires r.len > 0 && r.value < 128
    ensures |IndexRun(r)| <= r.len
  {
    if r.len >= 256 {
      LengthBytesFit(r.len - 256);
    }
  }

  lemma {:induction false} IndexStart(input: seq<byte>, rest: seq<byte>, pos: nat, size: nat, palette: seq<Pixel>,
                                      runs: seq<Run>, n: nat)
    requires |palette| <= 127 && IndexRunsFor(runs, |palette|) && |Expand(runs)| <= 256 && pos + 256 <= size
    requires input == IndexRuns(runs, |palette|) + rest
    ensures IndexProgress(input, rest, pos, size, palette, runs, 0, n, [])
  {
    hide IndexRuns;
    assert runs[0..] == runs && runs[..0] == [];
    IndexRunsFit(runs, 0, |palette|);
  }

  lemma {:induction false} IndexEnd(input: seq<byte>, rest: seq<byte>, pos: nat, size: nat, palette: seq<Pixel>,
                                    runs: seq<Run>, r: nat, n: nat, drawn: seq<Pixel>)
    requires IndexProgress(input, rest, pos, size, palette, runs, r, n, drawn) && |drawn| == |Expand(runs)|
    ensures input == rest && Matches(n, drawn, Look(palette, Expand(runs)))
  {
    hide Expand, Low;
    RunsDone(runs, r);
    assert runs[..r] == runs && runs[r..] == [];
  }

  lemma {:induction false} IndexStep(input: seq<byte>, rest: seq<byte>, pos: nat, size: nat, palette: seq<Pixel>,
                                     runs: seq<Run>, r: nat, n: nat, drawn: seq<Pixel>)
    returns (after: seq<byte>)
    requires IndexProgress(input, rest, pos, size, palette, runs, r, n, drawn) && |drawn| < |Expand(runs)|
    ensures r < |runs| && runs[r].len > 0 && runs[r].value < |palette| && IndexRunsFor(runs[r + 1..], |palette|)
    ensures input == IndexRun(runs[r]) + after && after == IndexRuns(runs[r + 1..], |palette|) + rest
    ensures pos + |IndexRun(runs[r])| + |IndexRuns(runs[r + 1..], |palette|)| <= size
    ensures Look(palette, Expand(runs[..r + 1])) ==
            Look(palette, Expand(runs[..r])) + Filled(palette[runs[r].value], runs[r].len)
    ensures |drawn| + runs[r].len <= |Expand(runs)|
  {
    hide Expand, IndexRuns, IndexRun, Low;
    RunsRemain(runs, r);
    IndexRunsNext(runs, r, |palette|);
    ExpandPrefix(runs, r);
    after := IndexRuns(runs[r + 1..], |palette|) + rest;
  }

  /** The first byte of a palette run says whether a length follows. */
  lemma {:induction false} IndexRead(input: seq<byte>, run: Run, after: seq<byte>)
    requires run.len > 0 && run.value < 128 && input == IndexRun(run) + after
    ensures |input| > 0 && input[0] % 128 == run.value && (input[0] >= 128 <==> run.len > 1)
    ensures |IndexRun(run)| > 0 && (run.len == 1 ==> input[1..] == after && |IndexRun(run)| == 1)
    ensures run.len > 1 ==>
              && input[1..] == LengthBytes(run.len - 1) + after && |input| > 1
              && |IndexRun(run)| == 1 + |LengthBytes(run.len - 1)| > 1
  {
    hide LengthBytes;
  }

  /** The rows of packed indices take at most 128 bytes, with a palette of at most 16 colours. */
  lemma {:induction false} PackedFits(w: nat, h: nat, colours: nat)
    requires w <= 16 && h <= 16 && 2 <= colours <= 16
    ensures var bpp := IndexBits(colours);
            && (w + PerByte(bpp) - 1) / PerByte(bpp) == RowBytes(w, bpp)
            && Rows(RowBytes(w, bpp), h) <= 128
  {
    hide Rows;
    var bytes := RowBytes(w, IndexBits(colours));
    RowsMonotonic(bytes, h, 16);
    RowsIsProduct(bytes, 16);
  }

  /** The packed rows of a tile, with the palette and index width set up before. */
  method PackedRows(client: RfbClient, raw: array<byte>, palette: array<Pixel>, s: State, pos: nat,
                    x: nat, y: nat, w: nat, h: nat, n: nat,
                    ghost colours: seq<Pixel>, ghost rows: seq<seq<nat>>, ghost rest: seq<byte>, ghost wellFormed: bool)
    returns (status: Status, ghost drawn: seq<Pixel>)
    requires Ready(client, x, y, w, h, n) && w <= 16 && h <= 16
    requires palette != client.frameBuffer && palette.Length == 128
    requires 2 <= s.lastType <= 16 && s.Consistent()
    requires wellFormed ==>
               && pos + 128 <= raw.Length && |colours| == s.lastType && HoldsColours(palette[..], colours, n)
               && |rows| == h && RowsOf(rows, w, |colours|) && client.input == PackRows(rows, w, |colours|) + rest
    modifies client`input, client.frameBuffer, raw
    ensures |drawn| <= Rows(w, h) && client.Screen() == Blit(old(client.Screen()), AreaOf(client, x, y, w), drawn)
    ensures status.Done? ==> |drawn| == Rows(w, h)
    ensures wellFormed ==> status.Done? && client.input == rest && Matches(n, drawn, Look(colours, Flatten(rows)))
  {
    hide Rows, Blit, Low, PackRows, Flatten, Look, RowBytes, IndexBits, MemoryOf, Stored, Pow2;
    ghost var pen := Pen(client.Screen(), client.height, AreaOf(client, x, y, w), h);
    BlitNone(client.Screen(), pen.a);
    PackedFits(w, h, s.lastType);
    if wellFormed {
      PackRowsLength(rows, w, |colours|);
      Split(PackRows(rows, w, |colours|), rest);
    }
    var size := RowOffset((w + s.divider - 1) / s.divider, h);
    status := Read(client, raw, pos, size);
    if !status.Done? {
      return status, [];
    }
    // Masking with s.mask is taking the remainder by 1 << s.bpp.
    var buffer;
    buffer, drawn := PackedTile(client.frameBuffer, Area(client.width, x, y, w), h, MemoryOf(raw[..]), pos, s.bpp,
                                palette, n, colours, rows, pen, wellFormed);
  }

  /** Type 127, and where a palette of at most 16 colours goes on: the colours that came last. */
  method Case127(client: RfbClient, raw: array<byte>, palette: array<Pixel>, s0: State, pos: nat,
                 x: nat, y: nat, w: nat, h: nat, n: nat,
                 ghost t: TrleCode, ghost c: Carried, ghost rest: seq<byte>, ghost wellFormed: bool)
    returns (status: Status, s: State, ghost drawn: seq<Pixel>)
    requires Ready(client, x, y, w, h, n) && w <= 16 && h <= 16
    requires palette != client.frameBuffer && palette.Length == 128 && s0.Consistent()
    requires wellFormed ==>
               && (t.SameSolid? || t.SamePacked?) && ValidTile(t, c, w, h) && Remembers(c, s0, palette[..], n)
               && pos + 128 <= raw.Length
               && client.input == (if t.SameSolid? then [] else PackRows(t.rows, w, |c.palette|)) + rest
    modifies client`input, client.frameBuffer, raw
    ensures s.Consistent()
    ensures |drawn| <= Rows(w, h) && client.Screen() == Blit(old(client.Screen()), AreaOf(client, x, y, w), drawn)
    ensures status.Done? ==> |drawn| == Rows(w, h)
    ensures wellFormed ==>
              && status.Done? && client.input == rest && Remembers(c, s, palette[..], n)
              && Matches(n, drawn, TileImage(t, c, w, h))
  {
    hide Rows, Blit, Low, PackRows, Flatten, Look, IndexBits, HoldsColours, Filled;
    s := s0;
    BlitNone(client.Screen(), AreaOf(client, x, y, w));
    if s.lastType == 0 || s.lastType == 128 {
      return Failed, s, [];
    } else if s.lastType == 1 {
      client.FillRectangle(x, y, w, h, s.colour);
      drawn := Filled(Low(s.colour, LoadWidth(n)), Rows(w, h));
      if wellFormed {
        FilledMatches(n, LoadWidth(n), c.last.c, s.colour, Rows(w, h));
        Split([], rest);
      }
      return Done, s, drawn;
    }
    if s.lastType >= 130 {
      s := SetUp(s.lastType % 128, s);
    }
    if s.lastType <= 16 {
      status, drawn := PackedRows(client, raw, palette, s, pos, x, y, w, h, n, c.palette,
                                  if wellFormed then t.rows else [], rest, wellFormed);
    } else {
      return Failed, s, [];
    }
  }

  /** The variables for a palette of the given size. */
  function SetUp(size: byte, s: State): (r: State)
    ensures r.Consistent() && r.lastType == size && r.colour == s.colour
  {
    var bpp := if size > 4 then (if size > 16 then 8 else 4) else if size > 2 then 2 else 1;
    State(size, bpp, Pow2(bpp) - 1, 8 / bpp, s.colour)
  }

  /** Reading a palette of `count` colours. */
  method LoadPalette(client: RfbClient, raw: array<byte>, palette: array<Pixel>, count: nat, n: nat,
                     ghost colours: seq<Pixel>, ghost after: seq<byte>, ghost wellFormed: bool)
    returns (status: Status, pos: nat)
    requires IsPixelSize(n) && count <= 127 && palette.Length == 128 && raw.Length >= 512 * n
    requires wellFormed ==> |colours| == count && client.input == PixelBytes(colours, n) + after
    modifies client`input, raw, palette
    ensures status.Done? ==> pos + 256 <= raw.Length
    ensures wellFormed ==> status.Done? && client.input == after && HoldsColours(palette[..], colours, n)
  {
    hide Rows, Low, PixelBytes, MemoryOf, Stored, UncompressCPixel;
    pos := 0;
    var size := RowOffset(n, count);
    RowsIsProduct(n, count);
    if wellFormed {
      Split(PixelBytes(colours, n), after);
    }
    status := Read(client, raw, 0, size);
    if status.Done? {
      pos := ReadPalette(MemoryOf(raw[..]), 0, count, n, palette, colours, wellFormed);
    }
  }

  /** Type 0 */
  method RawKind(client: RfbClient, raw: array<byte>, x: nat, y: nat, w: nat, h: nat, n: nat,
                 ghost pixels: seq<Pixel>, ghost rest: seq<byte>, ghost wellFormed: bool)
    returns (status: Status, ghost drawn: seq<Pixel>)
    requires Ready(client, x, y, w, h, n) && Rows(w, h) <= 256 && raw.Length >= 512 * n
    requires wellFormed ==> |pixels| == Rows(w, h) && client.input == PixelBytes(pixels, n) + rest
    modifies client`input, client.frameBuffer, raw
    ensures |drawn| <= Rows(w, h) && client.Screen() == Blit(old(client.Screen()), AreaOf(client, x, y, w), drawn)
    ensures status.Done? ==> |drawn| == Rows(w, h)
    ensures wellFormed ==> status.Done? && client.input == rest && Matches(n, drawn, pixels)
  {
    hide Rows, Blit, Low, PixelBytes, RawImage, MemoryOf, Stored;
    ghost var pen := Pen(client.Screen(), client.height, AreaOf(client, x, y, w), h);
    BlitNone(client.Screen(), pen.a);
    var count := RowOffset(w, h);
    var size := RowOffset(n, count);
    RowsIsProduct(n, count);
    if wellFormed {
      Split(PixelBytes(pixels, n), rest);
    }
    status := Read(client, raw, 0, size);
    if !status.Done? {
      return status, [];
    }
    if n == 3 {
      var buffer;
      buffer, drawn := RawTile(client.frameBuffer, Area(client.width, x, y, w), h, MemoryOf(raw[..]), 0, n, pixels, pen,
                               wellFormed);
    } else {
      client.CopyRectangle(MemoryOf(raw[..]), 0, x, y, w, h);
      drawn := RawImage(MemoryOf(raw[..]), 0, n, Rows(w, h));
      if wellFormed {
        RawImageMatches(MemoryOf(raw[..]), 0, n, pixels);
      }
    }
  }

  /** Type 1 */
  method SolidKind(client: RfbClient, raw: array<byte>, x: nat, y: nat, w: nat, h: nat, n: nat,
                   ghost c: Pixel, ghost rest: seq<byte>, ghost wellFormed: bool)
    returns (status: Status, colour: Pixel, ghost drawn: seq<Pixel>)
    requires Ready(client, x, y, w, h, n) && raw.Length >= 512 * n
    requires wellFormed ==> client.input == ToBytes(c, n) + rest
    modifies client`input, client.frameBuffer, raw
    ensures |drawn| <= Rows(w, h) && client.Screen() == Blit(old(client.Screen()), AreaOf(client, x, y, w), drawn)
    ensures status.Done? ==> |drawn| == Rows(w, h)
    ensures wellFormed ==>
              && status.Done? && client.input == rest && Low(colour, n) == Low(c, n)
              && Matches(n, drawn, Filled(c, Rows(w, h)))
  {
    hide Rows, Blit, Low, ToBytes, Filled, UncompressCPixel, MemoryOf, Stored;
    colour := 0;
    BlitNone(client.Screen(), AreaOf(client, x, y, w));
    if wellFormed {
      Split(ToBytes(c, n), rest);
    }
    status := Read(client, raw, 0, n);
    if !status.Done? {
      return status, colour, [];
    }
    colour := UncompressCPixel(MemoryOf(raw[..]), 0, n);
    if wellFormed {
      LoadStored(MemoryOf(raw[..]), 0, c, n);
      FilledMatches(n, LoadWidth(n), c, colour, Rows(w, h));
    }
    client.FillRectangle(x, y, w, h, colour);
    drawn := Filled(Low(colour, LoadWidth(n)), Rows(w, h));
  }

  /** The type byte of a tile, and what follows it. */
  lemma {:induction false} TypeByte(t: TrleCode, c: Carried, n: nat, w: nat, h: nat, rest: seq<byte>)
    requires ValidTile(t, c, w, h)
    ensures var bs := TileBytes(t, c, n, w, h) + rest;
            && |bs| > 0
            && match t
               case Fresh(Raw(pixels)) => bs[0] == 0 && bs[1..] == PixelBytes(pixels, n) + rest
               case Fresh(Solid(colour)) => bs[0] == 1 && bs[1..] == ToBytes(colour, n) + rest
               case Fresh(Packed(palette, rows)) =>
                 bs[0] == |palette| && bs[1..] == PixelBytes(palette, n) + (PackRows(rows, w, |palette|) + rest)
               case Fresh(Plain(runs)) => bs[0] == 128 && bs[1..] == PlainRuns(runs, n) + rest
               case Fresh(Indexed(palette, runs)) =>
                 bs[0] == 128 + |palette| && bs[1..] == PixelBytes(palette, n) + (IndexRuns(runs, |palette|) + rest)
               case SameSolid => bs[0] == 127 && bs[1..] == [] + rest
               case SamePacked(rows) => bs[0] == 127 && bs[1..] == PackRows(rows, w, |c.palette|) + rest
               case SameIndexed(runs) => bs[0] == 129 && bs[1..] == IndexRuns(runs, |c.palette|) + rest
  {
    hide PixelBytes, ToBytes, PlainRuns, IndexRuns, PackRows, Rows;
  }

  /** A tile with a packed palette, types 2 to 16. */
  method PackedKind(client: RfbClient, raw: array<byte>, palette: array<Pixel>, s0: State, count: byte,
                    x: nat, y: nat, w: nat, h: nat, n: nat,
                    ghost t: TrleCode, ghost c: Carried, ghost rest: seq<byte>, ghost wellFormed: bool)
    returns (status: Status, s: State, ghost drawn: seq<Pixel>)
    requires Ready(client, x, y, w, h, n) && w <= 16 && h <= 16 && 2 <= count <= 16
    requires palette != client.frameBuffer && palette.Length == 128 && raw.Length >= 512 * n && s0.Consistent()
    requires wellFormed ==>
               && t.Fresh? && t.code.Packed? && ValidTile(t, c, w, h) && |t.code.palette| == count
               && client.input == PixelBytes(t.code.palette, n) + (PackRows(t.code.rows, w, |t.code.palette|) + rest)
    modifies client`input, client.frameBuffer, raw, palette
    ensures s.Consistent()
    ensures |drawn| <= Rows(w, h) && client.Screen() == Blit(old(client.Screen()), AreaOf(client, x, y, w), drawn)
    ensures status.Done? ==> |drawn| == Rows(w, h)
    ensures wellFormed ==>
              && status.Done? && client.input == rest && Remembers(CarryOn(t, c), s, palette[..], n)
              && Matches(n, drawn, TileImage(t, c, w, h))
  {
    hide Rows, Blit, Low, PackRows, PixelBytes, Flatten, Look, HoldsColours, RowsOf;
    BlitNone(client.Screen(), AreaOf(client, x, y, w));
    var pos;
    ghost var after := if wellFormed then PackRows(t.code.rows, w, |t.code.palette|) + rest else [];
    status, pos := LoadPalette(client, raw, palette, count, n, if wellFormed then t.code.palette else [], after,
                               wellFormed);
    s := SetUp(count, s0);
    if !status.Done? {
      return status, s, [];
    }
    ghost var same := if wellFormed then SamePacked(t.code.rows) else SameSolid;
    status, s, drawn := Case127(client, raw, palette, s, pos, x, y, w, h, n, same, CarryOn(t, c), rest, wellFormed);
  }

  /** A tile with palette RLE and its own palette, types 130 to 255. */
  method IndexedKind(client: RfbClient, raw: array<byte>, palette: array<Pixel>, s0: State, kind: byte,
                     x: nat, y: nat, w: nat, h: nat, n: nat,
                     ghost t: TrleCode, ghost c: Carried, ghost rest: seq<byte>, ghost wellFormed: bool)
    returns (status: Status, s: State, ghost drawn: seq<Pixel>)
    requires Ready(client, x, y, w, h, n) && Rows(w, h) <= 256 && kind >= 130
    requires palette != client.frameBuffer && palette.Length == 128 && raw.Length >= 512 * n && s0.Consistent()
    requires wellFormed ==>
               && t.Fresh? && t.code.Indexed? && ValidTile(t, c, w, h) && 128 + |t.code.palette| == kind
               && client.input == PixelBytes(t.code.palette, n) + (IndexRuns(t.code.runs, |t.code.palette|) + rest)
    modifies client`input, client.frameBuffer, raw, palette
    ensures s.Consistent()
    ensures |drawn| <= Rows(w, h) && client.Screen() == Blit(old(client.Screen()), AreaOf(client, x, y, w), drawn)
    ensures status.Done? ==> |drawn| == Rows(w, h)
    ensures wellFormed ==>
              && status.Done? && client.input == rest && Remembers(CarryOn(t, c), s, palette[..], n)
              && Matches(n, drawn, TileImage(t, c, w, h))
  {
    hide Rows, Blit, Low, IndexRuns, PixelBytes, Expand, Look, HoldsColours, IndexRunsFor;
    BlitNone(client.Screen(), AreaOf(client, x, y, w));
    var pos;
    ghost var after := if wellFormed then IndexRuns(t.code.runs, |t.code.palette|) + rest else [];
    status, pos := LoadPalette(client, raw, palette, kind - 128, n, if wellFormed then t.code.palette else [], after,
                               wellFormed);
    s := s0.(lastType := kind);
    if !status.Done? {
      return status, s, [];
    }
    status, drawn := IndexedTile(client, raw, palette, pos, x, y, w, h, n, if wellFormed then t.code.palette else [],
                                 if wellFormed then t.code.runs else [], rest, wellFormed);
  }

  lemma {:induction false} SmallTile(w: nat, h: nat)
    requires w <= 16 && h <= 16
    ensures Rows(w, h) <= 256
  {
    hide Rows;
    RowsMonotonic(w, h, 16);
    RowsIsProduct(w, 16);
  }

  /** One tile. Whatever the bytes, only the tile's own pixels are written and the index width
      stays that of the palette; for the bytes of a tile the scratch buffer is large enough, exactly
      they are consumed and the tile shows its image. */
  method HandleTile(client: RfbClient, raw: array<byte>, palette: array<Pixel>, s0: State,
                    x: nat, y: nat, w: nat, h: nat, n: nat,
                    ghost t: TrleCode, ghost c: Carried, ghost rest: seq<byte>, ghost wellFormed: bool)
    returns (status: Status, s: State, ghost drawn: seq<Pixel>)
    requires Ready(client, x, y, w, h, n) && w <= 16 && h <= 16
    requires palette != client.frameBuffer && palette.Length == 128 && raw.Length >= 512 * n && s0.Consistent()
    requires wellFormed ==>
               && ValidTile(t, c, w, h) && Remembers(c, s0, palette[..], n)
               && client.input == TileBytes(t, c, n, w, h) + rest
    modifies client`input, client.frameBuffer, raw, palette
    ensures s.Consistent()
    ensures |drawn| <= Rows(w, h) && client.Screen() == Blit(old(client.Screen()), AreaOf(client, x, y, w), drawn)
    ensures status.Done? ==> |drawn| == Rows(w, h)
    ensures wellFormed ==>
              && status.Done? && client.input == rest && Remembers(CarryOn(t, c), s, palette[..], n)
              && Matches(n, drawn, TileImage(t, c, w, h))
  {
    hide Rows, Blit, Low, PlainRuns, IndexRuns, PackRows, PixelBytes, ToBytes, TileBytes,
         Expand, Flatten, Look, HoldsColours, IndexRunsFor, RowsOf, ProperRuns, Filled;
    s := s0;
    BlitNone(client.Screen(), AreaOf(client, x, y, w));
    SmallTile(w, h);
    if wellFormed {
      TypeByte(t, c, n, w, h, rest);
    }
    var ok, bs := client.ReadFromRFBServer(1);
    if !ok {
      return Failed, s, [];
    }
    var kind := bs[0];
    if kind == 0 {
      status, drawn := RawKind(client, raw, x, y, w, h, n, if wellFormed then t.code.pixels else [], rest, wellFormed);
    } else if kind == 1 {
      var colour;
      status, colour, drawn := SolidKind(client, raw, x, y, w, h, n, if wellFormed then t.code.colour else 0, rest,
                                         wellFormed);
      s := s.(lastType := 1, colour := colour);
    } else if kind == 127 {
      status, s, drawn := Case127(client, raw, palette, s, 0, x, y, w, h, n, t, c, rest, wellFormed);
    } else if kind == 128 {
      status, drawn := PlainTile(client, raw, x, y, w, h, n, if wellFormed then t.code.runs else [], rest, wellFormed);
    } else if kind == 129 {
      status, drawn := IndexedTile(client, raw, palette, 0, x, y, w, h, n, c.palette,
                                   if wellFormed then t.runs else [], rest, wellFormed);
    } else if kind <= 16 {
      status, s, drawn := PackedKind(client, raw, palette, s, kind, x, y, w, h, n, t, c, rest, wellFormed);
    } else if kind >= 130 {
      status, s, drawn := IndexedKind(client, raw, palette, s, kind, x, y, w, h, n, t, c, rest, wellFormed);
    } else {
      return Failed, s, [];
    }
  }

  /** The tiles, coded one after the other, are the pieces; c is what comes before the first. */
  ghost predicate Coded(tiles: seq<TrleCode>, c: Carried, pieces: seq<Piece>, n: nat)
    decreases |tiles|
  {
    && |tiles| == |pieces|
    && (tiles != [] ==>
          var w, h := pieces[0].w, pieces[0].h;
          && ValidTile(tiles[0], c, w, h)
          && pieces[0].bytes == TileBytes(tiles[0], c, n, w, h) && pieces[0].image == TileImage(tiles[0], c, w, h)
          && Coded(tiles[1..], CarryOn(tiles[0], c), pieces[1..], n))
  }

  const FIRST: Carried := Carried(Nothing, [])

  /** A TRLE rectangle. Whatever the bytes, nothing outside the rectangle is written. For the bytes
      of tiles that code an image, however they refer back to earlier palettes, the scratch buffer
      is large enough, exactly those bytes are consumed and the rectangle shows the image. */
  method HandleTRLE(client: RfbClient, raw0: array<byte>, rx: nat, ry: nat, rw: nat, rh: nat, n: nat,
                    ghost tiles: seq<TrleCode>, ghost pieces: seq<Piece>, ghost image: seq<Pixel>,
                    ghost rest: seq<byte>, ghost wellFormed: bool)
    returns (status: Status)
    requires client.Valid() && client.frameBuffer != null && IsPixelSize(n) && client.bitsPerPixel == 8 * LoadWidth(n)
    requires client.CheckRect(rx, ry, rw, rh)
    requires wellFormed ==>
               && |image| == Rows(rw, rh) && Tiled(pieces, image, rw, rh, 16, n, 0, 0)
               && Coded(tiles, FIRST, pieces, n) && client.input == Joined(pieces) + rest
    modifies client`input, client.frameBuffer, raw0
    ensures OutsideKept(Rect(client.width, client.height, rx, ry, rw, rh, 16), old(client.Screen()), client.Screen())
    ensures wellFormed ==>
              && status.Done? && client.input == rest
              && Shows(old(client.Screen()), client.Screen(), client.width, client.height, rx, ry, rw, rh, image, n)
  {
    hide Rows, Blit, Low, Tiled, Joined, Progress, TileBytes, TileImage, ValidTile, CarryOn, Remembers;
    ghost var r, before := Rect(client.width, client.height, rx, ry, rw, rh, 16), client.Screen();
    ghost var codes, left, c := tiles, pieces, FIRST;
    var raw := raw0;
    if raw.Length < 16 * 16 * n * 2 {
      raw := new byte[16 * 16 * n * 2];
    }
    var palette := new Pixel[128];
    var s := State(0, 0, 0, 0, 0);
    NothingChanged(r, before);
    if wellFormed {
      Begin(rest, r, before, pieces, image, n);
      NothingCarried(s, palette[..], n);
    }
    var j: nat := 0;
    while j < rh
      invariant client.Valid() && s.Consistent() && (raw == raw0 || fresh(raw))
      invariant OutsideKept(r, before, client.Screen())
      invariant wellFormed ==>
                  && Coded(codes, c, left, n) && Remembers(c, s, palette[..], n)
                  && Progress(client.input, rest, r, before, client.Screen(), left, image, n, 0, j)
    {
      var i: nat := 0;
      while i < rw
        invariant client.Valid() && s.Consistent() && (raw == raw0 || fresh(raw))
        invariant OutsideKept(r, before, client.Screen())
        invariant wellFormed ==>
                    && Coded(codes, c, left, n) && Remembers(c, s, palette[..], n)
                    && Progress(client.input, rest, r, before, client.Screen(), left, image, n, i, j)
      {
        var w, h := Clip(rw, i, 16), Clip(rh, j, 16);
        ghost var input, now, after := client.input, client.Screen(), [];
        if wellFormed {
          after := TileNext(input, rest, r, before, now, left, image, n, i, j);
        }
        ghost var t := if wellFormed then codes[0] else SameSolid;
        ghost var drawn;
        status, s, drawn := HandleTile(client, raw, palette, s, rx + i, ry + j, w, h, n, t, c, after, wellFormed);
        TileKeepsOutside(r, before, now, i, j, drawn);
        if !status.Done? {
          return;
        }
        if wellFormed {
          TileDone(input, after, rest, r, before, now, left, image, n, i, j, drawn);
          codes, left, c := codes[1..], left[1..], CarryOn(t, c);
        }
        i := i + 16;
      }
      if wellFormed {
        RowDone(client.input, rest, r, before, client.Screen(), left, image, n, i, j);
      }
      j := j + 16;
    }
    status := Done;
    if wellFormed {
      Finished(client.input, rest, r, before, client.Screen(), left, image, n, j);
    }
  }

  lemma {:induction false} NothingCarried(s: State, palette: seq<Pixel>, n: nat)
    requires s.lastType == 0
    ensures Remembers(FIRST, s, palette, n)
  {
  }

  /** Every image of every size has a coding: here, raw tiles. */
  lemma {:induction false} AnyImage(c: Carried, image: seq<Pixel>, rw: nat, rh: nat, n: nat, i: nat, j: nat)
    returns (tiles: seq<TrleCode>, pieces: seq<Piece>)
    requires Rows(rw, rh) <= |image|
    ensures Coded(tiles, c, pieces, n) && Tiled(pieces, image, rw, rh, 16, n, i, j)
    decreases if j < rh then rh - j else 0, if i < rw then rw - i else 0
  {
    hide Rows, Low, Crop;
    if j >= rh || rw == 0 {
      tiles, pieces := [], [];
    } else if i >= rw {
      tiles, pieces := AnyImage(c, image, rw, rh, n, 0, j + 16);
    } else {
      var w, h := Clip(rw, i, 16), Clip(rh, j, 16);
      RowsMonotonic(rw, j + h, rh);
      var t := Fresh(Raw(Crop(image, rw, i, j, w, h)));
      tiles, pieces := AnyImage(c, image, rw, rh, n, i + 16, j);
      assert ([t] + tiles)[1..] == tiles;
      var piece := Piece(w, h, TileBytes(t, c, n, w, h), TileImage(t, c, w, h));
      assert ([piece] + pieces)[1..] == pieces;
      tiles, pieces := [t] + tiles, [piece] + pieces;
    }
  }

  /** The scratch buffer is no larger than it must be: with one-byte pixels a 16 x 16 tile of
      one-pixel runs fills it. */
  lemma {:induction false} ScratchIsTight(count: nat, n: nat)
    ensures var runs := seq(count, _ => Run(0, 1));
            ProperRuns(runs) && |Expand(runs)| == count && |PlainRuns(runs, n)| == Rows(n + 1, count)
  {
    if count > 0 {
      ScratchIsTight(count - 1, n);
      var runs := seq(count, _ => Run(0, 1));
      assert runs[..count - 1] == seq(count - 1, _ => Run(0, 1)) == runs[1..];
    }
  }
}
