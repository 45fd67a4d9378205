/** ZRLE tiles: HandleZRLETile and the tile loop of HandleZRLE (src/encodings/zrle.c). */
module Zrle {
  import opened Bytes
  import opened Area
  import opened VncViewer
  import opened TileCode
  import opened TileDecode
  import opened Tiles
  import ZywrleWavelet
  import Zywrle
  import ZywrleColour

  /** The run-length loop: 1, plus 255 for every 255 byte, plus the byte that ends it. */
  method ReadLength(mem: Memory, buffer0: nat, end: nat, ghost n: nat, ghost wellFormed: bool)
    returns (ok: bool, buffer: nat, length: nat)
    requires wellFormed ==> Stored(mem, buffer0, LengthBytes(n)) && buffer0 + |LengthBytes(n)| <= end
    ensures length > 0
    ensures wellFormed ==> ok && length == n + 1 && buffer == buffer0 + |LengthBytes(n)|
  {
    buffer, length := buffer0, 1;
    ghost var left := n;
    while mem(buffer) == 255
      invariant length > 0
      invariant wellFormed ==> length + left == n + 1
      invariant wellFormed ==> Stored(mem, buffer, LengthBytes(left))
      invariant wellFormed ==> buffer + |LengthBytes(left)| == buffer0 + |LengthBytes(n)|
      decreases if end > buffer then end - buffer else 0
    {
      if wellFormed {
        if left >= 255 {
          StoredFirst(mem, buffer, 255, LengthBytes(left - 255));
          left := left - 255;
        } else {
          StoredFirst(mem, buffer, left, []);
          assert false;
        }
      }
      if buffer + 1 >= end {
        return false, buffer, length;
      }
      length := length + mem(buffer);
      buffer := buffer + 1;
    }
    if wellFormed {
      StoredLast(mem, buffer, left);
    }
    length := length + mem(buffer);
    buffer := buffer + 1;
    ok := true;
  }

  lemma {:induction false} StoredLast(mem: Memory, p: nat, n: nat)
    requires Stored(mem, p, LengthBytes(n)) && mem(p) != 255
    ensures n < 255 && mem(p) == n && |LengthBytes(n)| == 1
  {
    if n >= 255 {
      StoredFirst(mem, p, 255, LengthBytes(n - 255));
    } else {
      StoredFirst(mem, p, n, []);
    }
  }

  /** The bytes still to be read while runs[r..] are left, and the pixels drawn so far. */
  ghost predicate PlainProgress(mem: Memory, buffer: nat, stop: nat, runs: seq<Run>, r: nat, n: nat,
                                drawn: seq<Pixel>) {
    && r <= |runs| && ProperRuns(runs) && ProperRuns(runs[r..])
    && Stored(mem, buffer, PlainRuns(runs[r..], n)) && buffer + |PlainRuns(runs[r..], n)| == stop
    && Matches(n, drawn, Expand(runs[..r]))
  }

  /** Type 128: plain RLE. */
  method PlainRleTile(fb: array<Pixel>, a: Area, h: nat, mem: Memory, buffer0: nat, end: nat, n: nat,
                      ghost pen: Pen, ghost runs: seq<Run>, ghost wellFormed: bool)
    returns (error: int, buffer: nat, ghost drawn: seq<Pixel>)
    requires IsPixelSize(n) && pen.a == a && pen.h == h && pen.Drew(fb[..], [])
    requires wellFormed ==>
               && ProperRuns(runs) && |Expand(runs)| == Rows(a.w, h)
               && Stored(mem, buffer0, PlainRuns(runs, n)) && buffer0 + |PlainRuns(runs, n)| <= end
    modifies fb
    ensures pen.Drew(fb[..], drawn)
    ensures error <= 0 && (error == 0 ==> |drawn| == Rows(a.w, h))
    ensures wellFormed ==>
              && error == 0 && buffer == buffer0 + |PlainRuns(runs, n)|
              && Matches(n, drawn, Expand(runs))
  {
    hide Rows, Blit, CursorAt, Expand, PlainRuns, LengthBytes, Low, UncompressCPixel, ToBytes;
    buffer, drawn := buffer0, [];
    var i: nat, j: nat := 0, 0;
    ghost var r, stop := 0, if wellFormed then buffer0 + |PlainRuns(runs, n)| else 0;
    FirstPixel(a.w);
    if wellFormed {
      PlainStart(mem, buffer0, runs, n);
    }
    while j < h
      invariant pen.Drew(fb[..], drawn) && CursorAt(a.w, |drawn|) == Cursor(i, j)
      invariant wellFormed ==> PlainProgress(mem, buffer, stop, runs, r, n, drawn)
      decreases Rows(a.w, h) - |drawn|
    {
      CursorDone(a.w, h, |drawn|);
      if wellFormed {
        PlainStep(mem, buffer, stop, runs, r, n, drawn);
      }
      if buffer + n + 1 > end {
        return -7, buffer, drawn;
      }
      var colour := UncompressCPixel(mem, buffer, n);
      buffer := buffer + n;
      var ok, length;
      ok, buffer, length := ReadLength(mem, buffer, end, if wellFormed then runs[r].len - 1 else 0, wellFormed);
      if !ok {
        return -8, buffer, drawn;
      }
      ghost var before := drawn;
      i, j, drawn := DrawRun(fb, a, h, i, j, colour, length, pen, drawn);
      if wellFormed {
        MatchesRun(n, before, Expand(runs[..r]), colour, runs[r].value, runs[r].len);
        r := r + 1;
      }
    }
    CursorDone(a.w, h, |drawn|);
    if wellFormed {
      RunsDone(runs, r);
      assert runs[..r] == runs;
      PlainEnd(runs, n);
    }
    error := 0;
  }

  lemma {:induction false} PlainStart(mem: Memory, buffer: nat, runs: seq<Run>, n: nat)
    requires ProperRuns(runs) && Stored(mem, buffer, PlainRuns(runs, n))
    ensures PlainProgress(mem, buffer, buffer + |PlainRuns(runs, n)|, runs, 0, n, [])
  {
    assert runs[0..] == runs && runs[..0] == [];
  }

  lemma {:induction false} PlainEnd(runs: seq<Run>, n: nat)
    ensures ProperRuns(runs[|runs|..]) && PlainRuns(runs[|runs|..], n) == []
  {
  }

  /** The next run's bytes are at the buffer, and its pixels are still missing. */
  lemma {:induction false} PlainStep(mem: Memory, buffer: nat, stop: nat, runs: seq<Run>, r: nat, n: nat,
                                     drawn: seq<Pixel>)
    requires IsPixelSize(n) && PlainProgress(mem, buffer, stop, runs, r, n, drawn) && |drawn| < |Expand(runs)|
    ensures r < |runs| && ProperRuns(runs[r + 1..]) && runs[r].len > 0
    ensures Low(UncompressCPixel(mem, buffer, n), n) == Low(runs[r].value, n)
    ensures Stored(mem, buffer + n, LengthBytes(runs[r].len - 1))
    ensures var next := buffer + n + |LengthBytes(runs[r].len - 1)|;
            next + |PlainRuns(runs[r + 1..], n)| == stop && Stored(mem, next, PlainRuns(runs[r + 1..], n))
    ensures Expand(runs[..r + 1]) == Expand(runs[..r]) + Filled(runs[r].value, runs[r].len)
    ensures |drawn| + runs[r].len <= |Expand(runs)|
  {
    hide Expand, PlainRuns, LengthBytes, ToBytes, UncompressCPixel, Low;
    RunsRemain(runs, r);
    PlainRunsNext(runs, r, n);
    ExpandPrefix(runs, r);
    StoredParts(mem, buffer, PlainRun(runs[r], n), PlainRuns(runs[r + 1..], n));
    StoredParts(mem, buffer, ToBytes(runs[r].value, n), LengthBytes(runs[r].len - 1));
    LoadStored(mem, buffer, runs[r].value, n);
  }

  ghost predicate IndexProgress(mem: Memory, buffer: nat, stop: nat, palette: seq<Pixel>, runs: seq<Run>, r: nat,
                                n: nat, drawn: seq<Pixel>)
  {
    && r <= |runs| && |palette| <= 127 && IndexRunsFor(runs, |palette|) && IndexRunsFor(runs[r..], |palette|)
    && Stored(mem, buffer, IndexRuns(runs[r..], |palette|)) && buffer + |IndexRuns(runs[r..], |palette|)| == stop
    && Matches(n, drawn, Look(palette, Expand(runs[..r])))
  }

  lemma {:induction false} IndexStart(mem: Memory, buffer: nat, palette: seq<Pixel>, runs: seq<Run>, n: nat)
    requires |palette| <= 127 && IndexRunsFor(runs, |palette|) && Stored(mem, buffer, IndexRuns(runs, |palette|))
    ensures IndexProgress(mem, buffer, buffer + |IndexRuns(runs, |palette|)|, palette, runs, 0, n, [])
  {
    assert runs[0..] == runs && runs[..0] == [];
  }

  lemma {:induction false} IndexEnd(runs: seq<Run>, colours: nat)
    requires colours <= 128
    ensures IndexRunsFor(runs[|runs|..], colours) && IndexRuns(runs[|runs|..], colours) == []
  {
  }

  lemma {:induction false} IndexStep(mem: Memory, buffer: nat, stop: nat, palette: seq<Pixel>, runs: seq<Run>, r: nat,
                                     n: nat, drawn: seq<Pixel>)
    requires IndexProgress(mem, buffer, stop, palette, runs, r, n, drawn) && |drawn| < |Expand(runs)|
    ensures r < |runs| && runs[r].len > 0 && runs[r].value < |palette| && IndexRunsFor(runs[r + 1..], |palette|)
    ensures mem(buffer) == (if runs[r].len == 1 then runs[r].value else runs[r].value + 128)
    ensures runs[r].len > 1 ==> Stored(mem, buffer + 1, LengthBytes(runs[r].len - 1))
    ensures var next := buffer + 1 + (if runs[r].len == 1 then 0 else |LengthBytes(runs[r].len - 1)|);
            && next + |IndexRuns(runs[r + 1..], |palette|)| == stop
            && Stored(mem, next, IndexRuns(runs[r + 1..], |palette|))
    ensures Look(palette, Expand(runs[..r + 1])) ==
            Look(palette, Expand(runs[..r])) + Filled(palette[runs[r].value], runs[r].len)
    ensures |drawn| + runs[r].len <= |Expand(runs)|
  {
    hide Expand, IndexRuns, LengthBytes, Low;
    RunsRemain(runs, r);
    IndexRunsNext(runs, r, |palette|);
    ExpandPrefix(runs, r);
    StoredParts(mem, buffer, IndexRun(runs[r]), IndexRuns(runs[r + 1..], |palette|));
    if runs[r].len == 1 {
      StoredFirst(mem, buffer, runs[r].value, []);
    } else {
      StoredFirst(mem, buffer, runs[r].value + 128, LengthBytes(runs[r].len - 1));
    }
  }

  /** Types 130 to 255, after the palette: palette RLE. */
  method PaletteRleTile(fb: array<Pixel>, a: Area, h: nat, mem: Memory, buffer0: nat, end: nat, n: nat,
                        palette: array<Pixel>, ghost colours: seq<Pixel>,
                        ghost pen: Pen, ghost runs: seq<Run>, ghost wellFormed: bool)
    returns (error: int, buffer: nat, ghost drawn: seq<Pixel>)
    requires palette != fb && palette.Length == 128
    requires pen.a == a && pen.h == h && pen.Drew(fb[..], [])
    requires wellFormed ==>
               && |colours| <= 127 && HoldsColours(palette[..], colours, n)
               && IndexRunsFor(runs, |colours|) && |Expand(runs)| == Rows(a.w, h)
               && Stored(mem, buffer0, IndexRuns(runs, |colours|)) && buffer0 + |IndexRuns(runs, |colours|)| <= end
    modifies fb
    ensures pen.Drew(fb[..], drawn)
    ensures error <= 0 && (error == 0 ==> |drawn| == Rows(a.w, h))
    ensures wellFormed ==>
              && error == 0 && buffer == buffer0 + |IndexRuns(runs, |colours|)|
              && Matches(n, drawn, Look(colours, Expand(runs)))
  {
    hide Rows, Blit, CursorAt, Expand, IndexRuns, LengthBytes, Low, Look;
    buffer, drawn := buffer0, [];
    var i: nat, j: nat := 0, 0;
    ghost var r, stop := 0, if wellFormed then buffer0 + |IndexRuns(runs, |colours|)| else 0;
    FirstPixel(a.w);
    if wellFormed {
      IndexStart(mem, buffer0, colours, runs, n);
    }
    while j < h
      invariant pen.Drew(fb[..], drawn) && CursorAt(a.w, |drawn|) == Cursor(i, j)
      invariant wellFormed ==> IndexProgress(mem, buffer, stop, colours, runs, r, n, drawn)
      decreases Rows(a.w, h) - |drawn|
    {
      CursorDone(a.w, h, |drawn|);
      if wellFormed {
        IndexStep(mem, buffer, stop, colours, runs, r, n, drawn);
      }
      if buffer >= end {
        return -10, buffer, drawn;
      }
      var colour, length := palette[mem(buffer) % 128], 1;
      if mem(buffer) >= 128 {
        if buffer + 1 >= end {
          return -11, buffer, drawn;
        }
        var ok;
        ok, buffer, length := ReadLength(mem, buffer + 1, end, if wellFormed then runs[r].len - 1 else 0, wellFormed);
        if !ok {
          return -8, buffer, drawn;
        }
      } else {
        buffer := buffer + 1;
      }
      ghost var before := drawn;
      i, j, drawn := DrawRun(fb, a, h, i, j, colour, length, pen, drawn);
      if wellFormed {
        assert palette[..][runs[r].value] == colour;
        MatchesRun(n, before, Look(colours, Expand(runs[..r])), colour, colours[runs[r].value], runs[r].len);
        r := r + 1;
      }
    }
    CursorDone(a.w, h, |drawn|);
    if wellFormed {
      LookLength(colours, Expand(runs[..r]));
      RunsDone(runs, r);
      assert runs[..r] == runs;
      IndexEnd(runs, |colours|);
    }
    error := 0;
  }

  /** A ZRLE tile's code, or a ZYWRLE one: coefficients coded as a tile, sent under type 0. */
  datatype ZrleCode = Direct(code: Code) | Zywrle(code: Code)

  /** The wavelet levels of a tile: none for 8-bit pixels and while bit 7 of the quality level marks the
      inner tile; else the fewest that, three for each, make up for what quality lacks of 9. */
  function ZywrleLevel(qualityLevel: nat, n: nat): (level: nat)
    ensures n == 1 || qualityLevel >= 128 ==> level == 0
    ensures n > 1 && qualityLevel <= 9 ==> 3 * level + qualityLevel >= 9
    ensures n > 1 && qualityLevel <= 9 && level > 0 ==> 3 * (level - 1) + qualityLevel < 9
  {
    if n == 1 || qualityLevel >= 128 then 0 else if qualityLevel >= 9 then 0 else 3 - qualityLevel / 3
  }

  /** At a level above 0 type 0 announces coefficients, so raw pixels need another type. */
  ghost predicate IsTile(t: ZrleCode, w: nat, h: nat, level: nat) {
    && Codes(t.code, w, h, 127)
    && (t.Direct? && t.code.Raw? ==> level == 0)
    && (t.Zywrle? ==> level > 0)
  }

  function EncodeTile(t: ZrleCode, n: nat, w: nat, h: nat): (bs: seq<byte>)
    requires Codes(t.code, w, h, 127)
    ensures |bs| > 0
  {
    if t.Direct? then Encode(t.code, n, w, h) else [0] + Encode(t.code, n, w, h)
  }

  function TileImage(t: ZrleCode, n: nat, w: nat, h: nat, level: nat): (img: seq<Pixel>)
    requires w > 0 && IsTile(t, w, h, level)
    ensures |img| == Rows(w, h)
  {
    ImageLength(t.code, w, h, 127);
    if t.Direct? then Image(t.code, w, h) else Zywrle.Synthesized(Image(t.code, w, h), w, h, level,
                                                                  ZywrleColour.DepthOf(n))
  }

  /** The type byte of a stored code, and where the rest of it is. */
  lemma {:induction false} CodeStored(mem: Memory, p: nat, code: Code, n: nat, w: nat, h: nat)
    requires Codes(code, w, h, 127) && Stored(mem, p, Encode(code, n, w, h))
    ensures match code
            case Raw(pixels) => mem(p) == 0 && Stored(mem, p + 1, PixelBytes(pixels, n))
            case Solid(colour) => mem(p) == 1 && Stored(mem, p + 1, ToBytes(colour, n))
            case Packed(palette, rows) =>
              && mem(p) == |palette| && Stored(mem, p + 1, PixelBytes(palette, n))
              && Stored(mem, p + 1 + Rows(n, |palette|), PackRows(rows, w, |palette|))
            case Plain(runs) => mem(p) == 128 && Stored(mem, p + 1, PlainRuns(runs, n))
            case Indexed(palette, runs) =>
              && mem(p) == 128 + |palette| && Stored(mem, p + 1, PixelBytes(palette, n))
              && Stored(mem, p + 1 + Rows(n, |palette|), IndexRuns(runs, |palette|))
  {
    hide Rows, PlainRuns, IndexRuns, PackRows, ToBytes, PixelBytes;
    match code
    case Raw(pixels) => StoredFirst(mem, p, 0, PixelBytes(pixels, n));
    case Solid(colour) => StoredFirst(mem, p, 1, ToBytes(colour, n));
    case Packed(palette, rows) =>
      StoredFirst(mem, p, |palette|, PixelBytes(palette, n) + PackRows(rows, w, |palette|));
      StoredParts(mem, p + 1, PixelBytes(palette, n), PackRows(rows, w, |palette|));
    case Plain(runs) => StoredFirst(mem, p, 128, PlainRuns(runs, n));
    case Indexed(palette, runs) =>
      StoredFirst(mem, p, 128 + |palette|, PixelBytes(palette, n) + IndexRuns(runs, |palette|));
      StoredParts(mem, p + 1, PixelBytes(palette, n), IndexRuns(runs, |palette|));
  }

  /** Types 2 to 127 */
  method PaletteTile(client: RfbClient, mem: Memory, buffer0: nat, length: nat, x: nat, y: nat, w: nat, h: nat, n: nat,
                     ghost code: Code, ghost wellFormed: bool)
    returns (result: int, ghost drawn: seq<Pixel>)
    requires Ready(client, x, y, w, h, n) && 2 <= mem(buffer0) <= 127
    requires wellFormed ==>
               && code.Packed? && Codes(code, w, h, 127) && Stored(mem, buffer0, Encode(code, n, w, h))
               && |Encode(code, n, w, h)| <= length
    modifies client.frameBuffer
    ensures |drawn| <= Rows(w, h) && client.Screen() == Blit(old(client.Screen()), AreaOf(client, x, y, w), drawn)
    ensures result >= 0 ==> |drawn| == Rows(w, h)
    ensures wellFormed ==> result == |Encode(code, n, w, h)| && Matches(n, drawn, Image(code, w, h))
  {
    hide Rows, Blit, Low, PackRows, PixelBytes, Flatten, Look, RowBytes;
    ghost var a := AreaOf(client, x, y, w);
    ghost var pen := Pen(client.Screen(), client.height, a, h);
    BlitNone(client.Screen(), a);
    var count := mem(buffer0);
    var bpp := IndexBits(count);
    var palette := new Pixel[128];
    var paletteBytes := RowOffset(n, count);
    var packedBytes := RowOffset(RowBytes(w, bpp), h);
    if wellFormed {
      CodeStored(mem, buffer0, code, n, w, h);
      PackRowsLength(code.rows, w, |code.palette|);
    }
    if 1 + paletteBytes + packedBytes > length {
      return -5, [];
    }
    var buffer := ReadPalette(mem, buffer0 + 1, count, n, palette, if wellFormed then code.palette else [], wellFormed);
    buffer, drawn := PackedTile(client.frameBuffer, Area(client.width, x, y, w), h, mem, buffer, bpp, palette, n,
                                if wellFormed then code.palette else [], if wellFormed then code.rows else [],
                                pen, wellFormed);
    result := buffer - buffer0;
  }

  /** Types 130 to 255 */
  method PaletteRle(client: RfbClient, mem: Memory, buffer0: nat, length: nat, x: nat, y: nat, w: nat, h: nat, n: nat,
                    ghost code: Code, ghost wellFormed: bool)
    returns (result: int, ghost drawn: seq<Pixel>)
    requires Ready(client, x, y, w, h, n) && mem(buffer0) >= 130
    requires wellFormed ==>
               && code.Indexed? && Codes(code, w, h, 127) && Stored(mem, buffer0, Encode(code, n, w, h))
               && |Encode(code, n, w, h)| <= length
    modifies client.frameBuffer
    ensures |drawn| <= Rows(w, h) && client.Screen() == Blit(old(client.Screen()), AreaOf(client, x, y, w), drawn)
    ensures result >= 0 ==> |drawn| == Rows(w, h)
    ensures wellFormed ==> result == |Encode(code, n, w, h)| && Matches(n, drawn, Image(code, w, h))
  {
    hide Rows, Blit, Low, IndexRuns, PixelBytes, Look, Expand;
    ghost var a := AreaOf(client, x, y, w);
    ghost var pen := Pen(client.Screen(), client.height, a, h);
    BlitNone(client.Screen(), a);
    var count := mem(buffer0) - 128;
    var palette := new Pixel[128];
    var paletteBytes := RowOffset(n, count);
    if wellFormed {
      CodeStored(mem, buffer0, code, n, w, h);
      SomeRuns(code.runs, |code.palette|, w, h);
    }
    if 2 + paletteBytes > length {
      return -9, [];
    }
    var buffer := ReadPalette(mem, buffer0 + 1, count, n, palette, if wellFormed then code.palette else [], wellFormed);
    var error;
    error, buffer, drawn := PaletteRleTile(client.frameBuffer, Area(client.width, x, y, w), h, mem, buffer,
                                           buffer0 + length, n, palette, if wellFormed then code.palette else [], pen,
                                           if wellFormed then code.runs else [], wellFormed);
    if error != 0 {
      return error, drawn;
    }
    result := buffer - buffer0;
  }

  /** A tile with pixels has a run, and a run has a byte. */
  lemma {:induction false} SomeRuns(runs: seq<Run>, colours: nat, w: nat, h: nat)
    requires colours <= 128 && IndexRunsFor(runs, colours) && |Expand(runs)| == Rows(w, h) && w > 0 && h > 0
    ensures |IndexRuns(runs, colours)| > 0
  {
  }

  /** The sub-encodings of HandleZRLETile other than ZYWRLE. */
  method DirectTile(client: RfbClient, mem: Memory, buffer0: nat, length: nat, x: nat, y: nat, w: nat, h: nat, n: nat,
                    ghost code: Code, ghost wellFormed: bool)
    returns (result: int, ghost drawn: seq<Pixel>)
    requires Ready(client, x, y, w, h, n) && length > 0
    requires wellFormed ==>
               && Codes(code, w, h, 127) && Stored(mem, buffer0, Encode(code, n, w, h))
               && |Encode(code, n, w, h)| <= length
    modifies client.frameBuffer
    ensures |drawn| <= Rows(w, h) && client.Screen() == Blit(old(client.Screen()), AreaOf(client, x, y, w), drawn)
    ensures result >= 0 ==> |drawn| == Rows(w, h)
    ensures wellFormed ==> result == |Encode(code, n, w, h)| && Matches(n, drawn, Image(code, w, h))
  {
    hide Rows, Blit, Low, PlainRuns, IndexRuns, PackRows, PixelBytes, Flatten, Look, Expand, RawImage, ToBytes,
         UncompressCPixel;
    ghost var a := AreaOf(client, x, y, w);
    ghost var pen := Pen(client.Screen(), client.height, a, h);
    BlitNone(client.Screen(), a);
    if wellFormed {
      CodeStored(mem, buffer0, code, n, w, h);
    }
    var kind, buffer := mem(buffer0), buffer0 + 1;
    if kind == 0 {
      result, drawn := RawKind(client, mem, buffer0, length, x, y, w, h, n, code, wellFormed);
    } else if kind == 1 {
      result, drawn := SolidKind(client, mem, buffer0, length, x, y, w, h, n, code, wellFormed);
    } else if kind <= 127 {
      result, drawn := PaletteTile(client, mem, buffer0, length, x, y, w, h, n, code, wellFormed);
    } else if kind == 128 {
      var error;
      error, buffer, drawn := PlainRleTile(client.frameBuffer, Area(client.width, x, y, w), h, mem, buffer,
                                           buffer0 + length, n, pen, if wellFormed then code.runs else [], wellFormed);
      result := if error != 0 then error else buffer - buffer0;
    } else if kind == 129 {
      result, drawn := -8, [];
    } else {
      result, drawn := PaletteRle(client, mem, buffer0, length, x, y, w, h, n, code, wellFormed);
    }
  }

  /** Type 0 */
  method RawKind(client: RfbClient, mem: Memory, buffer0: nat, length: nat, x: nat, y: nat, w: nat, h: nat, n: nat,
                 ghost code: Code, ghost wellFormed: bool)
    returns (result: int, ghost drawn: seq<Pixel>)
    requires Ready(client, x, y, w, h, n)
    requires wellFormed ==>
               && code.Raw? && Codes(code, w, h, 127) && Stored(mem, buffer0, Encode(code, n, w, h))
               && |Encode(code, n, w, h)| <= length
    modifies client.frameBuffer
    ensures |drawn| <= Rows(w, h) && client.Screen() == Blit(old(client.Screen()), AreaOf(client, x, y, w), drawn)
    ensures result >= 0 ==> |drawn| == Rows(w, h)
    ensures wellFormed ==> result == |Encode(code, n, w, h)| && Matches(n, drawn, Image(code, w, h))
  {
    hide Rows, Blit, Low, PixelBytes, RawImage;
    ghost var a := AreaOf(client, x, y, w);
    ghost var pen := Pen(client.Screen(), client.height, a, h);
    BlitNone(client.Screen(), a);
    var count := RowOffset(w, h);
    var size := RowOffset(n, count);
    if wellFormed {
      CodeStored(mem, buffer0, code, n, w, h);
    }
    if n == 3 {
      if 1 + size > length {
        return -3, [];
      }
      var buffer;
      buffer, drawn := RawTile(client.frameBuffer, Area(client.width, x, y, w), h, mem, buffer0 + 1, n,
                               if wellFormed then code.pixels else [], pen, wellFormed);
      result := buffer - buffer0;
    } else {
      client.CopyRectangle(mem, buffer0 + 1, x, y, w, h);
      drawn := RawImage(mem, buffer0 + 1, n, Rows(w, h));
      if wellFormed {
        RawImageMatches(mem, buffer0 + 1, n, code.pixels);
      }
      result := 1 + size;
    }
  }

  /** Type 1 */
  method SolidKind(client: RfbClient, mem: Memory, buffer0: nat, length: nat, x: nat, y: nat, w: nat, h: nat, n: nat,
                   ghost code: Code, ghost wellFormed: bool)
    returns (result: int, ghost drawn: seq<Pixel>)
    requires Ready(client, x, y, w, h, n)
    requires wellFormed ==>
               && code.Solid? && Codes(code, w, h, 127) && Stored(mem, buffer0, Encode(code, n, w, h))
               && |Encode(code, n, w, h)| <= length
    modifies client.frameBuffer
    ensures |drawn| <= Rows(w, h) && client.Screen() == Blit(old(client.Screen()), AreaOf(client, x, y, w), drawn)
    ensures result >= 0 ==> |drawn| == Rows(w, h)
    ensures wellFormed ==> result == |Encode(code, n, w, h)| && Matches(n, drawn, Image(code, w, h))
  {
    hide Rows, Blit, Low, UncompressCPixel, ToBytes, Filled;
    BlitNone(client.Screen(), AreaOf(client, x, y, w));
    var colour := UncompressCPixel(mem, buffer0 + 1, n);
    if wellFormed {
      CodeStored(mem, buffer0, code, n, w, h);
      LoadStored(mem, buffer0 + 1, code.colour, n);
      FilledMatches(n, LoadWidth(n), code.colour, colour, Rows(w, h));
    }
    if 1 + n > length {
      return -4, [];
    }
    client.FillRectangle(x, y, w, h, colour);
    drawn := Filled(Low(colour, LoadWidth(n)), Rows(w, h));
    result := 1 + n;
  }

  /** One tile. Whatever the bytes, only the tile's own pixels are written, in order from its
      first; a non-negative result means the whole tile was drawn. For the bytes of a ZRLE or
      ZYWRLE tile the result is their number and the tile shows their image. */
  method HandleZRLETile(client: RfbClient, mem: Memory, buffer0: nat, length: nat, x: nat, y: nat, w: nat, h: nat,
                        n: nat, zlibBuffer: array<ZywrleWavelet.Cell>, ghost t: ZrleCode, ghost wellFormed: bool)
    returns (result: int, ghost drawn: seq<Pixel>)
    requires Ready(client, x, y, w, h, n) && Rows(w, h) <= zlibBuffer.Length
    requires client.qualityLevel % 128 <= 9 && client.qualityLevel < 256
    requires wellFormed ==>
               && IsTile(t, w, h, ZywrleLevel(client.qualityLevel, n))
               && Stored(mem, buffer0, EncodeTile(t, n, w, h)) && |EncodeTile(t, n, w, h)| <= length
    modifies client`qualityLevel, client.frameBuffer, zlibBuffer
    ensures client.qualityLevel == old(client.qualityLevel)
    ensures |drawn| <= Rows(w, h) && client.Screen() == Blit(old(client.Screen()), AreaOf(client, x, y, w), drawn)
    ensures result >= 0 ==> |drawn| == Rows(w, h)
    ensures wellFormed ==>
              && result == |EncodeTile(t, n, w, h)|
              && Matches(n, drawn, TileImage(t, n, w, h, ZywrleLevel(client.qualityLevel, n)))
    decreases if client.qualityLevel < 128 then 1 else 0
  {
    hide Rows, Blit, Low, Zywrle.Synthesized, Encode, Image, Codes, ZywrleColour.DepthOf;
    ghost var a, before := AreaOf(client, x, y, w), client.Screen();
    var level := ZywrleLevel(client.qualityLevel, n);
    BlitNone(before, a);
    if length < 1 {
      return -2, [];
    }
    if wellFormed {
      ZywrleStored(mem, buffer0, t, n, w, h);
    }
    if mem(buffer0) == 0 && level > 0 {
      client.qualityLevel := client.qualityLevel + 128;
      ghost var inner := Direct(t.code);
      result, drawn := HandleZRLETile(client, mem, buffer0 + 1, length - 1, x, y, w, h, n, zlibBuffer, inner,
                                      wellFormed);
      client.qualityLevel := client.qualityLevel - 128;
      if result < 0 {
        return;
      }
      Zywrle.GrabDrawn(before, client.height, a, h, drawn);
      Zywrle.Synthesize(client.frameBuffer, Area(client.width, x, y, w), h, level, zlibBuffer, client.height,
                        ZywrleColour.DepthOf(n));
      ghost var synthesized := Zywrle.Synthesized(drawn, w, h, level, ZywrleColour.DepthOf(n));
      BlitOver(before, client.height, a, h, drawn, synthesized);
      if wellFormed {
        Zywrle.SynthesizedMatches(drawn, Image(t.code, w, h), w, h, level, n);
      }
      drawn := synthesized;
      result := 1 + result;
    } else {
      result, drawn := DirectTile(client, mem, buffer0, length, x, y, w, h, n, t.code, wellFormed);
    }
  }

  /** At a level above 0 the type byte 0 announces coefficients, and only then. */
  lemma {:induction false} ZywrleStored(mem: Memory, p: nat, t: ZrleCode, n: nat, w: nat, h: nat)
    requires Codes(t.code, w, h, 127) && Stored(mem, p, EncodeTile(t, n, w, h))
    ensures t.Zywrle? ==> mem(p) == 0 && Stored(mem, p + 1, Encode(t.code, n, w, h))
    ensures t.Direct? && mem(p) == 0 ==> t.code.Raw?
  {
    hide Encode, Codes;
    if t.Zywrle? {
      StoredFirst(mem, p, 0, Encode(t.code, n, w, h));
    } else {
      DirectStored(mem, p, t.code, n, w, h);
    }
  }

  lemma {:induction false} DirectStored(mem: Memory, p: nat, code: Code, n: nat, w: nat, h: nat)
    requires Codes(code, w, h, 127) && Stored(mem, p, Encode(code, n, w, h))
    ensures mem(p) == 0 ==> code.Raw?
  {
    hide Encode;
    CodeStored(mem, p, code, n, w, h);
  }

  /** The tiles, coded one after the other, are the pieces. */
  ghost predicate Coded(tiles: seq<ZrleCode>, pieces: seq<Piece>, n: nat, level: nat)
    decreases |tiles|
  {
    && |tiles| == |pieces|
    && (tiles != [] ==>
          var w, h := pieces[0].w, pieces[0].h;
          && w > 0 && IsTile(tiles[0], w, h, level)
          && pieces[0].bytes == EncodeTile(tiles[0], n, w, h) && pieces[0].image == TileImage(tiles[0], n, w, h, level)
          && Coded(tiles[1..], pieces[1..], n, level))
  }

  /** remaining, converted to the size_t parameter of HandleZRLETile. */
  function ToSize(remaining: int): nat {
    remaining % 0x1_0000_0000_0000_0000
  }

  /** The tile loop of HandleZRLE over the decompressed bytes. It stops at the first tile that
      fails (the function still returns TRUE); `finished` says that it did not have to. Whatever
      the bytes, nothing outside the rectangle is written. For the bytes of tiles that code an
      image, the rectangle shows the image and every byte is consumed. */
  method HandleZRLE(client: RfbClient, mem: Memory, length: nat, rx: nat, ry: nat, rw: nat, rh: nat, n: nat,
                    zlibBuffer: array<ZywrleWavelet.Cell>, ghost tiles: seq<ZrleCode>, ghost pieces: seq<Piece>,
                    ghost image: seq<Pixel>, ghost wellFormed: bool)
    returns (finished: bool, buf: int)
    requires client.Valid() && client.frameBuffer != null && IsPixelSize(n) && client.bitsPerPixel == 8 * LoadWidth(n)
    requires client.CheckRect(rx, ry, rw, rh) && Rows(64, 64) <= zlibBuffer.Length
    requires client.qualityLevel <= 9
    requires length < 0x1_0000_0000_0000_0000
    requires wellFormed ==>
               && |image| == Rows(rw, rh) && Tiled(pieces, image, rw, rh, 64, n, 0, 0)
               && Coded(tiles, pieces, n, ZywrleLevel(client.qualityLevel, n)) && Joined(pieces) == Peek(mem, 0, length)
    modifies client`qualityLevel, client.frameBuffer, zlibBuffer
    ensures client.qualityLevel == old(client.qualityLevel)
    ensures OutsideKept(Rect(client.width, client.height, rx, ry, rw, rh, 64), old(client.Screen()), client.Screen())
    ensures wellFormed ==>
              && finished && buf == length
              && Shows(old(client.Screen()), client.Screen(), client.width, client.height, rx, ry, rw, rh, image, n)
  {
    hide Rows, Blit, Low, Tiled, Joined, Progress, EncodeTile, TileImage, IsTile, Peek;
    ghost var r, before := Rect(client.width, client.height, rx, ry, rw, rh, 64), client.Screen();
    ghost var level, codes, left := ZywrleLevel(client.qualityLevel, n), tiles, pieces;
    var remaining: int := length;
    buf := 0;
    NothingChanged(r, before);
    if wellFormed {
      Begin([], r, before, pieces, image, n);
      assert Joined(pieces) + [] == Joined(pieces);
    }
    var j: nat := 0;
    while j < rh
      invariant Valid64(client, before, r) && client.qualityLevel == old(client.qualityLevel)
      invariant OutsideKept(r, before, client.Screen())
      invariant buf >= 0 && buf + remaining == length
      invariant wellFormed ==>
                  && remaining >= 0 && Coded(codes, left, n, level)
                  && Progress(Peek(mem, buf, remaining), [], r, before, client.Screen(), left, image, n, 0, j)
    {
      var i: nat := 0;
      while i < rw
        invariant Valid64(client, before, r) && client.qualityLevel == old(client.qualityLevel)
        invariant OutsideKept(r, before, client.Screen())
        invariant buf >= 0 && buf + remaining == length
        invariant wellFormed ==>
                    && remaining >= 0 && Coded(codes, left, n, level)
                    && Progress(Peek(mem, buf, remaining), [], r, before, client.Screen(), left, image, n, i, j)
      {
        var subWidth, subHeight := Clip(rw, i, 64), Clip(rh, j, 64);
        SmallTile(subWidth, subHeight);
        ghost var now, after := client.Screen(), [];
        if wellFormed {
          after := TileNext(Peek(mem, buf, remaining), [], r, before, now, left, image, n, i, j);
          PeekParts(mem, buf, remaining, left[0].bytes, after);
        }
        ghost var t := if wellFormed then codes[0] else Direct(Solid(0));
        var result;
        ghost var drawn;
        result, drawn := HandleZRLETile(client, mem, buf, ToSize(remaining), rx + i, ry + j, subWidth, subHeight, n,
                                        zlibBuffer, t, wellFormed);
        TileKeepsOutside(r, before, now, i, j, drawn);
        if result < 0 {
          return false, buf;
        }
        if wellFormed {
          TileDone(Peek(mem, buf, remaining), after, [], r, before, now, left, image, n, i, j, drawn);
          codes, left := codes[1..], left[1..];
        }
        buf, remaining := buf + result, remaining - result;
        i := i + 64;
      }
      if wellFormed {
        RowDone(Peek(mem, buf, remaining), [], r, before, client.Screen(), left, image, n, i, j);
      }
      j := j + 64;
    }
    finished := true;
    if wellFormed {
      Finished(Peek(mem, buf, remaining), [], r, before, client.Screen(), left, image, n, j);
      assert |Peek(mem, buf, remaining)| == remaining;
    }
  }

  /** The first bytes of a stretch of memory, and where the others begin. */
  lemma {:induction false} PeekParts(mem: Memory, p: nat, length: nat, first: seq<byte>, after: seq<byte>)
    requires Peek(mem, p, length) == first + after
    ensures |first| <= length && Stored(mem, p, first) && Peek(mem, p + |first|, length - |first|) == after
  {
    assert |first + after| == length;
    forall k | 0 <= k < |first|
      ensures mem(p + k) == first[k]
    {
      assert (first + after)[k] == first[k];
    }
    forall k | 0 <= k < |after|
      ensures mem(p + |first| + k) == after[k]
    {
      assert (first + after)[|first| + k] == after[k];
    }
  }

  ghost predicate Valid64(client: RfbClient, before: seq<Pixel>, r: Rect)
    reads client, client.frameBuffer
  {
    client.Valid() && client.frameBuffer != null && r.size == 64
  }

  lemma {:induction false} SmallTile(w: nat, h: nat)
    requires w <= 64 && h <= 64
    ensures Rows(w, h) <= Rows(64, 64)
  {
    hide Rows;
    RowsMonotonic(w, h, 64);
    RowsSplit(w, 64 - w, 64);
  }

  /** A tile as plain RLE, one run for every pixel. */
  function OneByOne(tile: seq<Pixel>): (runs: seq<Run>)
    ensures |runs| == |tile|
  {
    seq(|tile|, k requires 0 <= k < |tile| => Run(tile[k], 1))
  }

  lemma {:induction false} OneByOneExpands(tile: seq<Pixel>)
    ensures Expand(OneByOne(tile)) == tile
  {
    if tile != [] {
      var n := |tile| - 1;
      OneByOneExpands(tile[..n]);
      assert OneByOne(tile)[..n] == OneByOne(tile[..n]);
      assert tile == tile[..n] + Filled(tile[n], 1);
    }
  }

  /** Bytes per pixel of a new raw_buffer: rw * rh * (REALBPP / 8) * 2 in all. */
  function Room(n: nat): nat {
    2 * n
  }

  /** A plain tile has no more bytes than raw_buffer has for it unless its pixels are single bytes and
      its runs single pixels. Then it has one too many. */
  lemma {:induction false} PlainFits(runs: seq<Run>, n: nat, w: nat, h: nat)
    requires Codes(Plain(runs), w, h, 127) && IsPixelSize(n) && Rows(w, h) > 0
    ensures |Encode(Plain(runs), n, w, h)| <= Rows(Room(n), Rows(w, h)) <==>
              n > 1 || exists i :: 0 <= i < |runs| && runs[i].len > 1
    ensures |Encode(Plain(runs), n, w, h)| <= Rows(Room(n), Rows(w, h)) + 1
  {
    hide Rows, PlainRuns, Expand;
    var count := Rows(w, h);
    PlainRunsFit(runs, 0, n);
    assert runs[0..] == runs && runs[..0] == [];
    NoRuns();
    RowsZero(n + 1);
    RowsSplit(n + 1, n - 1, count);
    RowsMonotonic(n - 1, 1, count);
    RowsNext(n - 1, 0);
    RowsZero(n - 1);
    if n == 1 {
      RowsIsProduct(0, count);
    }
  }

  lemma {:induction false} NoRuns()
    ensures Expand([]) == []
  {
  }

  /** So do raw and solid tiles. */
  lemma {:induction false} RawFits(code: Code, n: nat, w: nat, h: nat)
    requires Codes(code, w, h, 127) && (code.Raw? || code.Solid?) && IsPixelSize(n) && Rows(w, h) > 0
    ensures |Encode(code, n, w, h)| <= Rows(Room(n), Rows(w, h))
  {
    hide Rows;
    RowsSplit(n, n, Rows(w, h));
    RowsMonotonic(n, 1, Rows(w, h));
    RowsNext(n, 0);
    RowsZero(n);
  }

  /** Decompressed tiles each of which has room, have room together. */
  lemma {:induction false} StreamFits(pieces: seq<Piece>, image: seq<Pixel>, rw: nat, rh: nat, n: nat)
    requires Rows(rw, rh) <= |image| && Tiled(pieces, image, rw, rh, 64, n, 0, 0) && EachFits(pieces, Room(n))
    ensures |Joined(pieces)| <= Rows(Room(n), Rows(rw, rh))
  {
    hide Rows, Tiled, EachFits, Joined;
    AllFit(pieces, image, rw, rh, 64, n, 0, 0, Room(n));
    if rh > 0 {
      RowsAdd(rw, Clip(rh, 0, 64), rh - Clip(rh, 0, 64));
    }
    RowsMonotonic(Room(n), PixelsLeft(rw, rh, 64, 0, 0), Rows(rw, rh));
  }

  lemma {:induction false} AnyTile(tile: seq<Pixel>, w: nat, h: nat, n: nat, level: nat) returns (t: ZrleCode)
    requires |tile| == Rows(w, h) && w > 0 && h > 0 && IsPixelSize(n) && (n == 1 ==> level == 0)
    ensures IsTile(t, w, h, level) && TileImage(t, n, w, h, level) == tile
    ensures |EncodeTile(t, n, w, h)| <= Rows(Room(n), Rows(w, h))
  {
    hide Rows, Expand;
    RowsMonotonic(w, 1, h);
    RowsNext(w, 0);
    if level == 0 {
      t := Direct(Raw(tile));
      RawFits(t.code, n, w, h);
    } else {
      OneByOneExpands(tile);
      t := Direct(Plain(OneByOne(tile)));
      PlainFits(t.code.runs, n, w, h);
    }
  }

  /** Every image of every size has a coding, at every quality level: here, raw tiles or plain RLE. It
      has room in raw_buffer. */
  lemma {:induction false} AnyImage(image: seq<Pixel>, rw: nat, rh: nat, n: nat, level: nat, i: nat, j: nat)
    returns (tiles: seq<ZrleCode>, pieces: seq<Piece>)
    requires Rows(rw, rh) <= |image| && IsPixelSize(n) && (n == 1 ==> level == 0)
    ensures Coded(tiles, pieces, n, level) && Tiled(pieces, image, rw, rh, 64, n, i, j)
    ensures EachFits(pieces, Room(n))
    decreases if j < rh then rh - j else 0, if i < rw then rw - i else 0
  {
    hide Rows, Low, Crop, Expand, Encode, Image;
    if j >= rh || rw == 0 {
      tiles, pieces := [], [];
    } else if i >= rw {
      tiles, pieces := AnyImage(image, rw, rh, n, level, 0, j + 64);
    } else {
      var w, h := Clip(rw, i, 64), Clip(rh, j, 64);
      RowsMonotonic(rw, j + h, rh);
      var t := AnyTile(Crop(image, rw, i, j, w, h), w, h, n, level);
      tiles, pieces := AnyImage(image, rw, rh, n, level, i + 64, j);
      assert ([t] + tiles)[1..] == tiles;
      var piece := Piece(w, h, EncodeTile(t, n, w, h), TileImage(t, n, w, h, level));
      assert ([piece] + pieces)[1..] == pieces;
      tiles, pieces := [t] + tiles, [piece] + pieces;
    }
  }
}
