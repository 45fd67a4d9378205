/** What the tile decoders of ZRLE and TRLE share: loading stored pixels, the palette loop, the
    packed-index loop and the raw-pixel loop. Both source files contain these loops. */
module TileDecode {
  import opened Bytes
  import opened Bits
  import opened Area
  import opened VncViewer
  import opened TileCode

  /** Bytes a pixel load takes: BPP / 8, which is 4 when REALBPP is 24. */
  function LoadWidth(n: nat): nat {
    if n == 3 then 4 else n
  }

  predicate IsPixelSize(n: nat) {
    1 <= n <= 4
  }

  /** UncompressCPixel */
  function UncompressCPixel(mem: Memory, p: nat, n: nat): Pixel {
    FromBytes(Peek(mem, p, LoadWidth(n)))
  }

  ghost predicate Stored(mem: Memory, p: nat, bs: seq<byte>) {
    forall k :: 0 <= k < |bs| ==> mem(p + k) == bs[k]
  }

  lemma {:induction false} StoredParts(mem: Memory, p: nat, a: seq<byte>, b: seq<byte>)
    requires Stored(mem, p, a + b)
    ensures Stored(mem, p, a) && Stored(mem, p + |a|, b)
  {
    forall k | 0 <= k < |a|
      ensures mem(p + k) == a[k]
    {
      assert (a + b)[k] == a[k];
    }
    forall k | 0 <= k < |b|
      ensures mem(p + |a| + k) == b[k]
    {
      assert (a + b)[|a| + k] == b[k];
    }
  }

  lemma {:induction false} StoredFirst(mem: Memory, p: nat, b: byte, rest: seq<byte>)
    requires Stored(mem, p, [b] + rest)
    ensures mem(p) == b && Stored(mem, p + 1, rest)
  {
    StoredParts(mem, p, [b], rest);
    assert mem(p + 0) == [b][0];
  }

  /** The loaded word agrees with the stored pixel on its n bytes, whatever byte follows. */
  lemma {:induction false} LoadStored(mem: Memory, p: nat, c: Pixel, n: nat)
    requires IsPixelSize(n) && Stored(mem, p, ToBytes(c, n))
    ensures Low(UncompressCPixel(mem, p, n), n) == Low(c, n)
  {
    var word := Peek(mem, p, LoadWidth(n));
    assert word == ToBytes(c, n) + word[n..];
    WideLoad(c, n, word[n..]);
  }

  lemma {:induction false} FirstPixel(w: nat)
    requires w > 0
    ensures CursorAt(w, 0) == Cursor(0, 0)
  {
  }

  /** The k-th of a sequence of stored pixels. */
  lemma {:induction false} PixelStored(mem: Memory, p: nat, pixels: seq<Pixel>, n: nat, k: nat)
    requires k < |pixels| && Stored(mem, p, PixelBytes(pixels, n))
    ensures Stored(mem, p + Rows(n, k), ToBytes(pixels[k], n))
  {
    hide Rows, ToBytes;
    var init := pixels[..|pixels| - 1];
    StoredParts(mem, p, PixelBytes(init, n), ToBytes(pixels[|pixels| - 1], n));
    if k < |init| {
      PixelStored(mem, p, init, n, k);
    }
  }

  /** palette[0..count] agrees with the colours. */
  ghost predicate HoldsColours(palette: seq<Pixel>, colours: seq<Pixel>, n: nat) {
    |colours| <= |palette| && forall k :: 0 <= k < |colours| ==> Low(palette[k], n) == Low(colours[k], n)
  }

  method ReadPalette(mem: Memory, buffer0: nat, count: nat, n: nat, palette: array<Pixel>,
                     ghost colours: seq<Pixel>, ghost wellFormed: bool)
    returns (buffer: nat)
    requires IsPixelSize(n) && count <= palette.Length
    requires wellFormed ==> |colours| == count && Stored(mem, buffer0, PixelBytes(colours, n))
    modifies palette
    ensures buffer == buffer0 + Rows(n, count)
    ensures wellFormed ==> HoldsColours(palette[..], colours, n)
  {
    hide Low, UncompressCPixel, Rows, ToBytes;
    var i: nat := 0;
    buffer := buffer0;
    RowsZero(n);
    while i < count
      invariant i <= count && buffer == buffer0 + Rows(n, i)
      invariant wellFormed ==> forall k :: 0 <= k < i ==> Low(palette[k], n) == Low(colours[k], n)
    {
      if wellFormed {
        PixelStored(mem, buffer0, colours, n, i);
        LoadStored(mem, buffer, colours[i], n);
      }
      palette[i] := UncompressCPixel(mem, buffer, n);
      RowsNext(n, i);
      i, buffer := i + 1, buffer + n;
    }
  }

  lemma {:induction false} LookLength(palette: seq<Pixel>, idx: seq<nat>)
    ensures |Look(palette, idx)| == |idx|
  {
  }

  /** One row of packed indices. An index past the palette array reads whatever lies there. */
  method PackedRow(fb: array<Pixel>, a: Area, h: nat, mem: Memory, buffer0: nat, bpp: nat, palette: array<Pixel>,
                   row: nat, n: nat, ghost colours: seq<Pixel>, ghost idx: seq<nat>,
                   ghost pen: Pen, ghost drawn0: seq<Pixel>, ghost wellFormed: bool)
    returns (buffer: nat, ghost drawn: seq<Pixel>)
    requires IsIndexBits(bpp) && palette != fb && palette.Length == 128
    requires pen.a == a && pen.h == h && pen.Drew(fb[..], drawn0) && row < h && |drawn0| == Rows(a.w, row)
    requires wellFormed ==>
               && |idx| == a.w && SmallIndices(idx, bpp) && |colours| <= 127 && HoldsColours(palette[..], colours, n)
               && (forall i :: 0 <= i < a.w ==> idx[i] < |colours|)
               && Stored(mem, buffer0, PackRow(idx, bpp))
    modifies fb
    ensures buffer == buffer0 + RowBytes(a.w, bpp)
    ensures pen.Drew(fb[..], drawn) && |drawn| == Rows(a.w, row + 1)
    ensures wellFormed ==>
              forall i: nat :: i < a.w ==> Low(drawn[|drawn0| + i], n) == Low(colours[idx[i]], n)
    ensures drawn[..|drawn0|] == drawn0
  {
    hide Rows, Blit, CursorAt, Low, PackRow, Field, RowBytes, Pow2;
    buffer, drawn := buffer0, drawn0;
    var shift: int, i: nat := 8 - bpp, 0;
    var start := RowOffset(a.stride, a.y + row);
    RowsNext(a.w, row);
    RowsMonotonic(a.w, row + 1, h);
    FirstPixel(PerByte(bpp));
    RowsZero(bpp);
    while i < a.w
      invariant i <= a.w && |drawn| == Rows(a.w, row) + i && pen.Drew(fb[..], drawn)
      invariant drawn[..|drawn0|] == drawn0
      invariant var c := CursorAt(PerByte(bpp), i); buffer == buffer0 + c.j && shift == 8 - bpp - Rows(bpp, c.i) >= 0
      invariant wellFormed ==>
                  forall k: nat :: k < i ==> Low(drawn[|drawn0| + k], n) == Low(colours[idx[k]], n)
    {
      ghost var c := CursorAt(PerByte(bpp), i);
      var index := Field(mem(buffer), shift, bpp);
      var colour: Pixel := *;
      if index < 128 {
        colour := palette[index];
      }
      if wellFormed {
        PackRowAt(idx, bpp, i);
        assert mem(buffer0 + c.j) == PackRow(idx, bpp)[c.j];
        assert palette[..][idx[i]] == colour;
      }
      Draw(fb, start + a.x + i, colour, pen.before, pen.screen, a, h, drawn, i, row);
      drawn := drawn + [colour];
      CursorNext(PerByte(bpp), i);
      ShiftStep(bpp, c.i);
      RowsNext(bpp, c.i);
      shift := shift - bpp;
      if shift < 0 {
        shift := 8 - bpp;
        buffer := buffer + 1;
      }
      i := i + 1;
    }
    RowEnds(a.w, bpp);
    NoShift(bpp, CursorAt(PerByte(bpp), a.w).i);
    if shift < 8 - bpp {
      buffer := buffer + 1;
    }
  }

  lemma {:induction false} CursorNext(w: nat, k: nat)
    requires w > 0
    ensures CursorAt(w, k + 1) == Advance(CursorAt(w, k), w)
  {
  }

  lemma {:induction false} NoShift(bpp: nat, t: nat)
    requires bpp > 0
    ensures Rows(bpp, t) == 0 <==> t == 0
  {
  }

  /** Types 2 to 127, after the palette: packed palette. */
  method PackedTile(fb: array<Pixel>, a: Area, h: nat, mem: Memory, buffer0: nat, bpp: nat, palette: array<Pixel>,
                    n: nat, ghost colours: seq<Pixel>, ghost rows: seq<seq<nat>>,
                    ghost pen: Pen, ghost wellFormed: bool)
    returns (buffer: nat, ghost drawn: seq<Pixel>)
    requires IsIndexBits(bpp) && palette != fb && palette.Length == 128
    requires pen.a == a && pen.h == h && pen.Drew(fb[..], [])
    requires wellFormed ==>
               && |colours| <= 127 && HoldsColours(palette[..], colours, n) && bpp == IndexBits(|colours|)
               && |rows| == h && RowsOf(rows, a.w, |colours|) && Stored(mem, buffer0, PackRows(rows, a.w, |colours|))
    modifies fb
    ensures pen.Drew(fb[..], drawn) && |drawn| == Rows(a.w, h)
    ensures wellFormed ==>
              && buffer == buffer0 + |PackRows(rows, a.w, |colours|)|
              && Matches(n, drawn, Look(colours, Flatten(rows)))
  {
    hide Rows, Blit, Low, PackRow, RowBytes, IndexBits, PackRows, Flatten;
    buffer, drawn := buffer0, [];
    var j: nat := 0;
    RowsZero(a.w);
    if wellFormed {
      assert rows[0..] == rows && rows[..0] == [];
      FlattenNone();
    }
    while j < h
      invariant j <= h && |drawn| == Rows(a.w, j) && pen.Drew(fb[..], drawn)
      invariant wellFormed ==> PackedProgress(mem, buffer0, buffer, colours, rows, j, a.w, n, drawn)
    {
      ghost var before := drawn;
      if wellFormed {
        PackRowsNext(rows, j, a.w, |colours|);
        StoredParts(mem, buffer, PackRow(rows[j], bpp), PackRows(rows[j + 1..], a.w, |colours|));
      }
      buffer, drawn := PackedRow(fb, a, h, mem, buffer, bpp, palette, j, n, colours,
                                 if wellFormed then rows[j] else [], pen, drawn, wellFormed);
      RowsNext(a.w, j);
      if wellFormed {
        RowMatches(n, before, drawn, colours, Flatten(rows[..j]), rows[j]);
      }
      j := j + 1;
    }
    if wellFormed {
      assert rows[..j] == rows;
      PackRowsNone(rows, a.w, |colours|);
    }
  }

  ghost predicate PackedProgress(mem: Memory, buffer0: nat, buffer: nat, colours: seq<Pixel>, rows: seq<seq<nat>>,
                                 j: nat, w: nat, n: nat, drawn: seq<Pixel>)
  {
    && j <= |rows| && |colours| <= 127 && RowsOf(rows, w, |colours|) && RowsOf(rows[j..], w, |colours|)
    && Stored(mem, buffer, PackRows(rows[j..], w, |colours|))
    && buffer + |PackRows(rows[j..], w, |colours|)| == buffer0 + |PackRows(rows, w, |colours|)|
    && Matches(n, drawn, Look(colours, Flatten(rows[..j])))
  }

  lemma {:induction false} FlattenNone()
    ensures Flatten([]) == []
  {
  }

  lemma {:induction false} PackRowsNone(rows: seq<seq<nat>>, w: nat, colours: nat)
    requires colours <= 128
    ensures RowsOf(rows[|rows|..], w, colours) && PackRows(rows[|rows|..], w, colours) == []
  {
  }

  lemma {:induction false} RowMatches(n: nat, before: seq<Pixel>, drawn: seq<Pixel>, colours: seq<Pixel>,
                                      done: seq<nat>, idx: seq<nat>)
    requires Matches(n, before, Look(colours, done))
    requires |drawn| == |before| + |idx| && drawn[..|before|] == before
    requires forall i :: 0 <= i < |idx| ==> idx[i] < |colours|
    requires forall i: nat :: i < |idx| ==> Low(drawn[|before| + i], n) == Low(colours[idx[i]], n)
    ensures Matches(n, drawn, Look(colours, done + idx))
  {
    hide Low;
    var image := Look(colours, done + idx);
    forall k | 0 <= k < |drawn|
      ensures Low(drawn[k], n) == Low(image[k], n)
    {
      if k < |before| {
        assert drawn[..|before|][k] == before[k];
        assert Look(colours, done)[k] == image[k];
      } else {
        var i := k - |before|;
        assert Low(drawn[|before| + i], n) == Low(colours[idx[i]], n);
      }
    }
  }

  /** Raw pixels whose size is not the framebuffer's: one load for each. */
  method RawTile(fb: array<Pixel>, a: Area, h: nat, mem: Memory, buffer0: nat, n: nat,
                 ghost pixels: seq<Pixel>, ghost pen: Pen, ghost wellFormed: bool)
    returns (buffer: nat, ghost drawn: seq<Pixel>)
    requires IsPixelSize(n) && pen.a == a && pen.h == h && pen.Drew(fb[..], [])
    requires wellFormed ==> |pixels| == Rows(a.w, h) && Stored(mem, buffer0, PixelBytes(pixels, n))
    modifies fb
    ensures pen.Drew(fb[..], drawn) && |drawn| == Rows(a.w, h) && buffer == buffer0 + Rows(n, |drawn|)
    ensures wellFormed ==> Matches(n, drawn, pixels)
  {
    hide Rows, Blit, Low, UncompressCPixel, ToBytes;
    buffer, drawn := buffer0, [];
    var j: nat := 0;
    RowsZero(a.w);
    RowsZero(n);
    while j < h
      invariant j <= h && |drawn| == Rows(a.w, j) && pen.Drew(fb[..], drawn)
      invariant buffer == buffer0 + Rows(n, |drawn|)
      invariant wellFormed ==> forall k :: 0 <= k < |drawn| ==> Low(drawn[k], n) == Low(pixels[k], n)
    {
      var start := RowOffset(a.stride, a.y + j);
      RowsNext(a.w, j);
      RowsMonotonic(a.w, j + 1, h);
      var i: nat := 0;
      while i < a.w
        invariant i <= a.w && |drawn| == Rows(a.w, j) + i && pen.Drew(fb[..], drawn)
        invariant buffer == buffer0 + Rows(n, |drawn|)
        invariant wellFormed ==> forall k :: 0 <= k < |drawn| ==> Low(drawn[k], n) == Low(pixels[k], n)
      {
        if wellFormed {
          PixelStored(mem, buffer0, pixels, n, |drawn|);
          LoadStored(mem, buffer, pixels[|drawn|], n);
        }
        var colour := UncompressCPixel(mem, buffer, n);
        Draw(fb, start + a.x + i, colour, pen.before, pen.screen, a, h, drawn, i, j);
        RowsNext(n, |drawn|);
        drawn := drawn + [colour];
        i, buffer := i + 1, buffer + n;
      }
      j := j + 1;
    }
  }

  /** A raw bitmap of stored pixels. */
  lemma {:induction false} RawImageMatches(mem: Memory, p: nat, n: nat, pixels: seq<Pixel>)
    requires Stored(mem, p, PixelBytes(pixels, n))
    ensures Matches(n, RawImage(mem, p, n, |pixels|), pixels)
  {
    hide Low, Rows, ToBytes;
    forall k | 0 <= k < |pixels|
      ensures Low(RawImage(mem, p, n, |pixels|)[k], n) == Low(pixels[k], n)
    {
      PixelStored(mem, p, pixels, n, k);
      var bs := Peek(mem, p + Rows(n, k), n);
      assert bs == ToBytes(pixels[k], n) + [];
      WideLoad(pixels[k], n, []);
    }
  }

  lemma {:induction false} FilledMatches(n: nat, m: nat, c: Pixel, word: Pixel, count: nat)
    requires n <= m && Low(word, n) == Low(c, n)
    ensures Matches(n, Filled(Low(word, m), count), Filled(c, count))
  {
    LowOfLow(word, m, n);
  }

  /** What a client drawing into a rectangle works with. */
  ghost predicate Ready(client: RfbClient, x: nat, y: nat, w: nat, h: nat, n: nat)
    reads client
  {
    && client.Valid() && client.frameBuffer != null && IsPixelSize(n) && client.bitsPerPixel == 8 * LoadWidth(n)
    && w > 0 && h > 0 && client.CheckRect(x, y, w, h)
  }

  function AreaOf(client: RfbClient, x: nat, y: nat, w: nat): Area
    reads client
  {
    Area(client.width, x, y, w)
  }

  lemma {:induction false} PackRowsLength(rows: seq<seq<nat>>, w: nat, colours: nat)
    requires colours <= 128 && RowsOf(rows, w, colours)
    ensures |PackRows(rows, w, colours)| == Rows(RowBytes(w, IndexBits(colours)), |rows|)
  {
    hide PackRow, RowBytes, IndexBits;
    if rows != [] {
      PackRowsLength(rows[1..], w, colours);
      IndicesFit(rows[0], colours);
      PackRowLength(rows[0], IndexBits(colours));
    }
  }

  lemma {:induction false} PixelBytesAt(pixels: seq<Pixel>, n: nat, k: nat)
    requires k < |pixels|
    ensures Rows(n, k) + n <= |PixelBytes(pixels, n)|
    ensures PixelBytes(pixels, n)[Rows(n, k)..Rows(n, k) + n] == ToBytes(pixels[k], n)
  {
    hide Rows, ToBytes;
    var last := |pixels| - 1;
    RowsMonotonic(n, k, |pixels|);
    RowsNext(n, last);
    if k < last {
      PixelBytesAt(pixels[..last], n, k);
      RowsMonotonic(n, k, last);
    }
  }

  /** A bitmap of the bytes of pixels agrees with them. */
  lemma {:induction false} RawMatches(pixels: seq<Pixel>, n: nat)
    ensures Matches(n, RawPixels(PixelBytes(pixels, n), n, |pixels|), pixels)
  {
    hide Rows, ToBytes, RawPixels, FromBytes, Low;
    var bs := PixelBytes(pixels, n);
    var img := RawPixels(bs, n, |pixels|);
    forall k | 0 <= k < |pixels|
      ensures Low(img[k], n) == Low(pixels[k], n)
    {
      RawPixelsAt(bs, n, |pixels|, k);
      PixelBytesAt(pixels, n, k);
      LoadIsLow(pixels[k], n);
      LowOfLow(pixels[k], n, n);
    }
  }
}
