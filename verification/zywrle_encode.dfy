/** ZYWRLE_ANALYZE without its quantising filter, for 32-bit tiles of aligned size, in place; and
    what a tile looks like after a server has analyzed it and the client synthesized it. */
module ZywrleEncode {
  import opened Bytes
  import opened Area
  import opened Bits
  import opened ZywrleWavelet
  import opened ZywrleTraversal
  import opened ZywrleColour
  import opened Zywrle

  /** ZYWRLE_RGBYUV: the coefficients before the transform. */
  function YuvImage(tile: seq<Pixel>, scratch: seq<Cell>): (d: seq<Cell>)
    requires |tile| <= |scratch|
    ensures |d| == |scratch|
  {
    seq(|scratch|, k requires 0 <= k < |scratch| =>
      if k < |tile| then ToYuv(LoadPixel(tile[k]), scratch[k]) else scratch[k])
  }

  /** Pixels carrying the coefficients of `order`, with the top bytes of the tile. */
  function Packed(tile: seq<Pixel>, buf: seq<Cell>, order: seq<nat>): (img: seq<Pixel>)
    requires |order| <= |tile| && Below(order, |buf|)
    ensures |img| == |order|
  {
    seq(|order|, k requires 0 <= k < |order| => SavePixel(tile[k], LoadCoeff(buf[order[k]])))
  }

  /** What the server sends for a tile. */
  function Analyzed(tile: seq<Pixel>, scratch: seq<Cell>, width: nat, height: nat, level: nat): (img: seq<Pixel>)
    requires level > 0 && Aligned(width, level) && Aligned(height, level)
    requires |tile| == Rows(width, height) <= |scratch|
    ensures |img| == |tile|
  {
    OrderIsPermutation(width, height, level);
    OrderBelow(width, height, level);
    BelowMore(Order(width, height, level), Rows(width, height), |scratch|);
    Packed(tile, Forward(YuvImage(tile, scratch), width, height, level), Order(width, height, level))
  }

  /** Unpacking a packed buffer brings every visited coefficient back. */
  lemma {:induction false} UnpackPacked(d: seq<Cell>, tile: seq<Pixel>, buf: seq<Cell>, order: seq<nat>,
                                        coded: seq<Pixel>, q: nat)
    requires |order| <= |coded| && |coded| <= |tile| && Below(order, |d|) && |d| <= |buf|
    requires forall k :: 0 <= k < |order| ==> coded[k] == SavePixel(tile[k], LoadCoeff(buf[order[k]]))
    requires q in order
    ensures q < |d| && SameLanes(Scatter(d, order, coded, Bits32)[q], buf[q])
  {
    hide SavePixel, LoadPixel, LoadCoeff, SaveCoeff;
    var k := |order| - 1;
    var prev := Scatter(d, order[..k], coded, Bits32);
    if order[k] == q {
      CoeffThroughPixel(tile[k], buf[q], prev[q]);
    } else {
      UnpackPacked(d, tile, buf, order[..k], coded, q);
    }
  }

  lemma {:induction false} CalcSizeOfAligned(n: nat, level: nat)
    requires Aligned(n, level)
    ensures CalcSize(n, level) == n
  {
    ShrExact(n, level);
  }

  lemma {:induction false} YuvIsOdd(tile: seq<Pixel>, scratch: seq<Cell>)
    requires |tile| <= |scratch|
    ensures OddUpTo(YuvImage(tile, scratch), |tile|)
  {
    hide ToYuv, LoadPixel, Odd;
    forall k | 0 <= k < |tile|
      ensures Odd(YuvImage(tile, scratch)[k])
    {
      ColourError(LoadPixel(tile[k]), scratch[k]);
    }
  }

  /** Unpacking what the server packed and inverting the transform recovers its coefficients. */
  lemma {:induction false} DecodedIsYuv(tile: seq<Pixel>, scratch: seq<Cell>, w: nat, h: nat, level: nat)
    requires level > 0 && w > 0 && Aligned(w, level) && Aligned(h, level)
    requires |tile| == Rows(w, h) <= |scratch|
    ensures |Order(w, h, level)| <= |tile|
    ensures SameUpTo(Decoded(Analyzed(tile, scratch, w, h, level), w, h, level, Bits32), YuvImage(tile, scratch),
                     Rows(w, h))
  {
    hide Order, Rows, Aligned, Inverse, Forward, Scatter, SavePixel, LoadCoeff, YuvImage;
    var n, order := Rows(w, h), Order(w, h, level);
    RowsIsProduct(w, h);
    OrderIsPermutation(w, h, level);
    OrderBelow(w, h, level);
    var yuv := YuvImage(tile, scratch);
    var coeffs, coded := Forward(yuv, w, h, level), Analyzed(tile, scratch, w, h, level);
    var unpacked := Scatter(Blank(n), order, coded, Bits32);
    forall q | 0 <= q < n
      ensures SameLanes(unpacked[q], coeffs[q])
    {
      OrderCovers(w, h, level, q);
      UnpackPacked(Blank(n), tile, coeffs, order, coded, q);
    }
    InverseCongruent(unpacked, coeffs, w, h, level);
    YuvIsOdd(tile, scratch);
    PerfectReconstruction(yuv, w, h, level);
  }

  /** A pixel whose coefficients come back: its colour is restored up to one unit a channel, and
      without loss exactly if the colour transform keeps it. */
  lemma {:induction false} ColourBack(p: Pixel, coded: Pixel, c: Cell, d: Cell)
    requires SameLanes(c, ToYuv(LoadPixel(p), d))
    ensures var colour := LoadPixel(SavePixel(coded, ToRgb(c)));
            Near(colour, LoadPixel(p), 1) && (colour == LoadPixel(p) <==> Kept(LoadPixel(p)))
    ensures SavePixel(coded, ToRgb(c)) / 0x100_0000 == coded / 0x100_0000
  {
    hide LoadPixel, SavePixel, ToYuv, ToRgb, Kept, Near;
    ColourError(LoadPixel(p), d);
    ColourKept(LoadPixel(p), d);
    ColourSaved(coded, c);
    ColourOfLanes(c, ToYuv(LoadPixel(p), d));
  }

  /** End to end: every colour channel of every pixel comes back within one unit, and without loss
      exactly if the colour transform keeps the pixel's colour; the top byte is kept. */
  lemma {:induction false} EndToEnd(tile: seq<Pixel>, scratch: seq<Cell>, width: nat, height: nat, level: nat, k: nat)
    requires level > 0 && width > 0 && Aligned(width, level) && Aligned(height, level)
    requires |tile| == Rows(width, height) <= |scratch| && k < |tile|
    ensures var out := Synthesized(Analyzed(tile, scratch, width, height, level), width, height, level, Bits32)[k];
            && Near(LoadPixel(out), LoadPixel(tile[k]), 1) && out / 0x100_0000 == tile[k] / 0x100_0000
            && (LoadPixel(out) == LoadPixel(tile[k]) <==> Kept(LoadPixel(tile[k])))
  {
    hide Order, Rows, Aligned, SavePixel, LoadPixel, CalcSize, Decoded, Analyzed, Synthesized, Kept, ToRgb;
    var coded := Analyzed(tile, scratch, width, height, level);
    DecodedIsYuv(tile, scratch, width, height, level);
    var c := Decoded(coded, width, height, level, Bits32)[k];
    YuvAt(tile, scratch, k);
    SynthesizedAligned(coded, width, height, level, k);
    ColourBack(tile[k], coded[k], c, scratch[k]);
    TopByteKept(tile, scratch, width, height, level, k);
  }

  lemma {:induction false} YuvAt(tile: seq<Pixel>, scratch: seq<Cell>, k: nat)
    requires k < |tile| <= |scratch|
    ensures k < |YuvImage(tile, scratch)| && YuvImage(tile, scratch)[k] == ToYuv(LoadPixel(tile[k]), scratch[k])
  {
    hide ToYuv, LoadPixel;
  }

  /** An aligned tile has no fringe. */
  lemma {:induction false} SynthesizedAligned(coded: seq<Pixel>, width: nat, height: nat, level: nat, k: nat)
    requires level > 0 && width > 0 && Aligned(width, level) && Aligned(height, level)
    requires |coded| == Rows(width, height) && k < |coded|
    ensures |Order(width, height, level)| <= |coded| == |Decoded(coded, width, height, level, Bits32)|
    ensures Synthesized(coded, width, height, level, Bits32)[k] ==
            SavePixel(coded[k], ToRgb(Decoded(coded, width, height, level, Bits32)[k]))
  {
    hide Rows, Aligned, SavePixel, CursorAt, CalcSize, Decoded, ToRgb;
    CalcSizeOfAligned(width, level);
    CalcSizeOfAligned(height, level);
    CursorInside(width, height, k);
    CursorOffset(width, k);
    NonemptyTile(width, height, k);
    DecodedFits(width, height, level);
    InsideRows(width, height, CursorAt(width, k).i, CursorAt(width, k).j);
  }

  lemma {:induction false} NonemptyTile(width: nat, height: nat, k: nat)
    requires k < Rows(width, height)
    ensures height > 0
  {
  }

  lemma {:induction false} ColourSaved(p: Pixel, c: Cell)
    ensures LoadPixel(SavePixel(p, ToRgb(c))) == ToRgb(c) && SavePixel(p, ToRgb(c)) / 0x100_0000 == p / 0x100_0000
  {
    hide LoadPixel, SavePixel;
    SaveThenLoad(p, ToRgb(c));
  }

  lemma {:induction false} TopByteKept(tile: seq<Pixel>, scratch: seq<Cell>, width: nat, height: nat, level: nat,
                                       k: nat)
    requires level > 0 && Aligned(width, level) && Aligned(height, level)
    requires |tile| == Rows(width, height) <= |scratch| && k < |tile|
    ensures Analyzed(tile, scratch, width, height, level)[k] / 0x100_0000 == tile[k] / 0x100_0000
  {
    hide Order, Rows, Aligned, Forward, SavePixel, LoadCoeff;
    OrderIsPermutation(width, height, level);
    OrderBelow(width, height, level);
    var coeffs := Forward(YuvImage(tile, scratch), width, height, level);
    SaveThenLoad(tile[k], LoadCoeff(coeffs[Order(width, height, level)[k]]));
  }

  /** What a packing works on: the area, the framebuffer and the tile as they were, and the
      transformed coefficients. */
  datatype Packing = Packing(a: Area, height: nat, screen: nat, before: seq<Pixel>, tile: seq<Pixel>, buf: seq<Cell>) {
    ghost predicate Reached(fb: seq<Pixel>, done: seq<nat>, data: nat, pData: nat) {
      && a.w > 0 && a.x + a.w <= a.stride && a.y + height <= screen && |before| == Rows(a.stride, screen)
      && |tile| == Rows(a.w, height) && Holds(before, a, tile)
      && |done| <= |tile| && Below(done, |buf|)
      && fb == Blit(before, a, Packed(tile, buf, done))
      && AtPixel(a, |done|, data, pData)
    }
  }

  /** Reading the pixel about to be overwritten, and overwriting it. */
  method PackPixel(pBuf: array<Cell>, fb: array<Pixel>, pH: nat, data: nat, ghost pData: nat, ghost u: Packing,
                   ghost done: seq<nat>)
    requires pBuf[..] == u.buf && pH < pBuf.Length && |done| < |u.tile|
    requires u.Reached(fb[..], done, data, pData)
    modifies fb
    ensures Below(done + [pH], |u.buf|)
    ensures fb[..] == Blit(u.before, u.a, Packed(u.tile, u.buf, done + [pH]))
  {
    hide CursorAt, Rows, Blit, SavePixel, LoadCoeff, Holds;
    ghost var k, c, drawn := |done|, CursorAt(u.a.w, |done|), Packed(u.tile, u.buf, done);
    CursorOffset(u.a.w, k);
    CursorInside(u.a.w, u.height, k);
    Undrawn(u.before, u.a, u.tile, u.a.w, drawn, c.i, c.j);
    assert u.a.(w := u.a.w) == u.a;
    var word := SavePixel(fb[data], LoadCoeff(pBuf[pH]));
    assert Packed(u.tile, u.buf, done + [pH]) == drawn + [word];
    Draw(fb, data, word, u.before, u.screen, u.a, u.height, drawn, c.i, c.j);
  }

  method PackLine(pBuf: array<Cell>, fb: array<Pixel>, start: nat, s: nat, w: nat,
                  data0: nat, pData0: nat, width: nat, scanline: nat,
                  ghost n: nat, ghost u: Packing, ghost done: seq<nat>)
    returns (data: nat, pData: nat)
    requires pBuf[..] == u.buf && s > 0 && n * s == w && width == u.a.w && scanline == u.a.stride
    requires u.Reached(fb[..], done, data0, pData0)
    requires |done| + n <= |u.tile| && Below(Line(start, s, n), pBuf.Length)
    modifies fb
    ensures u.Reached(fb[..], done + Line(start, s, n), data, pData)
  {
    hide Line, CursorAt, Rows, Blit, Packed;
    data, pData := data0, pData0;
    var pH, pLine := start, start + w;
    ghost var i := 0;
    LineZero(start, s);
    assert done + Line(start, s, 0) == done;
    while pH < pLine
      invariant i <= n && pH == start + i * s
      invariant u.Reached(fb[..], done + Line(start, s, i), data, pData)
      decreases n - i
    {
      if i == n {
        assert false;
      }
      LineAt(start, s, n, i);
      LineNext(start, s, i);
      ghost var sofar := done + Line(start, s, i);
      assert sofar + [pH] == done + Line(start, s, i + 1);
      PackPixel(pBuf, fb, pH, data, pData, u, sofar);
      data, pData := IncPtr(data, pData, width, scanline, u.a, |sofar|);
      StepOver(i, s);
      pH := pH + s;
      i := i + 1;
    }
    if i < n {
      LastPlace(i, n, s);
    }
  }

  method PackLines(pBuf: array<Cell>, fb: array<Pixel>, start: nat, s: nat, w: nat, h: nat,
                   data0: nat, pData0: nat, width: nat, scanline: nat,
                   ghost across: nat, ghost m: nat, ghost n: nat, ghost u: Packing, ghost done: seq<nat>)
    returns (data: nat, pData: nat)
    requires pBuf[..] == u.buf && s > 0 && w > 0 && n * s == w && across == s * w && m * across == h * w
    requires width == u.a.w && scanline == u.a.stride
    requires u.Reached(fb[..], done, data0, pData0)
    requires |done| + |Grid(start, across, m, s, n)| <= |u.tile|
    requires Below(Grid(start, across, m, s, n), pBuf.Length)
    modifies fb
    ensures u.Reached(fb[..], done + Grid(start, across, m, s, n), data, pData)
  {
    hide Grid, Line, CursorAt, Rows, Packing.Reached;
    data, pData := data0, pData0;
    var pH, pEnd := start, start + h * w;
    ghost var j := 0;
    GridZero(start, across, s, n);
    assert done + Grid(start, across, 0, s, n) == done;
    AtLeast(w, s);
    while pH < pEnd
      invariant j <= m && pH == start + j * across
      invariant u.Reached(fb[..], done + Grid(start, across, j, s, n), data, pData)
      decreases m - j
    {
      if j == m {
        assert false;
      }
      GridLineBelow(start, across, m, s, n, j, pBuf.Length);
      GridAppend(start, across, j, s, n);
      GridLength(start, across, m, s, n, j);
      ghost var sofar := done + Grid(start, across, j, s, n);
      assert sofar + Line(pH, s, n) == done + Grid(start, across, j + 1, s, n);
      data, pData := PackLine(pBuf, fb, pH, s, w, data, pData, width, scanline, n, u, sofar);
      SkipRows(s, w);
      StepOver(j, across);
      pH := pH + w;
      pH := pH + (s - 1) * w;
      j := j + 1;
    }
    if j < m {
      LastPlace(j, m, across);
    }
  }

  /** ZYWRLE_PACK_COEFF for sub-band r of level l. */
  method PackBand(pBuf: array<Cell>, fb: array<Pixel>, r: nat, w: nat, h: nat, l: nat,
                  data0: nat, pData0: nat, width: nat, scanline: nat, ghost u: Packing, ghost done: seq<nat>)
    returns (data: nat, pData: nat)
    requires pBuf[..] == u.buf && w > 0 && Aligned(w, l + 1) && Aligned(h, l + 1)
    requires width == u.a.w && scanline == u.a.stride
    requires u.Reached(fb[..], done, data0, pData0)
    requires |done| + |Band(w, h, l, r)| <= |u.tile| && Below(Band(w, h, l, r), pBuf.Length)
    modifies fb
    ensures u.Reached(fb[..], done + Band(w, h, l, r), data, pData)
  {
    hide Grid, Line, CursorAt, Rows, Packing.Reached, Shr, Aligned;
    var s := 2 * Pow2(l);
    var pH := 0;
    if r % 2 == 1 {
      pH := pH + s / 2;
    }
    if r / 2 % 2 == 1 {
      pH := pH + s / 2 * w;
    }
    ShrExact(w, l + 1);
    ShrExact(h, l + 1);
    Regroup(Shr(h, l + 1), s, w);
    data, pData := PackLines(pBuf, fb, pH, s, w, h, data0, pData0, width, scanline, s * w, Shr(h, l + 1), Shr(w, l + 1),
                             u, done);
  }

  method PackAll(pBuf: array<Cell>, fb: array<Pixel>, w: nat, h: nat, level: nat,
                 data0: nat, width: nat, scanline: nat, ghost u: Packing)
    requires pBuf[..] == u.buf && w > 0 && level > 0 && Aligned(w, level) && Aligned(h, level)
    requires width == u.a.w && scanline == u.a.stride
    requires u.Reached(fb[..], [], data0, data0)
    requires |Order(w, h, level)| <= |u.tile| && Below(Order(w, h, level), pBuf.Length)
    modifies fb
    ensures fb[..] == Blit(u.before, u.a, Packed(u.tile, u.buf, Order(w, h, level)))
  {
    hide Band, Packing.Reached, Aligned, Below, Blit;
    var data, pData := data0, data0;
    var l := 0;
    while l < level
      invariant l <= level
      invariant u.Reached(fb[..], if l < level then Details(w, h, l) else Order(w, h, level), data, pData)
    {
      AlignedBelow(w, level, l + 1);
      AlignedBelow(h, level, l + 1);
      LevelFits(w, h, l, level, pBuf.Length);
      ghost var done := Details(w, h, l);
      data, pData := PackBand(pBuf, fb, 3, w, h, l, data, pData, width, scanline, u, done);
      done := done + Band(w, h, l, 3);
      data, pData := PackBand(pBuf, fb, 2, w, h, l, data, pData, width, scanline, u, done);
      done := done + Band(w, h, l, 2);
      data, pData := PackBand(pBuf, fb, 1, w, h, l, data, pData, width, scanline, u, done);
      done := done + Band(w, h, l, 1);
      if l == level - 1 {
        data, pData := PackBand(pBuf, fb, 0, w, h, l, data, pData, width, scanline, u, done);
      }
      l := l + 1;
    }
    Finished(u, fb[..], Order(w, h, level), data, pData);
  }

  lemma {:induction false} Finished(u: Packing, fb: seq<Pixel>, done: seq<nat>, data: nat, pData: nat)
    requires u.Reached(fb, done, data, pData)
    ensures |done| <= |u.tile| && Below(done, |u.buf|) && fb == Blit(u.before, u.a, Packed(u.tile, u.buf, done))
  {
  }

  /** ZYWRLE_RGBYUV */
  method RgbYuv(pBuf: array<Cell>, fb: array<Pixel>, data0: nat, a: Area, h: nat, ghost tile: seq<Pixel>)
    requires a.w > 0 && a.w <= a.stride && Holds(fb[..], a, tile) && |tile| == Rows(a.w, h) <= pBuf.Length
    requires data0 == Offset(a, 0, 0)
    modifies pBuf
    ensures pBuf[..] == YuvImage(tile, old(pBuf[..]))
  {
    hide CursorAt, Rows, ToYuv, LoadPixel, Holds;
    ghost var scratch := pBuf[..];
    var p, data := 0, data0;
    var end := RowOffset(a.w, h);
    ghost var j: nat := 0;
    RowsZero(a.w);
    while p < end
      invariant j <= h && p == Rows(a.w, j) <= end && data == Offset(a, 0, j)
      invariant forall k :: 0 <= k < pBuf.Length ==>
                  pBuf[k] == if k < p then ToYuv(LoadPixel(tile[k]), scratch[k]) else scratch[k]
      decreases h - j
    {
      if j == h {
        assert false;
      }
      RowsNext(a.w, j);
      RowsNext(a.stride, a.y + j);
      RowsMonotonic(a.w, j + 1, h);
      var line := p + a.w;
      while p < line
        invariant Rows(a.w, j) <= p <= line <= end && data == Offset(a, p - Rows(a.w, j), j)
        invariant forall k :: 0 <= k < pBuf.Length ==>
                    pBuf[k] == if k < p then ToYuv(LoadPixel(tile[k]), scratch[k]) else scratch[k]
      {
        TileAt(fb[..], a, tile, p - Rows(a.w, j), j);
        pBuf[p] := ToYuv(LoadPixel(fb[data]), pBuf[p]);
        p, data := p + 1, data + 1;
      }
      data := data + (a.stride - a.w);
      j := j + 1;
    }
    if j < h {
      RowsMonotonic(a.w, j, h);
    }
  }

  /** ZYWRLE_ANALYZE(dst, dst, w, h, scanline, level, pBuf) for aligned sizes. */
  method Analyze(fb: array<Pixel>, a: Area, height: nat, level: nat, pBuf: array<Cell>, ghost screen: nat)
    requires a.w > 0 && level > 0 && Aligned(a.w, level) && Aligned(height, level)
    requires a.x + a.w <= a.stride && a.y + height <= screen && fb.Length == Rows(a.stride, screen)
    requires pBuf.Length >= Rows(a.w, height)
    modifies fb, pBuf
    ensures fb[..] == Blit(old(fb[..]), a, Analyzed(Grab(old(fb[..]), a, Rows(a.w, height)), old(pBuf[..]),
                                                    a.w, height, level))
  {
    hide Rows, Blit, CursorAt, Order, Aligned, Forward, YuvImage, Holds;
    ghost var before, tile := fb[..], Grab(fb[..], a, Rows(a.w, height));
    GrabHolds(before, screen, a, height);
    var start := RowOffset(a.stride, a.y);
    start := start + a.x;
    RgbYuv(pBuf, fb, start, a, height, tile);
    RowsIsProduct(a.w, height);
    Wavelet(pBuf, a.w, height, level);
    OrderIsPermutation(a.w, height, level);
    OrderBelow(a.w, height, level);
    BelowMore(Order(a.w, height, level), Rows(a.w, height), pBuf.Length);
    ghost var u := Packing(a, height, screen, before, tile, pBuf[..]);
    PackNone(u, start);
    PackAll(pBuf, fb, a.w, height, level, start, a.w, a.stride, u);
  }

  lemma {:induction false} PackNone(u: Packing, start: nat)
    requires u.a.w > 0 && u.a.x + u.a.w <= u.a.stride && u.a.y + u.height <= u.screen
    requires |u.before| == Rows(u.a.stride, u.screen)
    requires |u.tile| == Rows(u.a.w, u.height) && Holds(u.before, u.a, u.tile) && start == Offset(u.a, 0, 0)
    ensures u.Reached(u.before, [], start, start)
  {
    hide Rows;
    BlitNone(u.before, u.a);
  }
}
