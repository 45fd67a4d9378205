/** ZYWRLE_SYNTHESIZE for 32-bit and 16-bit little-endian pixels. */
module Zywrle {
  import opened Bytes
  import opened Area
  import opened Bits
  import opened ZywrleWavelet
  import opened ZywrleTraversal
  import opened ZywrleColour

  /** The first n pixels of an area, in row-major order. */
  function Grab(fb: seq<Pixel>, a: Area, n: nat): (tile: seq<Pixel>)
    requires a.w > 0
    ensures |tile| == n
  {
    seq(n, k requires 0 <= k < n => var p := PixelOffset(a, k); if p < |fb| then fb[p] else 0)
  }

  ghost predicate Holds(fb: seq<Pixel>, a: Area, tile: seq<Pixel>)
    requires a.w > 0
  {
    forall k: nat :: k < |tile| ==> HoldsAt(fb, a, tile, k)
  }

  ghost predicate HoldsAt(fb: seq<Pixel>, a: Area, tile: seq<Pixel>, k: nat)
    requires a.w > 0 && k < |tile|
  {
    var p := PixelOffset(a, k);
    p < |fb| && fb[p] == tile[k]
  }

  /** Coefficients taken from successive pixels and put at the cells of `order`. */
  function Scatter(buf: seq<Cell>, order: seq<nat>, tile: seq<Pixel>, depth: Depth): (r: seq<Cell>)
    requires |order| <= |tile|
    ensures |r| == |buf|
  {
    if order == [] then buf
    else
      var k := |order| - 1;
      var prev, p := Scatter(buf, order[..k], tile, depth), order[k];
      if p < |buf| then prev[p := SaveCoeff(prev[p], LoadWord(tile[k], depth))] else prev
  }

  lemma {:induction false} ScatterNext(buf: seq<Cell>, order: seq<nat>, p: nat, tile: seq<Pixel>, depth: Depth)
    requires |order| < |tile| && p < |buf|
    ensures var prev := Scatter(buf, order, tile, depth);
            Scatter(buf, order + [p], tile, depth) == prev[p := SaveCoeff(prev[p], LoadWord(tile[|order|], depth))]
  {
    assert (order + [p])[..|order|] == order;
  }

  /** The data pointer stands on pixel k of the area, and pData on the first pixel of its row. */
  ghost predicate AtPixel(a: Area, k: nat, data: nat, pData: nat)
    requires a.w > 0
  {
    data == PixelOffset(a, k) && pData == Offset(a, 0, CursorAt(a.w, k).j)
  }

  /** INC_PTR */
  method IncPtr(data: nat, pData: nat, width: nat, scanline: nat, ghost a: Area, ghost k: nat)
    returns (data': nat, pData': nat)
    requires a.w == width > 0 && a.stride == scanline >= width && AtPixel(a, k, data, pData)
    ensures AtPixel(a, k + 1, data', pData')
  {
    data', pData' := data + 1, pData;
    if data' - pData' >= width {
      data' := data' + (scanline - width);
      pData' := data';
    }
    RowsNext(a.stride, a.y + CursorAt(width, k).j);
  }

  ghost predicate Below(ps: seq<nat>, n: nat) {
    forall i :: 0 <= i < |ps| ==> ps[i] < n
  }

  lemma {:induction false} BelowParts(ps: seq<nat>, qs: seq<nat>, n: nat)
    requires Below(ps + qs, n)
    ensures Below(ps, n) && Below(qs, n)
  {
    forall i | 0 <= i < |ps|
      ensures ps[i] < n
    {
      assert (ps + qs)[i] == ps[i];
    }
    forall i | 0 <= i < |qs|
      ensures qs[i] < n
    {
      assert (ps + qs)[|ps| + i] == qs[i];
    }
  }

  /** What an unpacking works on: the tile, its pixels, and the buffer as it was. */
  datatype Unpacking = Unpacking(a: Area, tile: seq<Pixel>, before: seq<Cell>, depth: Depth) {
    ghost predicate Reached(fb: seq<Pixel>, buf: seq<Cell>, done: seq<nat>, data: nat, pData: nat) {
      && a.w > 0 && a.w <= a.stride && Holds(fb, a, tile)
      && |done| <= |tile| && buf == Scatter(before, done, tile, depth)
      && AtPixel(a, |done|, data, pData)
    }
  }

  method UnpackLine(pBuf: array<Cell>, fb: array<Pixel>, start: nat, s: nat, w: nat,
                    data0: nat, pData0: nat, width: nat, scanline: nat,
                    ghost n: nat, ghost u: Unpacking, ghost done: seq<nat>, depth: Depth)
    returns (data: nat, pData: nat)
    requires u.depth == depth
    requires s > 0 && n * s == w && width == u.a.w && scanline == u.a.stride
    requires u.Reached(fb[..], pBuf[..], done, data0, pData0)
    requires |done| + n <= |u.tile| && Below(Line(start, s, n), pBuf.Length)
    modifies pBuf
    ensures u.Reached(fb[..], pBuf[..], done + Line(start, s, n), data, pData)
  {
    hide Line, Scatter, CursorAt, Rows;
    data, pData := data0, pData0;
    var pH, pLine := start, start + w;
    ghost var i := 0;
    LineZero(start, s);
    assert done + Line(start, s, 0) == done;
    while pH < pLine
      invariant i <= n && pH == start + i * s
      invariant u.Reached(fb[..], pBuf[..], done + Line(start, s, i), data, pData)
      decreases n - i
    {
      if i == n {
        assert false;
      }
      LineAt(start, s, n, i);
      LineNext(start, s, i);
      ghost var sofar := done + Line(start, s, i);
      assert HoldsAt(fb[..], u.a, u.tile, |sofar|);
      ScatterNext(u.before, sofar, pH, u.tile, depth);
      assert sofar + [pH] == done + Line(start, s, i + 1);
      pBuf[pH] := SaveCoeff(pBuf[pH], LoadWord(fb[data], depth));
      data, pData := IncPtr(data, pData, width, scanline, u.a, |sofar|);
      StepOver(i, s);
      pH := pH + s;
      i := i + 1;
    }
    if i < n {
      LastPlace(i, n, s);
    }
  }

  lemma {:induction false} LineZero(start: nat, s: nat)
    ensures Line(start, s, 0) == []
  {
  }

  lemma {:induction false} GridLineBelow(start: nat, across: nat, m: nat, step: nat, n: nat, j: nat, bound: nat)
    requires Below(Grid(start, across, m, step, n), bound) && j < m
    ensures Below(Line(start + j * across, step, n), bound)
  {
    hide Line, Rows;
    BelowParts(Grid(start, across, m - 1, step, n), Line(start + (m - 1) * across, step, n), bound);
    if j < m - 1 {
      GridLineBelow(start, across, m - 1, step, n, j, bound);
    }
  }

  lemma {:induction false} GridZero(start: nat, across: nat, step: nat, n: nat)
    ensures Grid(start, across, 0, step, n) == []
  {
  }

  lemma {:induction false} GridLength(start: nat, across: nat, m: nat, step: nat, n: nat, j: nat)
    requires j < m
    ensures |Grid(start, across, j, step, n)| + n <= |Grid(start, across, m, step, n)|
  {
    RowsMonotonic(n, j, m);
  }

  /** The rows of a sub-band: m lines of n cells, the lines `across` apart. */
  method UnpackLines(pBuf: array<Cell>, fb: array<Pixel>, start: nat, s: nat, w: nat, h: nat, data0: nat, pData0: nat,
                     width: nat, scanline: nat, ghost across: nat, ghost m: nat, ghost n: nat, ghost u: Unpacking,
                     ghost done: seq<nat>, depth: Depth)
    returns (data: nat, pData: nat)
    requires u.depth == depth
    requires s > 0 && w > 0 && n * s == w && across == s * w && m * across == h * w && width == u.a.w &&
             scanline == u.a.stride
    requires u.Reached(fb[..], pBuf[..], done, data0, pData0)
    requires |done| + |Grid(start, across, m, s, n)| <= |u.tile|
    requires Below(Grid(start, across, m, s, n), pBuf.Length)
    modifies pBuf
    ensures u.Reached(fb[..], pBuf[..], done + Grid(start, across, m, s, n), data, pData)
  {
    hide Grid, Line, Scatter, CursorAt, Rows, Unpacking.Reached;
    data, pData := data0, pData0;
    var pH, pEnd := start, start + h * w;
    ghost var j := 0;
    GridZero(start, across, s, n);
    assert done + Grid(start, across, 0, s, n) == done;
    AtLeast(w, s);
    while pH < pEnd
      invariant j <= m && pH == start + j * across
      invariant u.Reached(fb[..], pBuf[..], done + Grid(start, across, j, s, n), data, pData)
      decreases m - j
    {
      if j == m {
        assert false;
      }
      GridLineBelow(start, across, m, s, n, j, pBuf.Length);
      GridAppend(start, across, j, s, n);
      GridLength(start, across, m, s, n, j);
      ghost var sofar := done + Grid(start, across, j, s, n);
      assert sofar + Line(pH, s, n) == done + Grid(start, across, j + 1, s, n);
      data, pData := UnpackLine(pBuf, fb, pH, s, w, data, pData, width, scanline, n, u, sofar, depth);
      SkipRows(s, w);
      StepOver(j, across);
      // The line loop leaves pH at the end of the row.
      pH := pH + w;
      pH := pH + (s - 1) * w;
      j := j + 1;
    }
    if j < m {
      LastPlace(j, m, across);
    }
  }

  lemma {:induction false} SkipRows(s: nat, w: nat)
    requires s > 0
    ensures w + (s - 1) * w == s * w
  {
  }

  /** ZYWRLE_UNPACK_COEFF for sub-band r of level l. */
  method UnpackBand(pBuf: array<Cell>, fb: array<Pixel>, r: nat, w: nat, h: nat, l: nat, data0: nat, pData0: nat,
                    width: nat, scanline: nat, ghost u: Unpacking, ghost done: seq<nat>, depth: Depth)
    returns (data: nat, pData: nat)
    requires u.depth == depth
    requires w > 0 && Aligned(w, l + 1) && Aligned(h, l + 1) && width == u.a.w && scanline == u.a.stride
    requires u.Reached(fb[..], pBuf[..], done, data0, pData0)
    requires |done| + |Band(w, h, l, r)| <= |u.tile| && Below(Band(w, h, l, r), pBuf.Length)
    modifies pBuf
    ensures u.Reached(fb[..], pBuf[..], done + Band(w, h, l, r), data, pData)
  {
    hide Grid, Line, Scatter, CursorAt, Rows, Unpacking.Reached, Shr, Aligned;
    var s := 2 * Pow2(l);
    var pH := 0;
    if r % 2 == 1 {
      pH := pH + s / 2;
    }
    if r / 2 % 2 == 1 {
      pH := pH + s / 2 * w;
    }
    ShrExact(w, l + 1);
    ShrExact(h, l + 1);
    Regroup(Shr(h, l + 1), s, w);
    data, pData := UnpackLines(pBuf, fb, pH, s, w, h, data0, pData0, width, scanline, s * w, Shr(h, l + 1),
                               Shr(w, l + 1), u, done, depth);
  }

  /** Cells agree on the three lanes the codec uses. */
  predicate SameLanes(c: Cell, d: Cell) {
    c.b == d.b && c.g == d.g && c.r == d.r
  }

  ghost predicate SameUpTo(d: seq<Cell>, e: seq<Cell>, n: nat) {
    && n <= |d| && n <= |e|
    && forall q :: 0 <= q < n ==> SameLanes(d[q], e[q])
  }

  /** What is scattered to a cell does not depend on the buffer's earlier contents. */
  lemma {:induction false} ScatterCovers(d: seq<Cell>, e: seq<Cell>, order: seq<nat>, tile: seq<Pixel>, q: nat,
                                         depth: Depth)
    requires |order| <= |tile| && q in order && q < |d| && q < |e|
    ensures SameLanes(Scatter(d, order, tile, depth)[q], Scatter(e, order, tile, depth)[q])
  {
    var k := |order| - 1;
    if order[k] != q {
      ScatterCovers(d, e, order[..k], tile, q, depth);
    }
  }

  lemma {:induction false} OrderCovers(w: nat, h: nat, level: nat, q: nat)
    requires level > 0 && Aligned(w, level) && Aligned(h, level)
    ensures q in Order(w, h, level) <==> q < Rows(w, h)
  {
    hide Order, Rows, Aligned;
    OrderIsPermutation(w, h, level);
    var ids := Identity(Rows(w, h));
    if q < Rows(w, h) {
      assert ids[q] == q;
    }
    assert q in multiset(Order(w, h, level)) <==> q in multiset(ids);
  }

  lemma {:induction false} OrderBelow(w: nat, h: nat, level: nat)
    requires level > 0 && Aligned(w, level) && Aligned(h, level)
    ensures Below(Order(w, h, level), Rows(w, h))
  {
    hide Order, Rows, Aligned;
    var order := Order(w, h, level);
    forall i | 0 <= i < |order|
      ensures order[i] < Rows(w, h)
    {
      OrderCovers(w, h, level, order[i]);
    }
  }

  /** The transform of the used lanes does not depend on anything else in the buffer. */
  lemma {:induction false} PairsCongruent(d: seq<Cell>, e: seq<Cell>, ps: seq<nat>, ofs: nat, n: nat)
    requires SameUpTo(d, e, n) && Within(ps, ofs, n)
    ensures SameUpTo(ApplyPairs(d, ps, ofs), ApplyPairs(e, ps, ofs), n)
  {
    if ps != [] {
      PairsCongruent(d, e, ps[..|ps| - 1], ofs, n);
    }
  }

  lemma {:induction false} InverseCongruent(d: seq<Cell>, e: seq<Cell>, w: nat, h: nat, l: nat)
    requires w > 0 && Aligned(w, l) && Aligned(h, l) && SameUpTo(d, e, w * h)
    ensures SameUpTo(Inverse(d, w, h, l), Inverse(e, w, h, l), w * h)
    decreases l
  {
    hide RowPass, ColumnPass, Shr, Pow2, Aligned, Pass.Lows, ApplyPairs;
    if l != 0 {
      var n, rows, columns := w * h, RowPass(w, h, l - 1), ColumnPass(w, h, l - 1);
      PassesFit(w, h, l - 1);
      columns.LowsApart(n);
      rows.LowsApart(n);
      PairsCongruent(d, e, columns.Lows(), columns.ofs, n);
      PairsCongruent(columns.Apply(d), columns.Apply(e), rows.Lows(), rows.ofs, n);
      AlignedBelow(w, l, l - 1);
      AlignedBelow(h, l, l - 1);
      InverseCongruent(rows.Apply(columns.Apply(d)), rows.Apply(columns.Apply(e)), w, h, l - 1);
    }
  }

  /** Beyond the coefficients the buffer is left alone. */
  lemma {:induction false} InverseFrame(d: seq<Cell>, w: nat, h: nat, l: nat, q: nat)
    requires w > 0 && Aligned(w, l) && Aligned(h, l) && w * h <= q < |d|
    ensures Inverse(d, w, h, l)[q] == d[q]
    decreases l
  {
    hide RowPass, ColumnPass, Shr, Pow2, Aligned, Pass.Lows, ApplyPairs;
    if l != 0 {
      var n, rows, columns := w * h, RowPass(w, h, l - 1), ColumnPass(w, h, l - 1);
      PassesFit(w, h, l - 1);
      columns.LowsApart(n);
      rows.LowsApart(n);
      PairFrame(d, columns.Lows(), columns.ofs, q);
      PairFrame(columns.Apply(d), rows.Lows(), rows.ofs, q);
      AlignedBelow(w, l, l - 1);
      AlignedBelow(h, l, l - 1);
      InverseFrame(rows.Apply(columns.Apply(d)), w, h, l - 1, q);
    }
  }

  function Blank(n: nat): (d: seq<Cell>)
    ensures |d| == n
  {
    seq(n, _ => Cell(0, 0, 0, 0))
  }

  /** The decoded coefficients of a tile whose aligned part is w x h. */
  function Decoded(tile: seq<Pixel>, w: nat, h: nat, level: nat, depth: Depth): (d: seq<Cell>)
    requires level > 0 && |Order(w, h, level)| <= |tile|
    ensures |d| == Rows(w, h)
  {
    Inverse(Scatter(Blank(Rows(w, h)), Order(w, h, level), tile, depth), w, h, level)
  }

  /** Whatever the scratch buffer held, after unpacking and transforming it holds the decoded
      coefficients, and beyond them what was there. */
  lemma {:induction false} BufferDecodes(before: seq<Cell>, tail: seq<Cell>, tile: seq<Pixel>, w: nat, h: nat,
                                         level: nat, depth: Depth)
    requires level > 0 && w > 0 && Aligned(w, level) && Aligned(h, level)
    requires Rows(w, h) <= |before| == |tail| && |Order(w, h, level)| <= |tile|
    requires tail[..Rows(w, h)] == Scatter(before, Order(w, h, level), tile, depth)[..Rows(w, h)]
    ensures SameUpTo(Inverse(tail, w, h, level), Decoded(tile, w, h, level, depth), Rows(w, h))
    ensures Inverse(tail, w, h, level)[Rows(w, h)..] == tail[Rows(w, h)..]
  {
    hide Order, Rows, Aligned, Inverse, Scatter;
    RowsIsProduct(w, h);
    var n, order := Rows(w, h), Order(w, h, level);
    var d, e := Scatter(before, order, tile, depth), Scatter(Blank(n), order, tile, depth);
    forall q | 0 <= q < n
      ensures SameLanes(tail[q], e[q])
    {
      OrderCovers(w, h, level, q);
      ScatterCovers(before, Blank(n), order, tile, q, depth);
      assert tail[q] == tail[..n][q] == d[..n][q];
    }
    InverseCongruent(tail, e, w, h, level);
    forall q | n <= q < |tail|
      ensures Inverse(tail, w, h, level)[q] == tail[q]
    {
      InverseFrame(tail, w, h, level, q);
    }
  }

  /** The bands of level l come next in the traversal and lie inside the buffer. */
  lemma {:induction false} LevelFits(w: nat, h: nat, l: nat, level: nat, bound: nat)
    requires l < level && Below(Order(w, h, level), bound)
    ensures |Details(w, h, l + 1)| + |Band(w, h, level - 1, 0)| <= |Order(w, h, level)|
    ensures Below(Band(w, h, l, 3), bound) && Below(Band(w, h, l, 2), bound) && Below(Band(w, h, l, 1), bound)
    ensures Below(Band(w, h, level - 1, 0), bound)
    ensures Details(w, h, l + 1) == Details(w, h, l) + Band(w, h, l, 3) + Band(w, h, l, 2) + Band(w, h, l, 1)
  {
    hide Band;
    DetailsPrefix(w, h, l + 1, level);
    var d, e := Details(w, h, l + 1), Details(w, h, level);
    BelowParts(e, Band(w, h, level - 1, 0), bound);
    assert e == d + e[|d|..];
    BelowParts(d, e[|d|..], bound);
    BelowParts(Details(w, h, l) + Band(w, h, l, 3) + Band(w, h, l, 2), Band(w, h, l, 1), bound);
    BelowParts(Details(w, h, l) + Band(w, h, l, 3), Band(w, h, l, 2), bound);
    BelowParts(Details(w, h, l), Band(w, h, l, 3), bound);
  }

  method UnpackAll(pBuf: array<Cell>, fb: array<Pixel>, w: nat, h: nat, level: nat,
                   data0: nat, width: nat, scanline: nat, ghost u: Unpacking, depth: Depth)
    returns (data: nat, pData: nat)
    requires u.depth == depth
    requires w > 0 && level > 0 && Aligned(w, level) && Aligned(h, level)
    requires width == u.a.w && scanline == u.a.stride
    requires u.Reached(fb[..], pBuf[..], [], data0, data0)
    requires |Order(w, h, level)| <= |u.tile| && Below(Order(w, h, level), pBuf.Length)
    modifies pBuf
    ensures u.Reached(fb[..], pBuf[..], Order(w, h, level), data, pData)
  {
    hide Band, Unpacking.Reached, Aligned, Below;
    data, pData := data0, data0;
    var l := 0;
    while l < level
      invariant l <= level
      invariant u.Reached(fb[..], pBuf[..], if l < level then Details(w, h, l) else Order(w, h, level), data, pData)
    {
      AlignedBelow(w, level, l + 1);
      AlignedBelow(h, level, l + 1);
      LevelFits(w, h, l, level, pBuf.Length);
      ghost var done := Details(w, h, l);
      data, pData := UnpackBand(pBuf, fb, 3, w, h, l, data, pData, width, scanline, u, done, depth);
      done := done + Band(w, h, l, 3);
      data, pData := UnpackBand(pBuf, fb, 2, w, h, l, data, pData, width, scanline, u, done, depth);
      done := done + Band(w, h, l, 2);
      data, pData := UnpackBand(pBuf, fb, 1, w, h, l, data, pData, width, scanline, u, done, depth);
      done := done + Band(w, h, l, 1);
      if l == level - 1 {
        data, pData := UnpackBand(pBuf, fb, 0, w, h, l, data, pData, width, scanline, u, done, depth);
      }
      l := l + 1;
    }
  }

  /** A pixel stored in a buffer word, whose other bytes stay, and read back. */
  function SaveRaw(c: Cell, p: Pixel, depth: Depth): Cell {
    var low := c.(b := ToSchar(p % 256), g := ToSchar(p / 0x100 % 256));
    if depth.Bits16? then low
    else low.(r := ToSchar(p / 0x1_0000 % 256), pad := ToSchar(p / 0x100_0000 % 256))
  }

  function RawWord(c: Cell, depth: Depth): Pixel {
    c.b % 256 + c.g % 256 * 0x100 +
    (if depth.Bits16? then 0 else c.r % 256 * 0x1_0000 + c.pad % 256 * 0x100_0000)
  }

  lemma {:induction false} RawRoundTrip(c: Cell, p: Pixel, depth: Depth)
    ensures RawWord(SaveRaw(c, p, depth), depth) == Whole(p, depth)
  {
    hide ToSchar;
    TwoBytes(p);
    UnsignedByte(p % 256);
    UnsignedByte(p / 0x100 % 256);
    if depth.Bits32? {
      FourBytes(p);
      UnsignedByte(p / 0x1_0000 % 256);
      UnsignedByte(p / 0x100_0000 % 256);
    }
  }

  lemma {:induction false} TwoBytes(p: nat)
    ensures p % 0x1_0000 == p % 256 + p / 0x100 % 256 * 0x100
  {
    var high := p / 0x100;
    DivModUnique(p, 0x1_0000, high / 256, p % 256 + high % 256 * 0x100);
  }

  lemma {:induction false} FourBytes(p: nat)
    ensures p % 0x1_0000_0000 ==
            p % 256 + p / 0x100 % 256 * 0x100 + p / 0x1_0000 % 256 * 0x1_0000 + p / 0x100_0000 % 256 * 0x100_0000
  {
    var low, high := p % 0x1_0000, p / 0x1_0000;
    TwoBytes(p);
    TwoBytes(high);
    assert high / 0x100 == p / 0x100_0000;
    assert p == high / 0x1_0000 * 0x1_0000_0000 + (high % 0x1_0000 * 0x1_0000 + low);
    DivModUnique(p, 0x1_0000_0000, high / 0x1_0000, high % 0x1_0000 * 0x1_0000 + low);
  }

  lemma {:induction false} UnsignedByte(b: int)
    requires 0 <= b < 256
    ensures ToSchar(b) % 256 == b
  {
  }

  /** ZYWRLE_SAVE_UNALIGN: the pixels after the coefficients go to the end of the buffer. */
  method SaveUnaligned(pBuf: array<Cell>, fb: array<Pixel>, first: nat, count: nat, data0: nat, pData0: nat, width: nat,
                       scanline: nat, ghost a: Area, ghost tile: seq<Pixel>, depth: Depth)
    requires a.w == width > 0 && a.stride == scanline >= width && Holds(fb[..], a, tile)
    requires first <= count == |tile| && count <= pBuf.Length && AtPixel(a, first, data0, pData0)
    modifies pBuf
    ensures pBuf[..first] == old(pBuf[..first])
    ensures forall k :: first <= k < count ==> RawWord(pBuf[k], depth) == Whole(tile[k], depth)
  {
    hide CursorAt, Rows, SaveRaw, RawWord, Whole;
    var data, pData, pTop := data0, pData0, first;
    while pTop < count
      invariant first <= pTop <= count && AtPixel(a, pTop, data, pData)
      invariant pBuf[..first] == old(pBuf[..first])
      invariant forall k :: first <= k < pTop ==> RawWord(pBuf[k], depth) == Whole(tile[k], depth)
    {
      assert HoldsAt(fb[..], a, tile, pTop);
      RawRoundTrip(pBuf[pTop], fb[data], depth);
      pBuf[pTop] := SaveRaw(pBuf[pTop], fb[data], depth);
      data, pData := IncPtr(data, pData, width, scanline, a, pTop);
      pTop := pTop + 1;
    }
  }

  /** The k-th pixel of the aligned part: colour from the coefficients, top byte from the tile. */
  function AlignedPixel(tile: seq<Pixel>, width: nat, coeffs: seq<Cell>, w: nat, k: nat, depth: Depth): Pixel
    requires w > 0 && k < |coeffs|
  {
    var c := CursorAt(w, k);
    var under := Rows(width, c.j) + c.i;
    SaveWord(if under < |tile| then tile[under] else 0, ToRgb(coeffs[k]), depth)
  }

  function AlignedImage(tile: seq<Pixel>, width: nat, coeffs: seq<Cell>, w: nat, n: nat,
                        depth: Depth): (img: seq<Pixel>)
    requires w > 0 && n <= |coeffs|
    ensures |img| == n
  {
    seq(n, k requires 0 <= k < n => AlignedPixel(tile, width, coeffs, w, k, depth))
  }

  lemma {:induction false} AlignedNone(tile: seq<Pixel>, width: nat, coeffs: seq<Cell>, w: nat, depth: Depth)
    requires w > 0
    ensures AlignedImage(tile, width, coeffs, w, 0, depth) == []
  {
  }

  lemma {:induction false} AlignedAt(tile: seq<Pixel>, width: nat, coeffs: seq<Cell>, w: nat, n: nat, k: nat,
                                     depth: Depth)
    requires w > 0 && k < n <= |coeffs|
    ensures AlignedImage(tile, width, coeffs, w, n, depth)[k] == AlignedPixel(tile, width, coeffs, w, k, depth)
  {
    hide AlignedPixel;
  }

  lemma {:induction false} AlignedNext(tile: seq<Pixel>, width: nat, coeffs: seq<Cell>, w: nat, n: nat, i: nat, j: nat,
                                       depth: Depth)
    requires i < w && n == Rows(w, j) + i && n < |coeffs| && Rows(width, j) + i < |tile|
    ensures AlignedImage(tile, width, coeffs, w, n + 1, depth) ==
            AlignedImage(tile, width, coeffs, w, n, depth) +
            [SaveWord(tile[Rows(width, j) + i], ToRgb(coeffs[n]), depth)]
  {
    hide CursorAt, Rows, ToRgb, SaveWord;
    CursorIs(w, n, i, j);
  }

  /** A place the blit has not come to yet still holds the tile's pixel. */
  lemma {:induction false} Undrawn(fb: seq<Pixel>, a: Area, tile: seq<Pixel>, w: nat, drawn: seq<Pixel>, i: nat, j: nat)
    requires 0 < w <= a.w && a.x + a.w <= a.stride && Holds(fb, a, tile)
    requires i < w && |drawn| == Rows(w, j) + i && Rows(a.w, j) + i < |tile|
    ensures var p := Offset(a, i, j);
            p < |fb| && Blit(fb, a.(w := w), drawn)[p] == tile[Rows(a.w, j) + i]
  {
    hide CursorAt, Rows, Blit;
    CursorIs(a.w, Rows(a.w, j) + i, i, j);
    assert HoldsAt(fb, a, tile, Rows(a.w, j) + i);
    BlitAt(fb, a.(w := w), drawn, a.x + i, a.y + j);
  }

  /** ZYWRLE_YUVRGB over the aligned w x h part of the tile. */
  method YuvRgb(pBuf: array<Cell>, fb: array<Pixel>, data0: nat, w: nat, h: nat, scanline: nat,
                ghost height: nat, ghost a: Area, ghost tile: seq<Pixel>, depth: Depth)
    requires 0 < w <= a.w && a.x + a.w <= a.stride == scanline && a.y + h <= height
    requires fb.Length == Rows(scanline, height) && Holds(fb[..], a, tile) && Rows(a.w, h) <= |tile|
    requires Rows(w, h) <= pBuf.Length && data0 == Offset(a, 0, 0)
    modifies fb
    ensures fb[..] == Blit(old(fb[..]), a.(w := w), AlignedImage(tile, a.w, pBuf[..], w, Rows(w, h), depth))
  {
    hide CursorAt, Rows, Blit, ToRgb, SaveWord, AlignedImage;
    AlignedNone(tile, a.w, pBuf[..], w, depth);
    ghost var before, area := fb[..], a.(w := w);
    var data, p := data0, 0;
    var end := RowOffset(w, h);
    ghost var j: nat := 0;
    BlitNone(before, area);
    RowsZero(w);
    while p < end
      invariant j <= h && p == Rows(w, j) <= end && data == Offset(a, 0, j)
      invariant fb[..] == Blit(before, area, AlignedImage(tile, a.w, pBuf[..], w, p, depth))
      decreases h - j
    {
      if j == h {
        assert false;
      }
      RowsNext(w, j);
      RowsNext(a.stride, a.y + j);
      RowsMonotonic(w, j + 1, h);
      RowsMonotonic(a.w, j + 1, h);
      RowsNext(a.w, j);
      var line := p + w;
      while p < line
        invariant Rows(w, j) <= p <= line <= end && data == Offset(a, p - Rows(w, j), j)
        invariant fb[..] == Blit(before, area, AlignedImage(tile, a.w, pBuf[..], w, p, depth))
      {
        ghost var i, drawn := p - Rows(w, j), AlignedImage(tile, a.w, pBuf[..], w, p, depth);
        Undrawn(before, a, tile, w, drawn, i, j);
        var c := SaveWord(fb[data], ToRgb(pBuf[p]), depth);
        AlignedNext(tile, a.w, pBuf[..], w, p, i, j, depth);
        Draw(fb, data, c, before, height, area, h, drawn, i, j);
        p, data := p + 1, data + 1;
      }
      data := data + (scanline - w);
      j := j + 1;
    }
    if j < h {
      RowsMonotonic(w, j, h);
    }
  }

  /** n words of the buffer from `first` on, as pixels. */
  function TailImage(buf: seq<Cell>, first: nat, n: nat, depth: Depth): (img: seq<Pixel>)
    requires first + n <= |buf|
    ensures |img| == n && forall k :: 0 <= k < n ==> img[k] == RawWord(buf[first + k], depth)
  {
    if n == 0 then [] else TailImage(buf, first, n - 1, depth) + [RawWord(buf[first + n - 1], depth)]
  }

  lemma {:induction false} TailNone(buf: seq<Cell>, first: nat, depth: Depth)
    requires first <= |buf|
    ensures TailImage(buf, first, 0, depth) == []
  {
  }

  lemma {:induction false} TailNext(buf: seq<Cell>, first: nat, n: nat, depth: Depth)
    requires first + n < |buf|
    ensures TailImage(buf, first, n + 1, depth) == TailImage(buf, first, n, depth) + [RawWord(buf[first + n], depth)]
  {
    hide RawWord;
  }

  /** One rectangle of ZYWRLE_LOAD_UNALIGN, read from the buffer from pTop0 on. */
  method LoadUnaligned(pBuf: array<Cell>, fb: array<Pixel>, pTop0: nat, data0: nat, h: nat,
                       ghost height: nat, a: Area, depth: Depth)
    returns (pTop: nat)
    requires a.w > 0 && a.x + a.w <= a.stride && a.y + h <= height && fb.Length == Rows(a.stride, height)
    requires pTop0 + Rows(a.w, h) <= pBuf.Length && data0 == Offset(a, 0, 0)
    modifies fb
    ensures pTop == pTop0 + Rows(a.w, h)
    ensures fb[..] == Blit(old(fb[..]), a, TailImage(pBuf[..], pTop0, Rows(a.w, h), depth))
  {
    hide CursorAt, Rows, Blit, RawWord, TailImage;
    ghost var before := fb[..];
    TailNone(pBuf[..], pTop0, depth);
    pTop := pTop0;
    var pData := data0;
    var rows := RowOffset(a.stride, h);
    var end := pData + rows;
    ghost var j: nat := 0;
    BlitNone(before, a);
    RowsZero(a.w);
    RowsAdd(a.stride, a.y, h);
    while pData < end
      invariant j <= h && pTop == pTop0 + Rows(a.w, j) && pData == Offset(a, 0, j)
      invariant pTop <= pTop0 + Rows(a.w, h)
      invariant fb[..] == Blit(before, a, TailImage(pBuf[..], pTop0, pTop - pTop0, depth))
      decreases h - j
    {
      if j == h {
        assert false;
      }
      RowsNext(a.w, j);
      RowsNext(a.stride, a.y + j);
      RowsMonotonic(a.w, j + 1, h);
      var line := pData + a.w;
      while pData < line
        invariant Offset(a, 0, j) <= pData <= line
        invariant pTop == pTop0 + Rows(a.w, j) + (pData - Offset(a, 0, j))
        invariant pTop <= pTop0 + Rows(a.w, h)
        invariant fb[..] == Blit(before, a, TailImage(pBuf[..], pTop0, pTop - pTop0, depth))
      {
        ghost var drawn := TailImage(pBuf[..], pTop0, pTop - pTop0, depth);
        var c := RawWord(pBuf[pTop], depth);
        TailNext(pBuf[..], pTop0, pTop - pTop0, depth);
        Draw(fb, pData, c, before, height, a, h, drawn, pData - Offset(a, 0, j), j);
        pData, pTop := pData + 1, pTop + 1;
      }
      pData := pData + (a.stride - a.w);
      j := j + 1;
    }
    if j < h {
      RowsMonotonic(a.stride, a.y + j, a.y + h);
    }
  }

  /** The largest size, not above n, with `level` clear low bits: zywrleCalcSize. */
  function CalcSize(n: nat, level: nat): (r: nat)
    ensures r <= n
  {
    SmallRemainder(n, Pow2(level));
    n - n % Pow2(level)
  }

  lemma {:induction false} CalcSizeAligned(n: nat, level: nat)
    ensures Aligned(CalcSize(n, level), level)
  {
    hide Pow2;
    RoundedDown(n, Pow2(level));
  }

  /** Where in the tile's pixel stream the pixel of fringe place (i, j) travels: after the
      w x h coefficients come the right, the bottom and the corner fringe, each row-major. */
  function FringeSource(width: nat, height: nat, w: nat, h: nat, i: nat, j: nat): nat
    requires i < width && w <= width && j < height && h <= height && !(i < w && j < h)
  {
    if j < h then Rows(w, h) + Rows(width - w, j) + (i - w)
    else if i < w then Rows(width, h) + Rows(w, j - h) + i
    else Rows(width, h) + Rows(w, height - h) + Rows(width - w, j - h) + (i - w)
  }

  lemma {:induction false} FringeInside(width: nat, height: nat, w: nat, h: nat, i: nat, j: nat)
    requires i < width && w <= width && j < height && h <= height && !(i < w && j < h)
    ensures Rows(w, h) <= FringeSource(width, height, w, h, i, j) < Rows(width, height)
    ensures j < h ==> FringeSource(width, height, w, h, i, j) < Rows(width, h)
    ensures j >= h ==> FringeSource(width, height, w, h, i, j) >= Rows(width, h)
    ensures j >= h && i < w ==> FringeSource(width, height, w, h, i, j) < Rows(width, h) + Rows(w, height - h)
  {
    hide Rows;
    RowsSplit(w, width - w, h);
    RowsSplit(w, width - w, height - h);
    RowsAdd(width, h, height - h);
    if j < h {
      InsideRows(width - w, h, i - w, j);
    } else if i < w {
      InsideRows(w, height - h, i, j - h);
    } else {
      InsideRows(width - w, height - h, i - w, j - h);
    }
  }

  /** Different fringe places have different sources: as there are as many places as pixels left,
      the fringe takes each remaining pixel exactly once. */
  lemma {:induction false} FringeInjective(width: nat, height: nat, w: nat, h: nat, i: nat, j: nat, i': nat, j': nat)
    requires i < width && w <= width && j < height && h <= height && !(i < w && j < h)
    requires i' < width && j' < height && !(i' < w && j' < h)
    requires FringeSource(width, height, w, h, i, j) == FringeSource(width, height, w, h, i', j')
    ensures i == i' && j == j'
  {
    hide Rows;
    FringeInside(width, height, w, h, i, j);
    FringeInside(width, height, w, h, i', j');
    if j < h {
      RowsInjective(width - w, i - w, j, i' - w, j');
    } else if i < w {
      RowsInjective(w, i, j - h, i', j' - h);
    } else {
      RowsInjective(width - w, i - w, j - h, i' - w, j' - h);
    }
  }

  /** The k-th pixel of the synthesized tile. */
  function SynthesizedPixel(tile: seq<Pixel>, width: nat, height: nat, level: nat, k: nat, depth: Depth): Pixel
    requires width > 0 && level > 0 && |tile| == Rows(width, height) && k < |tile|
  {
    var c, w, h := CursorAt(width, k), CalcSize(width, level), CalcSize(height, level);
    CursorInside(width, height, k);
    if w == 0 || h == 0 then tile[k]
    else if c.i < w && c.j < h then
      DecodedFits(width, height, level);
      InsideRows(w, h, c.i, c.j);
      SaveWord(tile[k], ToRgb(Decoded(tile, w, h, level, depth)[Rows(w, c.j) + c.i]), depth)
    else
      FringeInside(width, height, w, h, c.i, c.j);
      Whole(tile[FringeSource(width, height, w, h, c.i, c.j)], depth)
  }

  lemma {:induction false} CursorInside(width: nat, height: nat, k: nat)
    requires width > 0 && k < Rows(width, height)
    ensures CursorAt(width, k).j < height
  {
    CursorOffset(width, k);
    var c := CursorAt(width, k);
    if c.j >= height {
      RowsMonotonic(width, height, c.j);
    }
  }

  lemma {:induction false} DecodedFits(width: nat, height: nat, level: nat)
    requires level > 0
    ensures var w, h := CalcSize(width, level), CalcSize(height, level);
            && Aligned(w, level) && Aligned(h, level)
            && |Order(w, h, level)| == Rows(w, h) <= Rows(width, height)
  {
    hide Order, CalcSize, Aligned;
    var w, h := CalcSize(width, level), CalcSize(height, level);
    CalcSizeAligned(width, level);
    CalcSizeAligned(height, level);
    OrderIsPermutation(w, h, level);
    RowsSplit(w, width - w, h);
    RowsMonotonic(width, h, height);
  }

  function Synthesized(tile: seq<Pixel>, width: nat, height: nat, level: nat, depth: Depth): (r: seq<Pixel>)
    requires width > 0 && level > 0 && |tile| == Rows(width, height)
    ensures |r| == |tile|
  {
    seq(|tile|, k requires 0 <= k < |tile| => SynthesizedPixel(tile, width, height, level, k, depth))
  }

  /** The four images ZYWRLE_SYNTHESIZE draws, and the framebuffer after all of them. */
  function Assembled(fb: seq<Pixel>, a: Area, h: nat, aligned: seq<Pixel>, w: nat,
                     right: seq<Pixel>, bottom: seq<Pixel>, corner: seq<Pixel>): (r: seq<Pixel>)
    requires w <= a.w
    ensures |r| == |fb|
  {
    var v := a.w - w;
    Blit(Blit(Blit(Blit(fb, a.(w := w), aligned),
                   Area(a.stride, a.x + w, a.y, v), right),
              Area(a.stride, a.x, a.y + h, w), bottom),
         Area(a.stride, a.x + w, a.y + h, v), corner)
  }

  /** A blit of h whole rows, pixel by pixel. */
  lemma {:induction false} BlitWhole(fb: seq<Pixel>, a: Area, h: nat, img: seq<Pixel>, x: nat, y: nat)
    requires x < a.stride && a.x + a.w <= a.stride && Rows(a.stride, y) + x < |fb| && |img| == Rows(a.w, h)
    ensures a.x <= x < a.x + a.w && a.y <= y < a.y + h ==> Rows(a.w, y - a.y) + (x - a.x) < |img|
    ensures Blit(fb, a, img)[Rows(a.stride, y) + x] ==
            if a.x <= x < a.x + a.w && a.y <= y < a.y + h then img[Rows(a.w, y - a.y) + (x - a.x)]
            else fb[Rows(a.stride, y) + x]
  {
    hide Rows, Blit;
    BlitAt(fb, a, img, x, y);
    CoversWhole(a, h, x, y);
  }

  lemma {:induction false} AssembledAt(fb: seq<Pixel>, a: Area, height: nat, h: nat, aligned: seq<Pixel>, w: nat,
                                       right: seq<Pixel>, bottom: seq<Pixel>, corner: seq<Pixel>, x: nat, y: nat)
    requires w <= a.w && h <= height && a.x + a.w <= a.stride
    requires |aligned| == Rows(w, h) && |right| == Rows(a.w - w, h)
    requires |bottom| == Rows(w, height - h) && |corner| == Rows(a.w - w, height - h)
    requires x < a.stride && Rows(a.stride, y) + x < |fb|
    ensures var p, r, v := Rows(a.stride, y) + x, Assembled(fb, a, h, aligned, w, right, bottom, corner), a.w - w;
            if !(a.x <= x < a.x + a.w && a.y <= y < a.y + height) then r[p] == fb[p]
            else
              var i, j := x - a.x, y - a.y;
              if i < w && j < h then Rows(w, j) + i < |aligned| && r[p] == aligned[Rows(w, j) + i]
              else if j < h then Rows(v, j) + (i - w) < |right| && r[p] == right[Rows(v, j) + (i - w)]
              else if i < w then Rows(w, j - h) + i < |bottom| && r[p] == bottom[Rows(w, j - h) + i]
              else Rows(v, j - h) + (i - w) < |corner| && r[p] == corner[Rows(v, j - h) + (i - w)]
  {
    hide Rows, Blit;
    var v := a.w - w;
    var a0, a1 := a.(w := w), Area(a.stride, a.x + w, a.y, v);
    var a2, a3 := Area(a.stride, a.x, a.y + h, w), Area(a.stride, a.x + w, a.y + h, v);
    var f0 := Blit(fb, a0, aligned);
    var f1 := Blit(f0, a1, right);
    var f2 := Blit(f1, a2, bottom);
    BlitWhole(fb, a0, h, aligned, x, y);
    BlitWhole(f0, a1, h, right, x, y);
    BlitWhole(f1, a2, height - h, bottom, x, y);
    BlitWhole(f2, a3, height - h, corner, x, y);
  }

  /** Drawing a tile over itself changes nothing. */
  lemma {:induction false} BlitSame(fb: seq<Pixel>, screen: nat, a: Area, height: nat, tile: seq<Pixel>)
    requires a.w > 0 && a.x + a.w <= a.stride && a.y + height <= screen && |fb| == Rows(a.stride, screen)
    requires Holds(fb, a, tile) && |tile| == Rows(a.w, height)
    ensures Blit(fb, a, tile) == fb
  {
    hide Rows, Blit, CursorAt;
    var r := Blit(fb, a, tile);
    forall x: nat, y: nat | x < a.stride && y < screen
      ensures SameAt(r, fb, a.stride, x, y)
    {
      InsideRows(a.stride, screen, x, y);
      BlitWhole(fb, a, height, tile, x, y);
      if a.x <= x < a.x + a.w && a.y <= y < a.y + height {
        TileAt(fb, a, tile, x - a.x, y - a.y);
      }
    }
    SameEverywhere(r, fb, a.stride, screen);
  }

  lemma {:induction false} TileAt(fb: seq<Pixel>, a: Area, tile: seq<Pixel>, i: nat, j: nat)
    requires i < a.w && Holds(fb, a, tile) && Rows(a.w, j) + i < |tile|
    ensures Offset(a, i, j) < |fb| && fb[Offset(a, i, j)] == tile[Rows(a.w, j) + i]
  {
    hide Rows, CursorAt;
    CursorIs(a.w, Rows(a.w, j) + i, i, j);
    assert HoldsAt(fb, a, tile, Rows(a.w, j) + i);
  }

  lemma {:induction false} GrabHolds(fb: seq<Pixel>, screen: nat, a: Area, height: nat)
    requires a.w > 0 && a.x + a.w <= a.stride && a.y + height <= screen && |fb| == Rows(a.stride, screen)
    ensures Holds(fb, a, Grab(fb, a, Rows(a.w, height)))
  {
    hide Rows, CursorAt;
    var tile := Grab(fb, a, Rows(a.w, height));
    forall k: nat | k < |tile|
      ensures HoldsAt(fb, a, tile, k)
    {
      PixelInside(a, height, screen, k);
    }
  }

  /** The buffer once every pixel of the tile has been taken in and the coefficients transformed. */
  ghost predicate Synthesizes(buf: seq<Cell>, tile: seq<Pixel>, width: nat, height: nat, level: nat, depth: Depth)
    requires level > 0 && |tile| == Rows(width, height)
  {
    var w, h := CalcSize(width, level), CalcSize(height, level);
    && |Order(w, h, level)| == Rows(w, h) <= |tile| <= |buf|
    && SameUpTo(buf, Decoded(tile, w, h, level, depth), Rows(w, h))
    && forall k :: Rows(w, h) <= k < |tile| ==> RawWord(buf[k], depth) == Whole(tile[k], depth)
  }

  /** How many words of the buffer each fringe rectangle takes. */
  lemma {:induction false} FringeSizes(width: nat, height: nat, w: nat, h: nat)
    requires w <= width && h <= height
    ensures Rows(w, h) + Rows(width - w, h) == Rows(width, h)
    ensures Rows(width, h) + Rows(w, height - h) + Rows(width - w, height - h) == Rows(width, height)
  {
    RowsSplit(w, width - w, h);
    RowsSplit(w, width - w, height - h);
    RowsAdd(width, h, height - h);
  }

  function AssembledFrom(fb: seq<Pixel>, a: Area, height: nat, level: nat, tile: seq<Pixel>,
                         buf: seq<Cell>, depth: Depth): (r: seq<Pixel>)
    requires CalcSize(a.w, level) > 0 && Rows(a.w, height) <= |buf|
    ensures |r| == |fb|
  {
    var w, h := CalcSize(a.w, level), CalcSize(height, level);
    FringeSizes(a.w, height, w, h);
    Assembled(fb, a, h, AlignedImage(tile, a.w, buf, w, Rows(w, h), depth), w,
              TailImage(buf, Rows(w, h), Rows(a.w - w, h), depth),
              TailImage(buf, Rows(a.w, h), Rows(w, height - h), depth),
              TailImage(buf, Rows(a.w, h) + Rows(w, height - h), Rows(a.w - w, height - h), depth))
  }

  /** The assembled framebuffer, pixel by pixel. */
  lemma {:induction false} AssembledFromAt(fb: seq<Pixel>, a: Area, height: nat, level: nat, tile: seq<Pixel>,
                                           buf: seq<Cell>, x: nat, y: nat, depth: Depth)
    requires level > 0 && a.x + a.w <= a.stride && CalcSize(a.w, level) > 0 && CalcSize(height, level) > 0
    requires Rows(a.w, height) <= |buf| && x < a.stride && Rows(a.stride, y) + x < |fb|
    requires a.x <= x < a.x + a.w && a.y <= y < a.y + height
    ensures var p, i, j := Rows(a.stride, y) + x, x - a.x, y - a.y;
            var w, h := CalcSize(a.w, level), CalcSize(height, level);
            var out := AssembledFrom(fb, a, height, level, tile, buf, depth);
            && Rows(w, h) <= |buf|
            && if i < w && j < h then
                 Rows(w, j) + i < Rows(w, h) && out[p] == AlignedPixel(tile, a.w, buf, w, Rows(w, j) + i, depth)
               else
                 var source := FringeSource(a.w, height, w, h, i, j);
                 source < |buf| && out[p] == RawWord(buf[source], depth)
  {
    hide Rows, Blit, CalcSize, RawWord, Assembled, AlignedPixel, AlignedImage, TailImage;
    var w, h := CalcSize(a.w, level), CalcSize(height, level);
    FringeSizes(a.w, height, w, h);
    AssembledAt(fb, a, height, h, AlignedImage(tile, a.w, buf, w, Rows(w, h), depth), w,
                TailImage(buf, Rows(w, h), Rows(a.w - w, h), depth),
                TailImage(buf, Rows(a.w, h), Rows(w, height - h), depth),
                TailImage(buf, Rows(a.w, h) + Rows(w, height - h), Rows(a.w - w, height - h), depth), x, y);
    if x - a.x < w && y - a.y < h {
      AlignedAt(tile, a.w, buf, w, Rows(w, h), Rows(w, y - a.y) + (x - a.x), depth);
    }
  }

  lemma {:induction false} AssembledOutside(fb: seq<Pixel>, a: Area, height: nat, level: nat, tile: seq<Pixel>,
                                            buf: seq<Cell>, x: nat, y: nat, depth: Depth)
    requires level > 0 && a.x + a.w <= a.stride && CalcSize(a.w, level) > 0
    requires Rows(a.w, height) <= |buf| && x < a.stride && Rows(a.stride, y) + x < |fb|
    requires !(a.x <= x < a.x + a.w && a.y <= y < a.y + height)
    ensures AssembledFrom(fb, a, height, level, tile, buf, depth)[Rows(a.stride, y) + x] == fb[Rows(a.stride, y) + x]
  {
    hide Rows, Blit, CalcSize, RawWord, Assembled, AlignedPixel;
    var w, h := CalcSize(a.w, level), CalcSize(height, level);
    FringeSizes(a.w, height, w, h);
    AssembledAt(fb, a, height, h, AlignedImage(tile, a.w, buf, w, Rows(w, h), depth), w,
                TailImage(buf, Rows(w, h), Rows(a.w - w, h), depth),
                TailImage(buf, Rows(a.w, h), Rows(w, height - h), depth),
                TailImage(buf, Rows(a.w, h) + Rows(w, height - h), Rows(a.w - w, height - h), depth), x, y);
  }

  lemma {:induction false} SynthesisAt(fb: seq<Pixel>, screen: nat, a: Area, height: nat, level: nat,
                                       tile: seq<Pixel>, buf: seq<Cell>, x: nat, y: nat, depth: Depth)
    requires level > 0 && a.x + a.w <= a.stride && a.y + height <= screen && |fb| == Rows(a.stride, screen)
    requires |tile| == Rows(a.w, height) && CalcSize(a.w, level) > 0 && CalcSize(height, level) > 0
    requires |tile| <= |buf| && Synthesizes(buf, tile, a.w, height, level, depth)
    requires x < a.stride && y < screen
    ensures SameAt(AssembledFrom(fb, a, height, level, tile, buf, depth),
                   Blit(fb, a, Synthesized(tile, a.w, height, level, depth)), a.stride, x, y)
  {
    hide Rows, Blit, CalcSize, RawWord, AssembledFrom, Synthesizes, AlignedPixel, SynthesizedPixel, FringeSource;
    InsideRows(a.stride, screen, x, y);
    BlitWhole(fb, a, height, Synthesized(tile, a.w, height, level, depth), x, y);
    if a.x <= x < a.x + a.w && a.y <= y < a.y + height {
      AssembledFromAt(fb, a, height, level, tile, buf, x, y, depth);
      PieceAt(a.w, height, level, tile, buf, x - a.x, y - a.y, depth);
    } else {
      AssembledOutside(fb, a, height, level, tile, buf, x, y, depth);
    }
  }

  lemma {:induction false} ColourOfLanes(c: Cell, d: Cell)
    requires SameLanes(c, d)
    ensures ToRgb(c) == ToRgb(d)
  {
  }

  /** Each drawn rectangle holds the pixels the tile's specification asks for. */
  lemma {:induction false} PieceAt(width: nat, height: nat, level: nat, tile: seq<Pixel>, buf: seq<Cell>, i: nat,
                                   j: nat, depth: Depth)
    requires level > 0 && |tile| == Rows(width, height) && CalcSize(width, level) > 0 && CalcSize(height, level) > 0
    requires Synthesizes(buf, tile, width, height, level, depth) && i < width && j < height
    ensures var w, h, k := CalcSize(width, level), CalcSize(height, level), Rows(width, j) + i;
            var v := width - w;
            && k < |tile| && Rows(w, h) <= Rows(width, h) <= |buf|
            && var p := SynthesizedPixel(tile, width, height, level, k, depth);
               if i < w && j < h then
                 Rows(w, j) + i < Rows(w, h) && p == AlignedPixel(tile, width, buf, w, Rows(w, j) + i, depth)
               else
                 var source := FringeSource(width, height, w, h, i, j);
                 source < |buf| && p == RawWord(buf[source], depth)
  {
    hide Rows, CursorAt, Order, Decoded, RawWord, Whole, SaveWord, CalcSize, ToRgb, FringeSource;
    var w, h := CalcSize(width, level), CalcSize(height, level);
    InsideRows(width, height, i, j);
    CursorIs(width, Rows(width, j) + i, i, j);
    FringeSizes(width, height, w, h);
    if i < w && j < h {
      InsideRows(w, h, i, j);
      CursorIs(w, Rows(w, j) + i, i, j);
      DecodedFits(width, height, level);
      ColourOfLanes(buf[Rows(w, j) + i], Decoded(tile, w, h, level, depth)[Rows(w, j) + i]);
    } else {
      FringeInside(width, height, w, h, i, j);
    }
  }

  lemma {:induction false} SynthesisComplete(fb: seq<Pixel>, screen: nat, a: Area, height: nat, level: nat,
                                             tile: seq<Pixel>, buf: seq<Cell>, depth: Depth)
    requires level > 0 && a.x + a.w <= a.stride && a.y + height <= screen && |fb| == Rows(a.stride, screen)
    requires |tile| == Rows(a.w, height) && CalcSize(a.w, level) > 0 && CalcSize(height, level) > 0
    requires Synthesizes(buf, tile, a.w, height, level, depth)
    ensures AssembledFrom(fb, a, height, level, tile, buf, depth) ==
            Blit(fb, a, Synthesized(tile, a.w, height, level, depth))
  {
    hide Rows, Blit, CursorAt, CalcSize, Order, Decoded, Assembled, Synthesized;
    var now := AssembledFrom(fb, a, height, level, tile, buf, depth);
    var goal := Blit(fb, a, Synthesized(tile, a.w, height, level, depth));
    forall x: nat, y: nat | x < a.stride && y < screen
      ensures SameAt(now, goal, a.stride, x, y)
    {
      SynthesisAt(fb, screen, a, height, level, tile, buf, x, y, depth);
    }
    SameEverywhere(now, goal, a.stride, screen);
  }

  /** ZYWRLE_SYNTHESIZE(dst, dst, w, h, scanline, level, pBuf): decode a tile in place, with
      a.w, height and a.stride for w, h and scanline. */
  method Synthesize(fb: array<Pixel>, a: Area, height: nat, level: nat, pBuf: array<Cell>, ghost screen: nat,
                    depth: Depth)
    requires a.w > 0 && height > 0 && level > 0
    requires a.x + a.w <= a.stride && a.y + height <= screen && fb.Length == Rows(a.stride, screen)
    requires Rows(a.w, height) <= pBuf.Length
    modifies fb, pBuf
    ensures fb[..] == Blit(old(fb[..]), a,
                           Synthesized(Grab(old(fb[..]), a, Rows(a.w, height)), a.w, height, level, depth))
  {
    hide Rows, Blit, CursorAt, CalcSize, Order, Decoded, Synthesized, Scatter, Assembled, Aligned, Holds, TailImage;
    ghost var before, tile := fb[..], Grab(fb[..], a, Rows(a.w, height));
    GrabHolds(before, screen, a, height);
    var w, h := CalcSize(a.w, level), CalcSize(height, level);
    if w == 0 || h == 0 {
      NothingToSynthesize(before, screen, a, height, level, tile, depth);
      return;
    }
    var uw, uh := a.w - w, height - h;
    var start := RowOffset(a.stride, a.y);
    start := start + a.x;
    FillBuffer(fb, a, height, level, pBuf, w, h, start, tile, depth);
    DrawTile(fb, a, height, level, pBuf, w, h, start, screen, tile, depth);
    SynthesisComplete(before, screen, a, height, level, tile, pBuf[..], depth);
  }

  lemma {:induction false} NothingToSynthesize(fb: seq<Pixel>, screen: nat, a: Area, height: nat, level: nat,
                                               tile: seq<Pixel>, depth: Depth)
    requires a.w > 0 && level > 0 && a.x + a.w <= a.stride && a.y + height <= screen && |fb| == Rows(a.stride, screen)
    requires Holds(fb, a, tile) && |tile| == Rows(a.w, height)
    requires CalcSize(a.w, level) == 0 || CalcSize(height, level) == 0
    ensures Blit(fb, a, Synthesized(tile, a.w, height, level, depth)) == fb
  {
    hide Rows, Blit, CursorAt, CalcSize;
    assert Synthesized(tile, a.w, height, level, depth) == tile;
    BlitSame(fb, screen, a, height, tile);
  }

  /** The first half: take in all the tile's pixels and invert the transform. */
  method FillBuffer(fb: array<Pixel>, a: Area, height: nat, level: nat, pBuf: array<Cell>, w: nat, h: nat,
                    start: nat, ghost tile: seq<Pixel>, depth: Depth)
    requires a.w > 0 && level > 0 && a.w <= a.stride && Holds(fb[..], a, tile)
    requires |tile| == Rows(a.w, height) <= pBuf.Length
    requires w == CalcSize(a.w, level) > 0 && h == CalcSize(height, level) > 0 && start == Offset(a, 0, 0)
    modifies pBuf
    ensures Synthesizes(pBuf[..], tile, a.w, height, level, depth)
  {
    hide Rows, CalcSize, Order, Decoded, Scatter, Aligned, Holds, Inverse, RawWord, Whole, Below;
    ghost var scratch := pBuf[..];
    DecodedFits(a.w, height, level);
    OrderBelow(w, h, level);
    BelowMore(Order(w, h, level), Rows(w, h), pBuf.Length);
    ghost var u := Unpacking(a, tile, scratch, depth);
    ScatterNone(scratch, tile, depth);
    var data, pData := UnpackAll(pBuf, fb, w, h, level, start, a.w, a.stride, u, depth);
    var first := RowOffset(w, h);
    var count := RowOffset(a.w, height);
    SaveUnaligned(pBuf, fb, first, count, data, pData, a.w, a.stride, a, tile, depth);
    ghost var filled := pBuf[..];
    RowsIsProduct(w, h);
    BufferDecodes(scratch, filled, tile, w, h, level, depth);
    InvWavelet(pBuf, w, h, level);
    forall k | Rows(w, h) <= k < |tile|
      ensures RawWord(pBuf[k], depth) == Whole(tile[k], depth)
    {
      assert pBuf[..][Rows(w, h)..][k - Rows(w, h)] == filled[Rows(w, h)..][k - Rows(w, h)];
    }
  }

  lemma {:induction false} BelowMore(ps: seq<nat>, n: nat, m: nat)
    requires Below(ps, n) && n <= m
    ensures Below(ps, m)
  {
  }

  lemma {:induction false} ScatterNone(buf: seq<Cell>, tile: seq<Pixel>, depth: Depth)
    ensures Scatter(buf, [], tile, depth) == buf
  {
  }

  /** The second half: draw the aligned part and then the fringe. */
  method DrawTile(fb: array<Pixel>, a: Area, height: nat, level: nat, pBuf: array<Cell>, w: nat, h: nat,
                  start: nat, ghost screen: nat, ghost tile: seq<Pixel>, depth: Depth)
    requires a.w > 0 && height > 0 && level > 0
    requires a.x + a.w <= a.stride && a.y + height <= screen && fb.Length == Rows(a.stride, screen)
    requires Holds(fb[..], a, tile) && |tile| == Rows(a.w, height) <= pBuf.Length
    requires w == CalcSize(a.w, level) > 0 && h == CalcSize(height, level) > 0 && start == Offset(a, 0, 0)
    modifies fb
    ensures fb[..] == AssembledFrom(old(fb[..]), a, height, level, tile, pBuf[..], depth)
  {
    hide Rows, Blit, CursorAt, CalcSize, Holds, TailImage, AlignedImage;
    ghost var before := fb[..];
    var uw, uh := a.w - w, height - h;
    FringeSizes(a.w, height, w, h);
    RowsMonotonic(a.w, h, height);
    YuvRgb(pBuf, fb, start, w, h, a.stride, screen, a, tile, depth);
    var pTop := RowOffset(w, h);
    var below := RowOffset(a.stride, h);
    RowsAdd(a.stride, a.y, h);
    ghost var none := Area(a.stride, a.x + w, a.y, 0);
    if uw > 0 {
      pTop := LoadUnaligned(pBuf, fb, pTop, start + w, h, screen, Area(a.stride, a.x + w, a.y, uw), depth);
    } else {
      NoPixels(fb[..], Area(a.stride, a.x + w, a.y, uw), TailImage(pBuf[..], Rows(w, h), Rows(uw, h), depth));
      NoRows(0, h);
    }
    if uh > 0 {
      pTop := LoadUnaligned(pBuf, fb, pTop, start + below, uh, screen, Area(a.stride, a.x, a.y + h, w), depth);
    } else {
      NoRows(w, 0);
      BlitNone(fb[..], Area(a.stride, a.x, a.y + h, w));
    }
    if uw > 0 && uh > 0 {
      pTop := LoadUnaligned(pBuf, fb, pTop, start + w + below, uh, screen, Area(a.stride, a.x + w, a.y + h, uw), depth);
    } else {
      NoRows(uw, uh);
      BlitNone(fb[..], Area(a.stride, a.x + w, a.y + h, uw));
    }
  }

  lemma {:induction false} NoPixels(fb: seq<Pixel>, a: Area, img: seq<Pixel>)
    requires a.w == 0
    ensures Blit(fb, a, img) == fb
  {
  }

  lemma {:induction false} NoRows(w: nat, h: nat)
    requires w == 0 || h == 0
    ensures Rows(w, h) == 0
  {
    RowsIsProduct(w, h);
  }

  /** The four bytes of a word. */
  lemma {:induction false} LowBytes(p: Pixel)
    ensures Low(p, 3) == p % 256 + 256 * (p / 0x100 % 256) + 0x1_0000 * (p / 0x1_0000 % 256)
    ensures Low(p, 4) == Low(p, 3) + 0x100_0000 * (p / 0x100_0000 % 256)
  {
    assert Low(p, 4) == p % 256 + 256 * Low(p / 256, 3);
    assert Low(p / 256, 3) == p / 256 % 256 + 256 * Low(p / 256 / 256, 2);
    assert Low(p / 256, 2) == p / 256 % 256 + 256 * Low(p / 256 / 256, 1);
    assert Low(p / 256 / 256, 2) == p / 256 / 256 % 256 + 256 * Low(p / 256 / 256 / 256, 1);
    assert p / 256 / 256 == p / 0x1_0000 && p / 256 / 256 / 256 == p / 0x100_0000;
    assert Low(p / 256 / 256, 1) == p / 0x1_0000 % 256 && Low(p / 256 / 256 / 256, 1) == p / 0x100_0000 % 256;
  }

  lemma {:induction false} ByteDigits(a: nat, b: nat, c: nat, d: nat, a': nat, b': nat, c': nat, d': nat)
    requires a < 256 && b < 256 && c < 256 && a' < 256 && b' < 256 && c' < 256
    requires a + 0x100 * b + 0x1_0000 * c + 0x100_0000 * d == a' + 0x100 * b' + 0x1_0000 * c' + 0x100_0000 * d'
    ensures a == a' && b == b' && c == c' && d == d'
  {
  }

  lemma {:induction false} SameLow(p: Pixel, q: Pixel, n: nat)
    requires (n == 3 || n == 4) && Low(p, n) == Low(q, n)
    ensures LoadPixel(p) == LoadPixel(q)
    ensures n == 4 ==> p / 0x100_0000 % 256 == q / 0x100_0000 % 256
    ensures Low(p % 0x1_0000_0000, n) == Low(q % 0x1_0000_0000, n)
  {
    hide Low;
    LowBytes(p);
    LowBytes(q);
    ByteDigits(p % 256, p / 0x100 % 256, p / 0x1_0000 % 256, if n == 4 then p / 0x100_0000 % 256 else 0,
               q % 256, q / 0x100 % 256, q / 0x1_0000 % 256, if n == 4 then q / 0x100_0000 % 256 else 0);
    WordLow(p, n);
    WordLow(q, n);
  }

  lemma {:induction false} WordLow(p: Pixel, n: nat)
    requires n == 3 || n == 4
    ensures Low(p % 0x1_0000_0000, n) == Low(p, n)
  {
    hide Low;
    LowBytes(p);
    LowBytes(p % 0x1_0000_0000);
    WordBytes(p);
  }

  lemma {:induction false} WordBytes(p: Pixel)
    ensures var w := p % 0x1_0000_0000;
            && w % 256 == p % 256 && w / 0x100 % 256 == p / 0x100 % 256
            && w / 0x1_0000 % 256 == p / 0x1_0000 % 256 && w / 0x100_0000 % 256 == p / 0x100_0000 % 256
  {
    var w, q := p % 0x1_0000_0000, p / 0x1_0000_0000;
    assert p == w + 0x1_0000_0000 * q;
    assert p / 0x100 == w / 0x100 + 0x100_0000 * q;
    assert p / 0x1_0000 == w / 0x1_0000 + 0x1_0000 * q;
    assert p / 0x100_0000 == w / 0x100_0000 + 0x100 * q;
    DropMultiple(w, 0x100_0000 * q, p);
    DropMultiple(w / 0x100, 0x1_0000 * q, p / 0x100);
    DropMultiple(w / 0x1_0000, 0x100 * q, p / 0x1_0000);
    DropMultiple(w / 0x100_0000, q, p / 0x100_0000);
  }

  lemma {:induction false} DropMultiple(a: nat, k: nat, b: nat)
    requires b == a + 256 * k
    ensures a % 256 == b % 256
  {
  }

  lemma {:induction false} SaveLow(p: Pixel, q: Pixel, c: Rgb, n: nat)
    requires (n == 3 || n == 4) && Low(p, n) == Low(q, n)
    ensures Low(SavePixel(p, c), n) == Low(SavePixel(q, c), n)
  {
    hide Low, SavePixel;
    SameLow(p, q, n);
    SaveThenLoad(p, c);
    SaveThenLoad(q, c);
    LowBytes(SavePixel(p, c));
    LowBytes(SavePixel(q, c));
  }

  lemma {:induction false} LowShort(p: Pixel)
    ensures Low(p, 2) == p % 0x1_0000
  {
    assert Low(p, 2) == p % 256 + 256 * Low(p / 256, 1);
    assert Low(p / 256, 1) == p / 256 % 256;
    assert p == p / 256 / 256 * 0x1_0000 + (p % 256 + 256 * (p / 256 % 256));
  }

  lemma {:induction false} LoadShort(p: Pixel)
    ensures Load16(p) == Load16(p % 0x1_0000)
  {
    var w, q := p % 0x1_0000, p / 0x1_0000;
    RedShort(w, q, p);
    GreenShort(w, q, p);
    BlueShort(w, q, p);
  }

  lemma {:induction false} RedShort(w: nat, q: nat, p: nat)
    requires p == w + 0x1_0000 * q
    ensures p / 0x800 % 32 == w / 0x800 % 32
  {
    assert p / 0x800 == w / 0x800 + 32 * q;
  }

  lemma {:induction false} GreenShort(w: nat, q: nat, p: nat)
    requires p == w + 0x1_0000 * q
    ensures p / 0x20 % 64 == w / 0x20 % 64
  {
    assert p / 0x20 == w / 0x20 + 64 * (32 * q);
  }

  lemma {:induction false} BlueShort(w: nat, q: nat, p: nat)
    requires p == w + 0x1_0000 * q
    ensures p % 32 == w % 32
  {
  }

  lemma {:induction false} SaveShort(p: Pixel, c: Rgb)
    requires IsColour(c)
    ensures Save16(p, c) % 0x1_0000 == c.r / 8 * 0x800 + c.g / 4 * 0x20 + c.b / 8
  {
  }

  /** What the codec takes from a pixel, and what it leaves of it, is in the n bytes that travel. */
  lemma {:induction false} SameWord(p: Pixel, q: Pixel, n: nat)
    requires (n == 2 || n == 3 || n == 4) && Low(p, n) == Low(q, n)
    ensures LoadWord(p, DepthOf(n)) == LoadWord(q, DepthOf(n))
    ensures Low(Whole(p, DepthOf(n)), n) == Low(Whole(q, DepthOf(n)), n)
  {
    hide Low, LoadPixel, Load16;
    if n == 2 {
      LowShort(p);
      LowShort(q);
      LoadShort(p);
      LoadShort(q);
    } else {
      SameLow(p, q, n);
    }
  }

  lemma {:induction false} SaveWordLow(p: Pixel, q: Pixel, c: Rgb, n: nat)
    requires (n == 2 || n == 3 || n == 4) && Low(p, n) == Low(q, n) && IsColour(c)
    ensures Low(SaveWord(p, c, DepthOf(n)), n) == Low(SaveWord(q, c, DepthOf(n)), n)
  {
    hide Low, SavePixel, Save16;
    if n == 2 {
      SaveShort(p, c);
      SaveShort(q, c);
      LowShort(Save16(p, c));
      LowShort(Save16(q, c));
    } else {
      SaveLow(p, q, c, n);
    }
  }

  /** Tiles that agree on the bytes a pixel really has are synthesized alike. */
  lemma {:induction false} SynthesizedMatches(tile: seq<Pixel>, image: seq<Pixel>, width: nat, height: nat, level: nat,
                                              n: nat)
    requires width > 0 && level > 0 && |tile| == Rows(width, height) && (n == 2 || n == 3 || n == 4)
    requires Matches(n, tile, image)
    ensures Matches(n, Synthesized(tile, width, height, level, DepthOf(n)),
                    Synthesized(image, width, height, level, DepthOf(n)))
  {
    hide Low, SaveWord, Whole, Rows, CursorAt, Order, CalcSize, Decoded, Inverse;
    var w, h, depth := CalcSize(width, level), CalcSize(height, level), DepthOf(n);
    DecodedFits(width, height, level);
    ScatterMatches(Blank(Rows(w, h)), Order(w, h, level), tile, image, n);
    assert Decoded(tile, w, h, level, depth) == Decoded(image, w, h, level, depth) by
    {
      DecodedByScatter(tile, image, w, h, level, depth);
    }
    forall k | 0 <= k < |tile|
      ensures Low(Synthesized(tile, width, height, level, depth)[k], n) ==
              Low(Synthesized(image, width, height, level, depth)[k], n)
    {
      var c := CursorAt(width, k);
      CursorInside(width, height, k);
      if w == 0 || h == 0 {
      } else if c.i < w && c.j < h {
        InsideRows(w, h, c.i, c.j);
        SaveWordLow(tile[k], image[k], ToRgb(Decoded(tile, w, h, level, depth)[Rows(w, c.j) + c.i]), n);
      } else {
        FringeInside(width, height, w, h, c.i, c.j);
        var source := FringeSource(width, height, w, h, c.i, c.j);
        SameWord(tile[source], image[source], n);
      }
    }
  }

  lemma {:induction false} DecodedByScatter(tile: seq<Pixel>, image: seq<Pixel>, w: nat, h: nat, level: nat,
                                            depth: Depth)
    requires level > 0 && |Order(w, h, level)| <= |tile| == |image|
    requires Scatter(Blank(Rows(w, h)), Order(w, h, level), tile, depth) ==
             Scatter(Blank(Rows(w, h)), Order(w, h, level), image, depth)
    ensures Decoded(tile, w, h, level, depth) == Decoded(image, w, h, level, depth)
  {
  }

  lemma {:induction false} ScatterMatches(buf: seq<Cell>, order: seq<nat>, tile: seq<Pixel>, image: seq<Pixel>, n: nat)
    requires (n == 2 || n == 3 || n == 4) && Matches(n, tile, image) && |order| <= |tile|
    ensures Scatter(buf, order, tile, DepthOf(n)) == Scatter(buf, order, image, DepthOf(n))
  {
    hide Low, LoadWord, SaveCoeff, DepthOf;
    if order != [] {
      var k := |order| - 1;
      ScatterMatches(buf, order[..k], tile, image, n);
      SameWord(tile[k], image[k], n);
    }
  }

  /** The tile just drawn is the tile read back. */
  lemma {:induction false} GrabDrawn(fb: seq<Pixel>, screen: nat, a: Area, h: nat, drawn: seq<Pixel>)
    requires a.w > 0 && a.x + a.w <= a.stride && a.y + h <= screen && |fb| == Rows(a.stride, screen)
    requires |drawn| == Rows(a.w, h)
    ensures Grab(Blit(fb, a, drawn), a, Rows(a.w, h)) == drawn
  {
    hide Rows, Blit, CursorAt;
    var now := Blit(fb, a, drawn);
    var tile := Grab(now, a, Rows(a.w, h));
    forall k | 0 <= k < |drawn|
      ensures tile[k] == drawn[k]
    {
      PixelInside(a, h, screen, k);
      CursorOffset(a.w, k);
      CursorInside(a.w, h, k);
      var c := CursorAt(a.w, k);
      BlitWhole(fb, a, h, drawn, a.x + c.i, a.y + c.j);
    }
  }
}
