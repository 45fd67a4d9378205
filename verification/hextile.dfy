/** Hextile rectangles: HandleHextileBPP (src/encodings/hextile.c), and the encoding of RFC 6143
    section 7.7.4. */
module Hextile {
  import opened Bytes
  import opened Area
  import opened Tiles
  import opened VncViewer
  import TileCode
  import TileDecode

  datatype Option<T> = None | Some(value: T)

  datatype Box = Box(x: nat, y: nat, w: nat, h: nat)

  datatype Subrect = Subrect(box: Box, colour: Pixel)

  datatype Subrects = Absent | Monochrome(boxes: seq<Box>) | Coloured(subs: seq<Subrect>)

  /** A tile as encoded. */
  datatype HexTile =
    | RawTile(pixels: seq<Pixel>)
    | Painted(bg: Option<Pixel>, fg: Option<Pixel>, subrects: Subrects)

  /** The background and foreground that a tile may leave unspecified. The background is 0 at first;
      the foreground is not initialised. */
  datatype Carried = Carried(bg: Pixel, fg: Option<Pixel>)

  function Ground(t: HexTile, c: Carried): Pixel {
    if t.Painted? && t.bg.Some? then t.bg.value else c.bg
  }

  function Foreground(t: HexTile, c: Carried): Option<Pixel> {
    if t.Painted? && t.fg.Some? then t.fg else c.fg
  }

  ghost predicate BoxFits(b: Box, w: nat, h: nat) {
    b.w > 0 && b.h > 0 && b.x + b.w <= w && b.y + b.h <= h
  }

  /** A valid w x h tile: it knows its foreground if it needs one; its subrectangles lie inside it. */
  ghost predicate ValidTile(t: HexTile, c: Carried, w: nat, h: nat) {
    match t
    case RawTile(pixels) => |pixels| == Rows(w, h)
    case Painted(bg, fg, subrects) =>
      match subrects
      case Absent => true
      case Monochrome(boxes) =>
        && |boxes| < 256 && (boxes != [] ==> Foreground(t, c).Some?)
        && forall k :: 0 <= k < |boxes| ==> BoxFits(boxes[k], w, h)
      case Coloured(subs) =>
        |subs| < 256 && forall k :: 0 <= k < |subs| ==> BoxFits(subs[k].box, w, h)
  }

  /** What the next tile may rely on: of coloured subrectangles the last one leaves its colour as
      the foreground. */
  function CarryOn(t: HexTile, c: Carried): Carried {
    if t.Painted? && t.subrects.Coloured? && t.subrects.subs != []
    then Carried(Ground(t, c), Some(t.subrects.subs[|t.subrects.subs| - 1].colour))
    else Carried(Ground(t, c), Foreground(t, c))
  }

  function Tinted(boxes: seq<Box>, colour: Pixel): (subs: seq<Subrect>)
    ensures |subs| == |boxes|
  {
    seq(|boxes|, k requires 0 <= k < |boxes| => Subrect(boxes[k], colour))
  }

  /** The subrectangles with their colours, in painting order. */
  function SubsOf(t: HexTile, c: Carried): seq<Subrect>
    requires t.Painted?
  {
    match t.subrects
    case Absent => []
    case Monochrome(boxes) => Tinted(boxes, if Foreground(t, c).Some? then Foreground(t, c).value else 0)
    case Coloured(subs) => subs
  }

  predicate InBox(b: Box, i: nat, j: nat) {
    b.x <= i < b.x + b.w && b.y <= j < b.y + b.h
  }

  /** The colour at (i, j) after painting the subrectangles in order over the background: that
      of the last one that covers the place. */
  function ColourAt(bg: Pixel, subs: seq<Subrect>, i: nat, j: nat): Pixel {
    if subs == [] then bg
    else if InBox(subs[|subs| - 1].box, i, j) then subs[|subs| - 1].colour
    else ColourAt(bg, subs[..|subs| - 1], i, j)
  }

  function Painting(bg: Pixel, subs: seq<Subrect>, w: nat, h: nat): (img: seq<Pixel>)
    requires w > 0
    ensures |img| == Rows(w, h)
  {
    seq(Rows(w, h), k requires 0 <= k < Rows(w, h) => ColourAt(bg, subs, CursorAt(w, k).i, CursorAt(w, k).j))
  }

  function HexImage(t: HexTile, c: Carried, w: nat, h: nat): seq<Pixel>
    requires w > 0
  {
    match t
    case RawTile(pixels) => pixels
    case Painted(_, _, _) => Painting(Ground(t, c), SubsOf(t, c), w, h)
  }

  lemma {:induction false} PaintingAt(bg: Pixel, subs: seq<Subrect>, w: nat, h: nat, i: nat, j: nat)
    requires i < w && j < h
    ensures Rows(w, j) + i < Rows(w, h)
    ensures Painting(bg, subs, w, h)[Rows(w, j) + i] == ColourAt(bg, subs, i, j)
  {
    hide Rows, CursorAt, ColourAt;
    InsideRows(w, h, i, j);
    CursorIs(w, Rows(w, j) + i, i, j);
  }

  /** Filling one more subrectangle paints it. */
  lemma {:induction false} PaintStep(fb: seq<Pixel>, height: nat, a: Area, h: nat, bg: Pixel, subs: seq<Subrect>,
                                     s: Subrect)
    requires a.w > 0 && a.x + a.w <= a.stride && a.y + h <= height && |fb| == Rows(a.stride, height)
    requires BoxFits(s.box, a.w, h)
    ensures Blit(Blit(fb, a, Painting(bg, subs, a.w, h)),
                 Area(a.stride, a.x + s.box.x, a.y + s.box.y, s.box.w), Filled(s.colour, Rows(s.box.w, s.box.h))) ==
            Blit(fb, a, Painting(bg, subs + [s], a.w, h))
  {
    hide Rows, Blit, Painting, ColourAt;
    var sub, fill := Area(a.stride, a.x + s.box.x, a.y + s.box.y, s.box.w), Filled(s.colour, Rows(s.box.w, s.box.h));
    var one := Blit(fb, a, Painting(bg, subs, a.w, h));
    var left, right := Blit(one, sub, fill), Blit(fb, a, Painting(bg, subs + [s], a.w, h));
    forall x: nat, y: nat | x < a.stride && y < height
      ensures SameAt(left, right, a.stride, x, y)
    {
      PaintStepAt(fb, height, a, h, bg, subs, s, x, y);
    }
    SameEverywhere(left, right, a.stride, height);
  }

  lemma {:induction false} PaintStepAt(fb: seq<Pixel>, height: nat, a: Area, h: nat, bg: Pixel, subs: seq<Subrect>,
                                       s: Subrect, x: nat, y: nat)
    requires a.w > 0 && a.x + a.w <= a.stride && a.y + h <= height && |fb| == Rows(a.stride, height)
    requires BoxFits(s.box, a.w, h) && x < a.stride && y < height
    ensures SameAt(Blit(Blit(fb, a, Painting(bg, subs, a.w, h)),
                        Area(a.stride, a.x + s.box.x, a.y + s.box.y, s.box.w),
                        Filled(s.colour, Rows(s.box.w, s.box.h))),
                   Blit(fb, a, Painting(bg, subs + [s], a.w, h)), a.stride, x, y)
  {
    hide Rows, Blit, Painting, ColourAt;
    var sub, fill := Area(a.stride, a.x + s.box.x, a.y + s.box.y, s.box.w), Filled(s.colour, Rows(s.box.w, s.box.h));
    var one := Blit(fb, a, Painting(bg, subs, a.w, h));
    InsideRows(a.stride, height, x, y);
    BlitAt(fb, a, Painting(bg, subs, a.w, h), x, y);
    BlitAt(fb, a, Painting(bg, subs + [s], a.w, h), x, y);
    BlitAt(one, sub, fill, x, y);
    CoversWhole(a, h, x, y);
    CoversWhole(sub, s.box.h, x, y);
    if a.x <= x < a.x + a.w && a.y <= y < a.y + h {
      PaintingAt(bg, subs, a.w, h, x - a.x, y - a.y);
      PaintingAt(bg, subs + [s], a.w, h, x - a.x, y - a.y);
      LastColour(bg, subs, s, x - a.x, y - a.y);
    }
  }

  lemma {:induction false} LastColour(bg: Pixel, subs: seq<Subrect>, s: Subrect, i: nat, j: nat)
    ensures ColourAt(bg, subs + [s], i, j) == if InBox(s.box, i, j) then s.colour else ColourAt(bg, subs, i, j)
  {
    assert (subs + [s])[..|subs|] == subs;
  }

  /** rfbHextilePackXY and rfbHextilePackWH */
  function BoxBytes(b: Box): (bs: seq<byte>)
    requires BoxFits(b, 16, 16)
    ensures |bs| == 2
  {
    [b.x * 16 + b.y, (b.w - 1) * 16 + (b.h - 1)]
  }

  ghost predicate BoxesFit(subs: seq<Subrect>, w: nat, h: nat) {
    w <= 16 && h <= 16 && forall k :: 0 <= k < |subs| ==> BoxFits(subs[k].box, w, h)
  }

  /** A subrectangle, preceded by its colour if they are coloured. */
  function Entry(s: Subrect, coloured: bool, n: nat): (bs: seq<byte>)
    requires BoxFits(s.box, 16, 16)
    ensures |bs| == EntrySize(coloured, n)
  {
    (if coloured then ToBytes(s.colour, n) else []) + BoxBytes(s.box)
  }

  function EntrySize(coloured: bool, n: nat): nat {
    if coloured then n + 2 else 2
  }

  function SubrectBytes(subs: seq<Subrect>, coloured: bool, n: nat, w: nat, h: nat): (bs: seq<byte>)
    requires BoxesFit(subs, w, h)
    ensures |bs| == Rows(EntrySize(coloured, n), |subs|)
  {
    if subs == [] then []
    else SubrectBytes(subs[..|subs| - 1], coloured, n, w, h) + Entry(subs[|subs| - 1], coloured, n)
  }

  function Flags(t: HexTile): byte {
    match t
    case RawTile(_) => 1
    case Painted(bg, fg, subrects) =>
      (if bg.Some? then 2 else 0) + (if fg.Some? then 4 else 0) +
      (if subrects.Absent? then 0 else 8) + (if subrects.Coloured? then 16 else 0)
  }

  function OptionalPixel(p: Option<Pixel>, n: nat): seq<byte> {
    if p.Some? then ToBytes(p.value, n) else []
  }

  function SubrectPart(t: HexTile, c: Carried, n: nat, w: nat, h: nat): seq<byte>
    requires t.Painted? && ValidTile(t, c, w, h) && w <= 16 && h <= 16
  {
    var subs := SubsOf(t, c);
    if t.subrects.Absent? then [] else [|subs|] + SubrectBytes(subs, t.subrects.Coloured?, n, w, h)
  }

  function HexBytes(t: HexTile, c: Carried, n: nat, w: nat, h: nat): seq<byte>
    requires ValidTile(t, c, w, h) && w <= 16 && h <= 16
  {
    match t
    case RawTile(pixels) => [Flags(t)] + TileCode.PixelBytes(pixels, n)
    case Painted(_, _, _) => [Flags(t)] + PaintedPart(t, c, n, w, h)
  }

  function PaintedPart(t: HexTile, c: Carried, n: nat, w: nat, h: nat): seq<byte>
    requires t.Painted? && ValidTile(t, c, w, h) && w <= 16 && h <= 16
  {
    OptionalPixel(t.bg, n) + (OptionalPixel(t.fg, n) + SubrectPart(t, c, n, w, h))
  }

  lemma {:induction false} SubrectsSplit(subs: seq<Subrect>, coloured: bool, n: nat, w: nat, h: nat)
    requires BoxesFit(subs, w, h) && subs != []
    ensures var init, last := subs[..|subs| - 1], subs[|subs| - 1];
            && BoxesFit(init, w, h) && BoxFits(last.box, 16, 16)
            && SubrectBytes(subs, coloured, n, w, h) == SubrectBytes(init, coloured, n, w, h) + Entry(last, coloured, n)
  {
    hide Entry, Rows;
  }

  /** The k-th stored subrectangle. */
  lemma {:induction false} SubrectAt(subs: seq<Subrect>, coloured: bool, n: nat, w: nat, h: nat, k: nat)
    requires BoxesFit(subs, w, h) && k < |subs|
    ensures var size, bs := EntrySize(coloured, n), SubrectBytes(subs, coloured, n, w, h);
            Rows(size, k) + size <= |bs| && bs[Rows(size, k)..Rows(size, k) + size] == Entry(subs[k], coloured, n)
  {
    hide Rows, SubrectBytes, Entry, BoxFits, EntrySize;
    var size, last := EntrySize(coloured, n), |subs| - 1;
    RowsMonotonic(size, k, |subs|);
    SubrectsSplit(subs, coloured, n, w, h);
    var before := SubrectBytes(subs[..last], coloured, n, w, h);
    if k < last {
      SubrectAt(subs[..last], coloured, n, w, h, k);
      RowsMonotonic(size, k, last);
      assert (before + Entry(subs[last], coloured, n))[Rows(size, k)..Rows(size, k) + size] ==
             before[Rows(size, k)..Rows(size, k) + size];
    } else {
      RowsNext(size, last);
    }
  }

  /** rfbHextileExtractX, Y, W and H undo the packing. */
  lemma {:induction false} BoxRoundTrip(b: Box)
    requires BoxFits(b, 16, 16)
    ensures var bs := BoxBytes(b); Box(bs[0] / 16, bs[0] % 16, bs[1] / 16 + 1, bs[1] % 16 + 1) == b
  {
  }

  /** One subrectangle of the loop: `bs` is its slice of the buffer. */
  function BoxOf(bs: seq<byte>): Box
    requires |bs| == 2
  {
    Box(bs[0] / 16, bs[0] % 16, bs[1] / 16 + 1, bs[1] % 16 + 1)
  }

  /** Colours reduced to the bytes a pixel has. */
  function LowSubs(subs: seq<Subrect>, n: nat): (r: seq<Subrect>)
    ensures |r| == |subs|
  {
    seq(|subs|, k requires 0 <= k < |subs| => Subrect(subs[k].box, Low(subs[k].colour, n)))
  }

  /** How far a tile's subrectangles may reach from its corner: positions are at most 15, sizes 16. */
  const REACH: nat := 31

  /** A screen as it was, and a rectangle of it outside which nothing has changed. */
  datatype Extent = Extent(first: seq<Pixel>, r: Rect) {
    /** Whatever the tile at (x, y) draws is inside. */
    predicate Reaches(x: nat, y: nat) {
      && r.x <= x && Min(x + REACH, r.stride) <= r.x + r.w
      && r.y <= y && Min(y + REACH, r.height) <= r.y + r.h
    }

    ghost predicate Holds(width: nat, height: nat, x: nat, y: nat, now: seq<Pixel>) {
      r.stride == width && r.height == height && Reaches(x, y) && OutsideKept(r, first, now)
    }
  }

  lemma {:induction false} DrawKeeps(e: Extent, width: nat, height: nat, x: nat, y: nat, now: seq<Pixel>, a: Area,
                                     h: nat, img: seq<Pixel>)
    requires e.Holds(width, height, x, y, now) && a.stride == width && |img| <= Rows(a.w, h)
    requires x <= a.x && a.x + a.w <= Min(x + REACH, width) && y <= a.y && a.y + h <= Min(y + REACH, height)
    ensures e.Holds(width, height, x, y, Blit(now, a, img))
  {
    hide Rows, Blit;
    var after := Blit(now, a, img);
    forall px: nat, py: nat | px < width && py < height
      ensures OutsideKeptAt(e.r, e.first, after, px, py)
    {
      assert OutsideKeptAt(e.r, e.first, now, px, py);
      BlitAt(now, a, img, px, py);
      CoversWhole(a, h, px, py);
    }
  }

  lemma {:induction false} TileKeeps(e: Extent, width: nat, height: nat, x: nat, y: nat, now: seq<Pixel>, w: nat,
                                     h: nat, img: seq<Pixel>)
    requires e.Holds(width, height, x, y, now) && w <= 16 && h <= 16 && x + w <= width && y + h <= height
    requires |img| == Rows(w, h)
    ensures e.Holds(width, height, x, y, Blit(now, Area(width, x, y, w), img))
  {
    hide Rows, Blit, OutsideKept;
    DrawKeeps(e, width, height, x, y, now, Area(width, x, y, w), h, img);
  }

  lemma {:induction false} BoxKeeps(e: Extent, width: nat, height: nat, x: nat, y: nat, now: seq<Pixel>, box: Box,
                                    c: Pixel)
    requires e.Holds(width, height, x, y, now) && box.x < 16 && box.y < 16 && box.w <= 16 && box.h <= 16
    ensures x + box.x + box.w <= width && y + box.y + box.h <= height ==>
              e.Holds(width, height, x, y, Blit(now, Area(width, x + box.x, y + box.y, box.w),
                                                Filled(c, Rows(box.w, box.h))))
  {
    hide Rows, Blit, OutsideKept;
    if x + box.x + box.w <= width && y + box.y + box.h <= height {
      DrawKeeps(e, width, height, x, y, now, Area(width, x + box.x, y + box.y, box.w), box.h,
                Filled(c, Rows(box.w, box.h)));
    }
  }

  /** The subrectangle loops: nSubrects rectangles, from `buffer`, in the carried foreground or
      each in its own colour, which then becomes the foreground. */
  method DrawSubrects(client: RfbClient, buffer: seq<byte>, count: nat, coloured: bool, x: nat, y: nat, w: nat, h: nat,
                      n: nat, fg0: Pixel, ghost before: seq<Pixel>, ghost bg: Pixel, ghost subs: seq<Subrect>,
                      ghost e: Extent, ghost wellFormed: bool)
    returns (fg: Pixel)
    requires client.Valid() && client.frameBuffer != null && client.bitsPerPixel == 8 * n &&
             (n == 1 || n == 2 || n == 4)
    requires |buffer| == Rows(EntrySize(coloured, n), count)
    requires w > 0 && client.CheckRect(x, y, w, h)
    requires wellFormed ==>
               && |subs| == count && BoxesFit(subs, w, h) && buffer == SubrectBytes(subs, coloured, n, w, h)
               && (!coloured ==> forall k :: 0 <= k < |subs| ==> Low(subs[k].colour, n) == Low(fg0, n))
               && |before| == Rows(client.width, client.height)
               && client.Screen() == Blit(before, Area(client.width, x, y, w), Painting(Low(bg, n), [], w, h))
    requires e.Holds(client.width, client.height, x, y, client.Screen())
    modifies client.frameBuffer
    ensures e.Holds(client.width, client.height, x, y, client.Screen())
    ensures !coloured || count == 0 ==> fg == fg0
    ensures wellFormed && coloured && count > 0 ==> fg == Low(subs[count - 1].colour, n)
    ensures wellFormed ==>
              client.Screen() == Blit(before, Area(client.width, x, y, w), Painting(Low(bg, n), LowSubs(subs, n), w, h))
  {
    hide Rows, Blit, Painting, SubrectBytes, Low, ToBytes, Filled, FromBytes, Entry, EntrySize, BoxFits, LowSubs,
         Extent.Holds;
    fg := fg0;
    var ptr, i: nat := 0, 0;
    var size := EntrySize(coloured, n);
    RowsZero(size);
    if wellFormed {
      NoneLow(subs, n);
    }
    while i < count
      invariant client.Valid() && i <= count && ptr == Rows(size, i)
      invariant e.Holds(client.width, client.height, x, y, client.Screen())
      invariant !coloured || i == 0 ==> fg == fg0
      invariant wellFormed && coloured && i > 0 ==> fg == Low(subs[i - 1].colour, n)
      invariant wellFormed ==>
                  client.Screen() == Blit(before, Area(client.width, x, y, w),
                                          Painting(Low(bg, n), LowSubs(subs[..i], n), w, h))
    {
      RowsNext(size, i);
      RowsMonotonic(size, i + 1, count);
      if wellFormed {
        SubrectAt(subs, coloured, n, w, h, i);
      }
      fg := DrawSubrect(client, buffer[ptr..ptr + size], coloured, x, y, w, h, n, fg, before, bg, subs, i, e,
                        wellFormed);
      ptr := ptr + size;
      i := i + 1;
    }
    if wellFormed {
      assert subs[..i] == subs;
    }
  }

  lemma {:induction false} NoneLow(subs: seq<Subrect>, n: nat)
    ensures LowSubs(subs[..0], n) == []
  {
  }

  /** Subrectangle i, from its bytes. */
  method DrawSubrect(client: RfbClient, bytes: seq<byte>, coloured: bool, x: nat, y: nat, w: nat, h: nat, n: nat,
                     fg0: Pixel, ghost before: seq<Pixel>, ghost bg: Pixel, ghost subs: seq<Subrect>, ghost i: nat,
                     ghost e: Extent, ghost wellFormed: bool)
    returns (fg: Pixel)
    requires client.Valid() && client.frameBuffer != null && client.bitsPerPixel == 8 * n &&
             (n == 1 || n == 2 || n == 4)
    requires |bytes| == EntrySize(coloured, n) && w > 0 && client.CheckRect(x, y, w, h)
    requires wellFormed ==>
               && i < |subs| && BoxesFit(subs, w, h) && bytes == Entry(subs[i], coloured, n)
               && (!coloured ==> Low(subs[i].colour, n) == Low(fg0, n))
               && |before| == Rows(client.width, client.height)
               && client.Screen() == Blit(before, Area(client.width, x, y, w),
                                          Painting(Low(bg, n), LowSubs(subs[..i], n), w, h))
    requires e.Holds(client.width, client.height, x, y, client.Screen())
    modifies client.frameBuffer
    ensures e.Holds(client.width, client.height, x, y, client.Screen())
    ensures !coloured ==> fg == fg0
    ensures wellFormed && coloured ==> fg == Low(subs[i].colour, n)
    ensures wellFormed ==>
              client.Screen() == Blit(before, Area(client.width, x, y, w),
                                      Painting(Low(bg, n), LowSubs(subs[..i + 1], n), w, h))
  {
    hide Rows, Blit, Painting, Low, ToBytes, Filled, FromBytes, Entry, LowSubs, Extent.Holds;
    fg := fg0;
    var ptr := 0;
    if coloured {
      fg := FromBytes(bytes[..n]);
      ptr := n;
    }
    var box := BoxOf(bytes[ptr..ptr + 2]);
    if wellFormed {
      EntryUndone(subs[i], coloured, n, fg);
      LowSubsNext(subs, n, i);
      PaintStep(before, client.height, Area(client.width, x, y, w), h, Low(bg, n), LowSubs(subs[..i], n),
                Subrect(subs[i].box, Low(subs[i].colour, n)));
    }
    BoxKeeps(e, client.width, client.height, x, y, client.Screen(), box, Low(fg, n));
    client.FillRectangle(x + box.x, y + box.y, box.w, box.h, fg);
  }

  /** What the loop reads of a subrectangle. */
  lemma {:induction false} EntryUndone(s: Subrect, coloured: bool, n: nat, fg: Pixel)
    requires BoxFits(s.box, 16, 16)
    requires if coloured then fg == FromBytes(Entry(s, coloured, n)[..n]) else Low(s.colour, n) == Low(fg, n)
    ensures var bs, ptr := Entry(s, coloured, n), if coloured then n else 0; BoxOf(bs[ptr..ptr + 2]) == s.box
    ensures coloured ==> fg == Low(s.colour, n)
    ensures Low(fg, n) == Low(s.colour, n)
  {
    hide Low, ToBytes, FromBytes;
    if coloured {
      Split(ToBytes(s.colour, n), BoxBytes(s.box));
      LoadIsLow(s.colour, n);
      LowOfLow(s.colour, n, n);
    }
    BoxRoundTrip(s.box);
  }

  lemma {:induction false} LowSubsNext(subs: seq<Subrect>, n: nat, i: nat)
    requires i < |subs|
    ensures LowSubs(subs[..i + 1], n) == LowSubs(subs[..i], n) + [Subrect(subs[i].box, Low(subs[i].colour, n))]
  {
    hide Low;
  }

  /** The decoder's variables hold what the tiles so far let a tile rely on. */
  ghost predicate Remembers(c: Carried, bg: Pixel, fg: Pixel, n: nat) {
    bg == Low(c.bg, n) && (c.fg.Some? ==> fg == Low(c.fg.value, n))
  }

  lemma {:induction false} BarePainting(bg: Pixel, w: nat, h: nat)
    requires w > 0
    ensures Painting(bg, [], w, h) == Filled(bg, Rows(w, h))
  {
    hide Rows, CursorAt;
  }

  lemma {:induction false} LowColour(bg: Pixel, subs: seq<Subrect>, n: nat, i: nat, j: nat)
    ensures Low(ColourAt(Low(bg, n), LowSubs(subs, n), i, j), n) == Low(ColourAt(bg, subs, i, j), n)
  {
    hide Low;
    if subs == [] {
      LowOfLow(bg, n, n);
    } else {
      var init := subs[..|subs| - 1];
      assert LowSubs(subs, n)[..|subs| - 1] == LowSubs(init, n);
      LowOfLow(subs[|subs| - 1].colour, n, n);
      LowColour(bg, init, n, i, j);
    }
  }

  lemma {:induction false} LowPainting(bg: Pixel, subs: seq<Subrect>, n: nat, w: nat, h: nat)
    requires w > 0
    ensures Matches(n, Painting(Low(bg, n), LowSubs(subs, n), w, h), Painting(bg, subs, w, h))
  {
    hide Low, ColourAt, LowSubs, CursorAt, Rows;
    forall k | 0 <= k < Rows(w, h)
      ensures Low(Painting(Low(bg, n), LowSubs(subs, n), w, h)[k], n) == Low(Painting(bg, subs, w, h)[k], n)
    {
      LowColour(bg, subs, n, CursorAt(w, k).i, CursorAt(w, k).j);
    }
  }

  /** An optional pixel of the stream: present exactly when its flag is set. */
  method ReadOptional(client: RfbClient, present: bool, before: Pixel, n: nat,
                      ghost p: Option<Pixel>, ghost rest: seq<byte>, ghost wellFormed: bool)
    returns (ok: bool, value: Pixel)
    requires wellFormed ==> client.input == OptionalPixel(p, n) + rest && present == p.Some?
    modifies client`input
    ensures wellFormed ==> ok && client.input == rest
    ensures wellFormed ==> value == if p.Some? then Low(p.value, n) else before
  {
    ok, value := true, before;
    if present {
      if wellFormed {
        Split(ToBytes(p.value, n), rest);
        LoadIsLow(p.value, n);
      }
      var out;
      ok, out := client.ReadFromRFBServer(n);
      if ok {
        value := FromBytes(out);
      }
    } else if wellFormed {
      Split([], rest);
    }
  }

  /** One tile. */
  method HandleTile(client: RfbClient, x: nat, y: nat, w: nat, h: nat, n: nat, bg0: Pixel, fg0: Pixel,
                    ghost t: HexTile, ghost c: Carried, ghost rest: seq<byte>, ghost e: Extent, ghost wellFormed: bool)
    returns (ok: bool, bg: Pixel, fg: Pixel, ghost drawn: seq<Pixel>)
    requires client.Valid() && client.frameBuffer != null && client.bitsPerPixel == 8 * n &&
             (n == 1 || n == 2 || n == 4)
    requires 0 < w <= 16 && 0 < h <= 16 && client.CheckRect(x, y, w, h)
    requires wellFormed ==>
               && ValidTile(t, c, w, h) && client.input == HexBytes(t, c, n, w, h) + rest && Remembers(c, bg0, fg0, n)
    requires e.Holds(client.width, client.height, x, y, client.Screen())
    modifies client`input, client.frameBuffer
    ensures e.Holds(client.width, client.height, x, y, client.Screen())
    ensures wellFormed ==>
              && ok && client.input == rest && Remembers(CarryOn(t, c), bg, fg, n)
              && client.Screen() == Blit(old(client.Screen()), Area(client.width, x, y, w), drawn)
              && Matches(n, drawn, HexImage(t, c, w, h))
  {
    hide Rows, Blit, Painting, TileCode.PixelBytes, Low, HexBytes, ValidTile, PaintedPart, Extent.Holds;
    bg, fg, drawn := bg0, fg0, [];
    if wellFormed {
      FlagBits(t, c, n, w, h, rest);
    }
    var out;
    ok, out := client.ReadFromRFBServer(1);
    if !ok {
      return;
    }
    if out[0] % 2 == 1 {
      ok, drawn := HandleRawTile(client, x, y, w, h, n, if wellFormed then t.pixels else [], rest, e, wellFormed);
      if wellFormed {
        RawIsValid(t.pixels, c, n, w, h);
      }
    } else {
      ok, bg, fg, drawn := HandlePaintedTile(client, out[0], x, y, w, h, n, bg, fg, t, c, rest, e, wellFormed);
    }
  }

  lemma {:induction false} InBounds(client: RfbClient, x: nat, y: nat, w: nat, h: nat)
    requires client.CheckRect(x, y, w, h)
    ensures x + w <= client.width && y + h <= client.height
  {
  }

  method HandlePaintedTile(client: RfbClient, subencoding: byte, x: nat, y: nat, w: nat, h: nat, n: nat, bg0: Pixel,
                           fg0: Pixel, ghost t: HexTile, ghost c: Carried, ghost rest: seq<byte>,
                           ghost e: Extent, ghost wellFormed: bool)
    returns (ok: bool, bg: Pixel, fg: Pixel, ghost drawn: seq<Pixel>)
    requires client.Valid() && client.frameBuffer != null && client.bitsPerPixel == 8 * n &&
             (n == 1 || n == 2 || n == 4)
    requires 0 < w <= 16 && 0 < h <= 16 && client.CheckRect(x, y, w, h)
    requires wellFormed ==>
               && t.Painted? && ValidTile(t, c, w, h) && Remembers(c, bg0, fg0, n) && subencoding == Flags(t)
               && client.input == PaintedPart(t, c, n, w, h) + rest
    requires e.Holds(client.width, client.height, x, y, client.Screen())
    modifies client`input, client.frameBuffer
    ensures e.Holds(client.width, client.height, x, y, client.Screen())
    ensures wellFormed ==>
              && ok && client.input == rest && Remembers(CarryOn(t, c), bg, fg, n)
              && client.Screen() == Blit(old(client.Screen()), Area(client.width, x, y, w), drawn)
              && Matches(n, drawn, HexImage(t, c, w, h))
  {
    hide Rows, Blit, Painting, Low, Filled, OptionalPixel, SubrectPart, ValidTile, Flags, LowSubs, SubsOf, CarryOn,
         HexImage, PaintedPart, RfbClient.CheckRect, Extent.Holds;
    bg, fg, drawn := bg0, fg0, [];
    if wellFormed {
      PartFlags(t);
      PartsInTurn(t, c, n, w, h, rest);
    }
    ok, bg := ReadOptional(client, subencoding / 2 % 2 == 1, bg, n, if wellFormed then t.bg else None,
                           if wellFormed then OptionalPixel(t.fg, n) + (SubrectPart(t, c, n, w, h) + rest) else [],
                           wellFormed);
    if !ok {
      return;
    }
    ghost var before := client.Screen();
    InBounds(client, x, y, w, h);
    TileKeeps(e, client.width, client.height, x, y, before, w, h, Filled(Low(bg, n), Rows(w, h)));
    client.FillRectangle(x, y, w, h, bg);
    ghost var a, filled := Area(client.width, x, y, w), client.Screen();
    assert filled == Blit(before, a, Filled(Low(bg, n), Rows(w, h)));
    ok, fg := ReadOptional(client, subencoding / 4 % 2 == 1, fg, n, if wellFormed then t.fg else None,
                           if wellFormed then SubrectPart(t, c, n, w, h) + rest else [], wellFormed);
    if !ok {
      return;
    }
    if wellFormed {
      Background(t, c, n, w, h, bg);
    }
    if subencoding / 8 % 2 == 1 {
      ok, fg := HandleSubrects(client, x, y, w, h, n, subencoding / 16 % 2 == 1, fg, before, t, c, rest, e, wellFormed);
    } else if wellFormed {
      NoSubrects(t, c, n, w, h, rest);
      assert client.Screen() == Blit(before, a, Painting(Low(Ground(t, c), n), LowSubs(SubsOf(t, c), n), w, h));
    }
    if wellFormed {
      PaintedShows(t, c, n, w, h, bg, fg);
      drawn := Painting(Low(Ground(t, c), n), LowSubs(SubsOf(t, c), n), w, h);
    }
  }

  lemma {:induction false} PartsInTurn(t: HexTile, c: Carried, n: nat, w: nat, h: nat, rest: seq<byte>)
    requires t.Painted? && ValidTile(t, c, w, h) && w <= 16 && h <= 16
    ensures PaintedPart(t, c, n, w, h) + rest ==
            OptionalPixel(t.bg, n) + (OptionalPixel(t.fg, n) + (SubrectPart(t, c, n, w, h) + rest))
  {
    hide OptionalPixel, SubrectPart, ValidTile;
  }

  /** What a painted tile shows and leaves behind. */
  lemma {:induction false} PaintedShows(t: HexTile, c: Carried, n: nat, w: nat, h: nat, bg: Pixel, fg: Pixel)
    requires w > 0 && t.Painted? && bg == Low(Ground(t, c), n)
    requires CarryOn(t, c).fg.Some? ==> fg == Low(CarryOn(t, c).fg.value, n)
    ensures Remembers(CarryOn(t, c), bg, fg, n)
    ensures Matches(n, Painting(Low(Ground(t, c), n), LowSubs(SubsOf(t, c), n), w, h), HexImage(t, c, w, h))
  {
    hide Low, Painting, LowSubs, SubsOf;
    LowPainting(Ground(t, c), SubsOf(t, c), n, w, h);
  }

  /** The flag byte says which parts follow. */
  lemma {:induction false} FlagBits(t: HexTile, c: Carried, n: nat, w: nat, h: nat, rest: seq<byte>)
    requires ValidTile(t, c, w, h) && w <= 16 && h <= 16
    ensures var bs, f := HexBytes(t, c, n, w, h) + rest, Flags(t);
            && |bs| > 0 && bs[0] == f && (f % 2 == 1 <==> t.RawTile?)
            && (t.RawTile? ==> |t.pixels| == Rows(w, h) && bs[1..] == TileCode.PixelBytes(t.pixels, n) + rest)
            && (t.Painted? ==> bs[1..] == PaintedPart(t, c, n, w, h) + rest)
  {
    hide TileCode.PixelBytes, PaintedPart, Rows;
  }

  lemma {:induction false} PartFlags(t: HexTile)
    requires t.Painted?
    ensures var f := Flags(t);
            && (f / 2 % 2 == 1 <==> t.bg.Some?) && (f / 4 % 2 == 1 <==> t.fg.Some?)
            && (f / 8 % 2 == 1 <==> !t.subrects.Absent?) && (f / 16 % 2 == 1 <==> t.subrects.Coloured?)
  {
  }

  /** After the background is read the tile is filled with its low bytes. */
  lemma {:induction false} Background(t: HexTile, c: Carried, n: nat, w: nat, h: nat, bg: Pixel)
    requires w > 0 && bg == Low(Ground(t, c), n)
    ensures Low(bg, n) == Low(Ground(t, c), n)
    ensures Filled(Low(bg, n), Rows(w, h)) == Painting(Low(Ground(t, c), n), [], w, h)
  {
    hide Low, Painting, Filled, Rows;
    LowOfLow(Ground(t, c), n, n);
    BarePainting(Low(bg, n), w, h);
  }

  lemma {:induction false} NoSubrects(t: HexTile, c: Carried, n: nat, w: nat, h: nat, rest: seq<byte>)
    requires t.Painted? && t.subrects.Absent? && ValidTile(t, c, w, h) && w <= 16 && h <= 16
    ensures SubrectPart(t, c, n, w, h) + rest == rest && LowSubs(SubsOf(t, c), n) == []
    ensures CarryOn(t, c).fg == Foreground(t, c)
  {
  }

  method HandleRawTile(client: RfbClient, x: nat, y: nat, w: nat, h: nat, n: nat,
                       ghost pixels: seq<Pixel>, ghost rest: seq<byte>, ghost e: Extent, ghost wellFormed: bool)
    returns (ok: bool, ghost drawn: seq<Pixel>)
    requires client.Valid() && client.frameBuffer != null && client.bitsPerPixel == 8 * n &&
             (n == 1 || n == 2 || n == 4)
    requires client.CheckRect(x, y, w, h) && w <= 16 && h <= 16
    requires wellFormed ==> |pixels| == Rows(w, h) && client.input == TileCode.PixelBytes(pixels, n) + rest
    requires e.Holds(client.width, client.height, x, y, client.Screen())
    modifies client`input, client.frameBuffer
    ensures e.Holds(client.width, client.height, x, y, client.Screen())
    ensures wellFormed ==>
              && ok && client.input == rest
              && client.Screen() == Blit(old(client.Screen()), Area(client.width, x, y, w), drawn)
              && Matches(n, drawn, pixels)
  {
    hide Rows, Blit, TileCode.PixelBytes, Low, RawPixels, Extent.Holds;
    drawn := [];
    var count := RowOffset(w, h);
    var size := RowOffset(n, count);
    if wellFormed {
      Split(TileCode.PixelBytes(pixels, n), rest);
    }
    var out;
    ok, out := client.ReadFromRFBServer(size);
    if ok {
      TileKeeps(e, client.width, client.height, x, y, client.Screen(), w, h, RawImage(MemoryOf(out), 0, n, Rows(w, h)));
      client.CopyRectangle(MemoryOf(out), 0, x, y, w, h);
      drawn := RawImage(MemoryOf(out), 0, n, Rows(w, h));
      AsImage(out, n, Rows(w, h));
      if wellFormed {
        TileDecode.RawMatches(pixels, n);
      }
    }
  }

  method HandleSubrects(client: RfbClient, x: nat, y: nat, w: nat, h: nat, n: nat, coloured: bool, fg0: Pixel,
                        ghost before: seq<Pixel>, ghost t: HexTile,
                        ghost c: Carried, ghost rest: seq<byte>, ghost e: Extent, ghost wellFormed: bool)
    returns (ok: bool, fg: Pixel)
    requires client.Valid() && client.frameBuffer != null && client.bitsPerPixel == 8 * n &&
             (n == 1 || n == 2 || n == 4)
    requires 0 < w <= 16 && 0 < h <= 16 && client.CheckRect(x, y, w, h)
    requires wellFormed ==>
               && t.Painted? && !t.subrects.Absent? && coloured == t.subrects.Coloured? && ValidTile(t, c, w, h)
               && client.input == SubrectPart(t, c, n, w, h) + rest
               && (Foreground(t, c).Some? ==> fg0 == Low(Foreground(t, c).value, n))
               && |before| == Rows(client.width, client.height)
               && client.Screen() == Blit(before, Area(client.width, x, y, w), Painting(Low(Ground(t, c), n), [], w, h))
    requires e.Holds(client.width, client.height, x, y, client.Screen())
    modifies client`input, client.frameBuffer
    ensures e.Holds(client.width, client.height, x, y, client.Screen())
    ensures wellFormed ==>
              && ok && client.input == rest
              && (CarryOn(t, c).fg.Some? ==> fg == Low(CarryOn(t, c).fg.value, n))
              && client.Screen() == Blit(before, Area(client.width, x, y, w),
                                         Painting(Low(Ground(t, c), n), LowSubs(SubsOf(t, c), n), w, h))
  {
    hide Rows, Blit, Painting, SubrectBytes, Low, LowSubs, Extent.Holds;
    fg := fg0;
    ghost var subs := if wellFormed then SubsOf(t, c) else [];
    if wellFormed {
      SubrectsReady(t, c, n, w, h, fg0, rest);
    }
    var out;
    ok, out := client.ReadFromRFBServer(1);
    if !ok {
      return;
    }
    var count := out[0];
    var size := RowOffset(EntrySize(coloured, n), count);
    if wellFormed {
      Split(SubrectBytes(subs, coloured, n, w, h), rest);
    }
    ok, out := client.ReadFromRFBServer(size);
    if ok {
      fg := DrawSubrects(client, out, count, coloured, x, y, w, h, n, fg0, before,
                         if wellFormed then Ground(t, c) else 0, subs, e, wellFormed);
    }
  }

  lemma {:induction false} SubrectsReady(t: HexTile, c: Carried, n: nat, w: nat, h: nat, fg: Pixel, rest: seq<byte>)
    requires t.Painted? && !t.subrects.Absent? && ValidTile(t, c, w, h) && w <= 16 && h <= 16
    requires Foreground(t, c).Some? ==> fg == Low(Foreground(t, c).value, n)
    ensures var subs, coloured := SubsOf(t, c), t.subrects.Coloured?;
            && |subs| < 256 && BoxesFit(subs, w, h)
            && (SubrectPart(t, c, n, w, h) + rest)[0] == |subs|
            && (SubrectPart(t, c, n, w, h) + rest)[1..] == SubrectBytes(subs, coloured, n, w, h) + rest
            && (!coloured ==> forall k :: 0 <= k < |subs| ==> Low(subs[k].colour, n) == Low(fg, n))
  {
    hide SubrectBytes, Low;
    if Foreground(t, c).Some? {
      LowOfLow(Foreground(t, c).value, n, n);
    }
  }

  /** The tiles, coded one after the other, are the pieces; c is what comes before the first. */
  ghost predicate Coded(tiles: seq<HexTile>, c: Carried, pieces: seq<Piece>, n: nat)
    decreases |tiles|
  {
    && |tiles| == |pieces|
    && (tiles != [] ==>
          var w, h := pieces[0].w, pieces[0].h;
          && 0 < w <= 16 && h <= 16 && ValidTile(tiles[0], c, w, h)
          && pieces[0].bytes == HexBytes(tiles[0], c, n, w, h) && pieces[0].image == HexImage(tiles[0], c, w, h)
          && Coded(tiles[1..], CarryOn(tiles[0], c), pieces[1..], n))
  }

  const FIRST: Carried := Carried(0, None)

  lemma {:induction false} NothingCarried(fg: Pixel, n: nat)
    ensures Remembers(FIRST, 0, fg, n)
  {
    if n > 0 {
      NothingCarried(fg, n - 1);
    }
  }

  /** How far to the right (down) of its edge a rectangle so wide (high) may draw: as far as the last
      tile may. */
  function Reached(total: nat): nat {
    if total == 0 then 0 else (total - 1) / 16 * 16 + REACH
  }

  lemma {:induction false} TileReaches(e: Extent, rw: nat, rh: nat, i: nat, j: nat)
    requires i < rw && j < rh && i % 16 == 0 && j % 16 == 0
    requires e.r.x <= e.r.stride && e.r.y <= e.r.height
    requires e.r.w == Min(Reached(rw), e.r.stride - e.r.x) && e.r.h == Min(Reached(rh), e.r.height - e.r.y)
    ensures e.Reaches(e.r.x + i, e.r.y + j)
  {
  }

  /** A Hextile rectangle. Whatever the bytes, nothing changes further than the last tiles' subrectangles
      reach. For the bytes of tiles that code an image, whatever they leave to be
      carried over from earlier tiles, exactly those bytes are consumed, the rectangle shows the
      image and nothing else changes. */
  method HandleHextile(client: RfbClient, rx: nat, ry: nat, rw: nat, rh: nat, n: nat, ghost tiles: seq<HexTile>,
                       ghost pieces: seq<Piece>, ghost image: seq<Pixel>, ghost rest: seq<byte>, ghost wellFormed: bool)
    returns (ok: bool)
    requires client.Valid() && client.frameBuffer != null && client.bitsPerPixel == 8 * n &&
             (n == 1 || n == 2 || n == 4)
    requires client.CheckRect(rx, ry, rw, rh)
    requires wellFormed ==>
               && |image| == Rows(rw, rh) && Tiled(pieces, image, rw, rh, 16, n, 0, 0)
               && Coded(tiles, FIRST, pieces, n) && client.input == Joined(pieces) + rest
    modifies client`input, client.frameBuffer
    ensures var w, h := Min(Reached(rw), client.width - rx), Min(Reached(rh), client.height - ry);
            OutsideKept(Rect(client.width, client.height, rx, ry, w, h, 16), old(client.Screen()), client.Screen())
    ensures wellFormed ==>
              && ok && client.input == rest
              && Shows(old(client.Screen()), client.Screen(), client.width, client.height, rx, ry, rw, rh, image, n)
  {
    hide Rows, Blit, Low, Tiled, Joined, Progress, HexBytes, HexImage, ValidTile, CarryOn, OutsideKept, Reached,
         Extent.Reaches;
    ghost var r, before := Rect(client.width, client.height, rx, ry, rw, rh, 16), client.Screen();
    ghost var e := Extent(before, r.(w := Min(Reached(rw), client.width - rx),
                                     h := Min(Reached(rh), client.height - ry)));
    NothingChanged(e.r, before);
    ghost var codes, left, c := tiles, pieces, FIRST;
    var bg: Pixel, fg: Pixel := 0, *;
    NothingCarried(fg, n);
    if wellFormed {
      Begin(rest, r, before, pieces, image, n);
    }
    var j: nat := 0;
    while j < rh
      invariant client.Valid() && j % 16 == 0 && OutsideKept(e.r, before, client.Screen())
      invariant wellFormed ==>
                  && Coded(codes, c, left, n) && Remembers(c, bg, fg, n)
                  && Progress(client.input, rest, r, before, client.Screen(), left, image, n, 0, j)
    {
      var i: nat := 0;
      while i < rw
        invariant client.Valid() && i % 16 == 0 && OutsideKept(e.r, before, client.Screen())
        invariant wellFormed ==>
                    && Coded(codes, c, left, n) && Remembers(c, bg, fg, n)
                    && Progress(client.input, rest, r, before, client.Screen(), left, image, n, i, j)
      {
        var w, h := Clip(rw, i, 16), Clip(rh, j, 16);
        ghost var input, now, after := client.input, client.Screen(), [];
        if wellFormed {
          after := TileNext(input, rest, r, before, now, left, image, n, i, j);
        }
        ghost var t := if wellFormed then codes[0] else RawTile([]);
        ghost var drawn;
        TileReaches(e, rw, rh, i, j);
        ok, bg, fg, drawn := HandleTile(client, rx + i, ry + j, w, h, n, bg, fg, t, c, after, e,
                                          wellFormed);
        if !ok {
          return false;
        }
        if wellFormed {
          TileDone(input, after, rest, r, before, now, left, image, n, i, j, drawn);
          codes, left, c := codes[1..], left[1..], CarryOn(t, c);
        }
        i := i + 16;
      }
      if wellFormed {
        RowDone(client.input, rest, r, before, client.Screen(), left, image, n, i, j);
      }
      j := j + 16;
    }
    ok := true;
    if wellFormed {
      Finished(client.input, rest, r, before, client.Screen(), left, image, n, j);
    }
  }

  lemma {:induction false} RawIsValid(pixels: seq<Pixel>, c: Carried, n: nat, w: nat, h: nat)
    requires |pixels| == Rows(w, h) && 0 < w <= 16 && h <= 16
    ensures var t := RawTile(pixels); ValidTile(t, c, w, h) && HexImage(t, c, w, h) == pixels && CarryOn(t, c) == c
  {
  }

  /** Every image of every size has a coding: here, raw tiles. */
  lemma {:induction false} AnyImage(c: Carried, image: seq<Pixel>, rw: nat, rh: nat, n: nat, i: nat, j: nat)
    returns (tiles: seq<HexTile>, pieces: seq<Piece>)
    requires Rows(rw, rh) <= |image|
    ensures Coded(tiles, c, pieces, n) && Tiled(pieces, image, rw, rh, 16, n, i, j)
    decreases if j < rh then rh - j else 0, if i < rw then rw - i else 0
  {
    hide Rows, Low, Crop, ValidTile, HexBytes, HexImage, CarryOn;
    if j >= rh || rw == 0 {
      tiles, pieces := [], [];
    } else if i >= rw {
      tiles, pieces := AnyImage(c, image, rw, rh, n, 0, j + 16);
    } else {
      var w, h := Clip(rw, i, 16), Clip(rh, j, 16);
      RowsMonotonic(rw, j + h, rh);
      var t := RawTile(Crop(image, rw, i, j, w, h));
      RawIsValid(t.pixels, c, n, w, h);
      tiles, pieces := AnyImage(c, image, rw, rh, n, i + 16, j);
      assert ([t] + tiles)[1..] == tiles;
      var piece := Piece(w, h, HexBytes(t, c, n, w, h), HexImage(t, c, w, h));
      assert ([piece] + pieces)[1..] == pieces;
      tiles, pieces := [t] + tiles, [piece] + pieces;
    }
  }
}
