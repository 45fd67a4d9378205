/** What the tiles of a Hextile rectangle leave unspecified, said of whole runs of tiles; and the bytes of
    a tile, place by place. */
module HextileCarry {
  import opened Bytes
  import opened Area
  import opened Tiles
  import opened Hextile
  import TileCode

  /** What has been carried over once the tiles are decoded. */
  function After(tiles: seq<HexTile>): Carried {
    if tiles == [] then FIRST else CarryOn(tiles[|tiles| - 1], After(tiles[..|tiles| - 1]))
  }

  /** The background a tile specifies. */
  function OwnBackground(t: HexTile): Option<Pixel> {
    if t.Painted? then t.bg else None
  }

  /** The foreground a tile leaves: the colour of its last coloured subrectangle, or else the one that
      it specifies. */
  function OwnForeground(t: HexTile): Option<Pixel> {
    match t
    case RawTile(_) => None
    case Painted(_, fg, Coloured(subs)) => if subs == [] then fg else Some(subs[|subs| - 1].colour)
    case Painted(_, fg, _) => fg
  }

  /** The background is that of the last tile that specified one, or 0 if none did. Raw tiles do not
      change it. */
  lemma {:induction false} BackgroundCarried(tiles: seq<HexTile>) returns (m: int)
    ensures -1 <= m < |tiles| && forall i :: m < i < |tiles| ==> OwnBackground(tiles[i]) == None
    ensures m < 0 ==> After(tiles).bg == 0
    ensures m >= 0 ==> OwnBackground(tiles[m]) == Some(After(tiles).bg)
  {
    if tiles == [] {
      m := -1;
    } else if OwnBackground(tiles[|tiles| - 1]).Some? {
      m := |tiles| - 1;
    } else {
      m := BackgroundCarried(tiles[..|tiles| - 1]);
    }
  }

  /** The foreground is the one that the last tile to do so left, and unknown if none did. */
  lemma {:induction false} ForegroundCarried(tiles: seq<HexTile>) returns (m: int)
    ensures -1 <= m < |tiles| && forall i :: m < i < |tiles| ==> OwnForeground(tiles[i]) == None
    ensures m < 0 ==> After(tiles).fg == None
    ensures m >= 0 ==> OwnForeground(tiles[m]) == After(tiles).fg != None
  {
    if tiles == [] {
      m := -1;
    } else if OwnForeground(tiles[|tiles| - 1]).Some? {
      m := |tiles| - 1;
    } else {
      m := ForegroundCarried(tiles[..|tiles| - 1]);
    }
  }

  /** Piece k is tile k, which relies on what the tiles before it left. */
  ghost predicate IsPiece(tiles: seq<HexTile>, pieces: seq<Piece>, n: nat, k: nat)
    requires k < |tiles| == |pieces|
  {
    var t, c, w, h := tiles[k], After(tiles[..k]), pieces[k].w, pieces[k].h;
    && 0 < w <= 16 && h <= 16 && ValidTile(t, c, w, h)
    && pieces[k].bytes == HexBytes(t, c, n, w, h) && pieces[k].image == HexImage(t, c, w, h)
  }

  /** A run of tiles, tile by tile. */
  lemma {:induction false} CodedTiles(tiles: seq<HexTile>, pieces: seq<Piece>, n: nat)
    requires |tiles| == |pieces|
    ensures Coded(tiles, FIRST, pieces, n) <==> forall k :: 0 <= k < |tiles| ==> IsPiece(tiles, pieces, n, k)
  {
    hide IsPiece;
    assert tiles[..0] == [] && tiles[0..] == tiles && pieces[0..] == pieces;
    CodedFrom(tiles, pieces, n, 0);
  }

  lemma {:induction false} CodedFrom(tiles: seq<HexTile>, pieces: seq<Piece>, n: nat, i: nat)
    requires i <= |tiles| == |pieces|
    ensures Coded(tiles[i..], After(tiles[..i]), pieces[i..], n) <==>
            forall k :: i <= k < |tiles| ==> IsPiece(tiles, pieces, n, k)
    decreases |tiles| - i
  {
    hide HexBytes, HexImage, ValidTile, CarryOn;
    if i < |tiles| {
      CodedFrom(tiles, pieces, n, i + 1);
      assert tiles[i..][1..] == tiles[i + 1..] && pieces[i..][1..] == pieces[i + 1..];
      assert tiles[..i + 1][..i] == tiles[..i];
      assert Coded(tiles[i..], After(tiles[..i]), pieces[i..], n) <==>
             IsPiece(tiles, pieces, n, i) && Coded(tiles[i + 1..], After(tiles[..i + 1]), pieces[i + 1..], n);
    }
  }

  /** The boxes of a tile's subrectangles. */
  function Boxes(t: HexTile): seq<Box>
    requires t.Painted?
  {
    match t.subrects
    case Absent => []
    case Monochrome(boxes) => boxes
    case Coloured(subs) => seq(|subs|, k requires 0 <= k < |subs| => subs[k].box)
  }

  /** Subrectangle b is the last one over the place. */
  ghost predicate LastBox(boxes: seq<Box>, b: int, i: nat, j: nat) {
    -1 <= b < |boxes| && (b >= 0 ==> InBox(boxes[b], i, j)) && forall a :: b < a < |boxes| ==> !InBox(boxes[a], i, j)
  }

  lemma {:induction false} LastBoxColour(bg: Pixel, subs: seq<Subrect>, boxes: seq<Box>, b: int, i: nat, j: nat)
    requires |subs| == |boxes| && forall a :: 0 <= a < |subs| ==> subs[a].box == boxes[a]
    requires LastBox(boxes, b, i, j)
    ensures ColourAt(bg, subs, i, j) == if b < 0 then bg else subs[b].colour
  {
    if subs != [] {
      var last := |subs| - 1;
      assert subs[last].box == boxes[last];
      if b < last {
        LastBoxColour(bg, subs[..last], boxes[..last], b, i, j);
      }
    }
  }

  lemma {:induction false} SubBoxes(t: HexTile, c: Carried)
    requires t.Painted?
    ensures |SubsOf(t, c)| == |Boxes(t)| && forall a :: 0 <= a < |Boxes(t)| ==> SubsOf(t, c)[a].box == Boxes(t)[a]
  {
  }

  /** The pixel in column i and row j of a piece. */
  ghost predicate PieceShows(p: Piece, i: nat, j: nat, c: Pixel) {
    Rows(p.w, j) + i < |p.image| && p.image[Rows(p.w, j) + i] == c
  }

  /** Where a painted tile has no subrectangle it shows the background of the last tile up to it that
      specified one, and 0 if none did. */
  lemma {:induction false} BackgroundShown(tiles: seq<HexTile>, pieces: seq<Piece>, n: nat, k: nat, i: nat, j: nat)
    returns (m: int)
    requires Coded(tiles, FIRST, pieces, n) && k < |tiles| == |pieces| && tiles[k].Painted?
    requires i < pieces[k].w && j < pieces[k].h && LastBox(Boxes(tiles[k]), -1, i, j)
    ensures -1 <= m <= k && forall a :: m < a <= k ==> OwnBackground(tiles[a]) == None
    ensures m >= 0 ==> OwnBackground(tiles[m]).Some?
    ensures PieceShows(pieces[k], i, j, if m < 0 then 0 else OwnBackground(tiles[m]).value)
  {
    hide Rows, Painting, ColourAt, Coded, ValidTile, HexBytes;
    CodedTiles(tiles, pieces, n);
    assert IsPiece(tiles, pieces, n, k);
    var t, c := tiles[k], After(tiles[..k]);
    m := BackgroundCarried(tiles[..k]);
    if t.bg.Some? {
      m := k;
    }
    PaintingAt(Ground(t, c), SubsOf(t, c), pieces[k].w, pieces[k].h, i, j);
    SubBoxes(t, c);
    LastBoxColour(Ground(t, c), SubsOf(t, c), Boxes(t), -1, i, j);
  }

  /** A coloured subrectangle shows its colour where no later one covers it. */
  lemma {:induction false} ColourShown(tiles: seq<HexTile>, pieces: seq<Piece>, n: nat, k: nat, b: nat, i: nat, j: nat)
    requires Coded(tiles, FIRST, pieces, n) && k < |tiles| == |pieces| && tiles[k].Painted?
    requires tiles[k].subrects.Coloured? && b < |tiles[k].subrects.subs|
    requires i < pieces[k].w && j < pieces[k].h && LastBox(Boxes(tiles[k]), b, i, j)
    ensures PieceShows(pieces[k], i, j, tiles[k].subrects.subs[b].colour)
  {
    hide Rows, Painting, ColourAt, Coded, ValidTile, HexBytes;
    CodedTiles(tiles, pieces, n);
    assert IsPiece(tiles, pieces, n, k);
    var t, c := tiles[k], After(tiles[..k]);
    PaintingAt(Ground(t, c), SubsOf(t, c), pieces[k].w, pieces[k].h, i, j);
    SubBoxes(t, c);
    LastBoxColour(Ground(t, c), SubsOf(t, c), Boxes(t), b, i, j);
  }

  /** The other subrectangles show the tile's own foreground, or if it has none the one left by the
      last tile before it to leave one: there is such a tile. */
  lemma {:induction false} ForegroundShown(tiles: seq<HexTile>, pieces: seq<Piece>, n: nat, k: nat, b: nat, i: nat,
                                           j: nat)
    returns (m: nat)
    requires Coded(tiles, FIRST, pieces, n) && k < |tiles| == |pieces| && tiles[k].Painted?
    requires tiles[k].subrects.Monochrome? && b < |tiles[k].subrects.boxes|
    requires i < pieces[k].w && j < pieces[k].h && LastBox(Boxes(tiles[k]), b, i, j)
    ensures m <= k && OwnForeground(tiles[m]).Some? && forall a :: m < a <= k ==> OwnForeground(tiles[a]) == None
    ensures PieceShows(pieces[k], i, j, OwnForeground(tiles[m]).value)
  {
    hide Rows, Painting, ColourAt, Coded, HexBytes;
    CodedTiles(tiles, pieces, n);
    assert IsPiece(tiles, pieces, n, k);
    var t, c := tiles[k], After(tiles[..k]);
    var before := ForegroundCarried(tiles[..k]);
    m := if t.fg.Some? then k else before;
    PaintingAt(Ground(t, c), SubsOf(t, c), pieces[k].w, pieces[k].h, i, j);
    SubBoxes(t, c);
    LastBoxColour(Ground(t, c), SubsOf(t, c), Boxes(t), b, i, j);
  }

  /** A tile without a foreground of its own may have subrectangles without colours exactly if a tile
      before it left a foreground. */
  lemma {:induction false} ForegroundNeeded(tiles: seq<HexTile>, t: HexTile, w: nat, h: nat)
    requires t.Painted? && t.subrects.Monochrome? && t.subrects.boxes != [] && t.fg == None
    requires |t.subrects.boxes| < 256 && forall b :: 0 <= b < |t.subrects.boxes| ==> BoxFits(t.subrects.boxes[b], w, h)
    ensures ValidTile(t, After(tiles), w, h) <==> exists m :: 0 <= m < |tiles| && OwnForeground(tiles[m]).Some?
  {
    var m := ForegroundCarried(tiles);
  }

  /** The bytes of a painted tile: a flag for each part, then the parts. */
  lemma {:induction false} PaintedBytes(t: HexTile, c: Carried, n: nat, w: nat, h: nat)
    requires t.Painted? && ValidTile(t, c, w, h) && w <= 16 && h <= 16
    ensures var bs := HexBytes(t, c, n, w, h);
            var p := 1 + (if t.bg.Some? then n else 0);
            var q := p + (if t.fg.Some? then n else 0);
            && q <= |bs| && bs[0] % 2 == 0 && bs[0] < 32
            && (t.bg.Some? <==> bs[0] / 2 % 2 == 1) && (t.bg.Some? ==> bs[1..p] == ToBytes(t.bg.value, n))
            && (t.fg.Some? <==> bs[0] / 4 % 2 == 1) && (t.fg.Some? ==> bs[p..q] == ToBytes(t.fg.value, n))
            && (t.subrects.Absent? <==> bs[0] / 8 % 2 == 0) && (t.subrects.Absent? ==> |bs| == q)
            && (t.subrects.Coloured? <==> bs[0] / 16 % 2 == 1)
            && (!t.subrects.Absent? ==> q < |bs| && bs[q] == |Boxes(t)|)
  {
    hide ToBytes, SubrectPart, ValidTile, Flags, Boxes;
    var bg, fg, subs := OptionalPixel(t.bg, n), OptionalPixel(t.fg, n), SubrectPart(t, c, n, w, h);
    FourParts([Flags(t)], bg, fg, subs);
    PartFlags(t);
    EvenFlags(t);
    SubrectNumber(t, c, n, w, h);
  }

  lemma {:induction false} FourParts(a: seq<byte>, b: seq<byte>, c: seq<byte>, d: seq<byte>)
    ensures var bs, p, q := a + (b + (c + d)), |a| + |b|, |a| + |b| + |c|;
            bs[..|a|] == a && bs[|a|..p] == b && bs[p..q] == c && bs[q..] == d
  {
  }

  lemma {:induction false} EvenFlags(t: HexTile)
    requires t.Painted?
    ensures Flags(t) % 2 == 0 && Flags(t) < 32
  {
  }

  lemma {:induction false} SubrectNumber(t: HexTile, c: Carried, n: nat, w: nat, h: nat)
    requires t.Painted? && ValidTile(t, c, w, h) && w <= 16 && h <= 16
    ensures var bs := SubrectPart(t, c, n, w, h);
            if t.subrects.Absent? then bs == [] else bs != [] && bs[0] == |Boxes(t)|
  {
    hide SubrectBytes;
  }

  /** A subrectangle's bytes, behind those of its colour if it has one: position and size in four bits
      each, the column first, the size less one. */
  lemma {:induction false} EntryBytes(subs: seq<Subrect>, coloured: bool, n: nat, w: nat, h: nat, k: nat)
    requires BoxesFit(subs, w, h) && k < |subs|
    ensures var size := if coloured then n + 2 else 2;
            var p, bs := k * size, SubrectBytes(subs, coloured, n, w, h);
            var q, box := p + size - 2, subs[k].box;
            && |bs| == |subs| * size && 0 <= p <= q && q + 2 <= |bs|
            && (coloured ==> bs[p..q] == ToBytes(subs[k].colour, n))
            && bs[q] / 16 == box.x && bs[q] % 16 == box.y && bs[q + 1] / 16 == box.w - 1 && bs[q + 1] % 16 == box.h - 1
  {
    hide Rows, ToBytes, SubrectBytes, Entry;
    var size := if coloured then n + 2 else 2;
    RowsIsProduct(size, k);
    RowsIsProduct(size, |subs|);
    SubrectAt(subs, coloured, n, w, h, k);
    var bs, p := SubrectBytes(subs, coloured, n, w, h), Rows(size, k);
    assert p == k * size by { Swap(k, size); }
    assert |bs| == |subs| * size by { Swap(|subs|, size); }
    EntryParts(subs[k], coloured, n);
    EntryAt(bs, p, size, Entry(subs[k], coloured, n));
  }

  lemma {:induction false} Swap(a: nat, b: nat)
    ensures a * b == b * a
  {
  }

  lemma {:induction false} EntryParts(s: Subrect, coloured: bool, n: nat)
    requires BoxFits(s.box, 16, 16)
    ensures var e, size := Entry(s, coloured, n), if coloured then n + 2 else 2;
            && |e| == size && (coloured ==> e[..size - 2] == ToBytes(s.colour, n))
            && e[size - 2] / 16 == s.box.x && e[size - 2] % 16 == s.box.y
            && e[size - 1] / 16 == s.box.w - 1 && e[size - 1] % 16 == s.box.h - 1
  {
    hide ToBytes;
  }

  lemma {:induction false} EntryAt(bs: seq<byte>, p: nat, size: nat, e: seq<byte>)
    requires size >= 2 && p + size <= |bs| && bs[p..p + size] == e
    ensures bs[p..p + size - 2] == e[..size - 2] && bs[p + size - 2] == e[size - 2] && bs[p + size - 1] == e[size - 1]
  {
  }

  /** A raw tile's flag byte is odd, and its pixels follow. */
  lemma {:induction false} RawBytes(t: HexTile, c: Carried, n: nat, w: nat, h: nat)
    requires t.RawTile? && ValidTile(t, c, w, h) && w <= 16 && h <= 16
    ensures HexBytes(t, c, n, w, h) == [1] + TileCode.PixelBytes(t.pixels, n)
  {
    hide TileCode.PixelBytes;
  }

  /** The rightmost tile of a rectangle begins at a multiple of 16, and nothing it draws is 31 columns or
      more from there. */
  lemma {:induction false} ReachIs(total: nat)
    ensures total > 0 ==> exists at: nat :: at % 16 == 0 && at < total <= at + 16 && Reached(total) == at + 31
    ensures total == 0 ==> Reached(total) == 0
  {
    if total > 0 {
      var at := (total - 1) / 16 * 16;
      assert at % 16 == 0 && at < total <= at + 16 && Reached(total) == at + 31;
    }
  }
}
