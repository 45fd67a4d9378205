/** Rectangles decoded tile by tile: 64 x 64 tiles for ZRLE, 16 x 16 for TRLE and Hextile, left to
    right and top to bottom, clipped at the right and bottom edges. */
module Tiles {
  import opened Bytes
  import opened Area

  /** The width (height) of the tile that begins at `at` in a rectangle `total` wide (high). */
  function Clip(total: nat, at: nat, size: nat): (r: nat)
    requires at <= total
    ensures r <= size && at + r <= total && (r == size || at + r == total)
  {
    if at + size > total then total - at else size
  }

  /** The rectangle a tiled decoder fills, in a framebuffer `height` rows high. */
  datatype Rect = Rect(stride: nat, height: nat, x: nat, y: nat, w: nat, h: nat, size: nat) {
    predicate Fits() {
      x + w <= stride && y + h <= height && size > 0
    }

    predicate Inside(px: nat, py: nat) {
      x <= px < x + w && y <= py < y + h
    }

    /** Whether the tiles before the one at (i, j) include the pixel. */
    predicate Before(i: nat, j: nat, px: nat, py: nat) {
      Inside(px, py) && (py - y < j || (py - y < j + size && px - x < i))
    }

    function TileArea(i: nat, j: nat): Area
      requires i <= w
    {
      Area(stride, x + i, y + j, Clip(w, i, size))
    }
  }

  /** The tiles before (i, j) show the image on their pixels' low n bytes; all else is as it was. */
  ghost predicate ShownTo(r: Rect, before: seq<Pixel>, now: seq<Pixel>, image: seq<Pixel>, n: nat, i: nat, j: nat) {
    && r.Fits() && |before| == |now| == Rows(r.stride, r.height) && |image| == Rows(r.w, r.h)
    && forall x: nat, y: nat :: x < r.stride && y < r.height ==> ShownToAt(r, before, now, image, n, i, j, x, y)
  }

  ghost predicate ShownToAt(r: Rect, before: seq<Pixel>, now: seq<Pixel>, image: seq<Pixel>, n: nat,
                            i: nat, j: nat, x: nat, y: nat)
  {
    var p := Rows(r.stride, y) + x;
    && p < |before| && p < |now|
    && if r.Before(i, j, x, y) then
         var q := Rows(r.w, y - r.y) + (x - r.x);
         q < |image| && Low(now[p], n) == Low(image[q], n)
       else now[p] == before[p]
  }

  lemma {:induction false} NothingShown(r: Rect, before: seq<Pixel>, image: seq<Pixel>, n: nat)
    requires r.Fits() && |before| == Rows(r.stride, r.height) && |image| == Rows(r.w, r.h)
    ensures ShownTo(r, before, before, image, n, 0, 0)
  {
    hide Rows, Low;
    forall x: nat, y: nat | x < r.stride && y < r.height
      ensures ShownToAt(r, before, before, image, n, 0, 0, x, y)
    {
      InsideRows(r.stride, r.height, x, y);
    }
  }

  /** Drawing the tile at (i, j) moves the frontier past it. */
  lemma {:induction false} TileShown(r: Rect, before: seq<Pixel>, now: seq<Pixel>, image: seq<Pixel>, n: nat,
                                     i: nat, j: nat, drawn: seq<Pixel>)
    requires ShownTo(r, before, now, image, n, i, j) && i < r.w && j < r.h
    requires var h := Clip(r.h, j, r.size);
             Rows(r.w, j + h) <= |image| && Matches(n, drawn, Crop(image, r.w, i, j, Clip(r.w, i, r.size), h))
    ensures ShownTo(r, before, Blit(now, r.TileArea(i, j), drawn), image, n, i + r.size, j)
  {
    hide Rows, Low, Blit, Crop;
    var after, next := Blit(now, r.TileArea(i, j), drawn), i + r.size;
    forall x: nat, y: nat | x < r.stride && y < r.height
      ensures ShownToAt(r, before, after, image, n, next, j, x, y)
    {
      assert ShownToAt(r, before, now, image, n, i, j, x, y);
      TileShownAt(r, before, now, image, n, i, j, drawn, x, y);
    }
  }

  lemma {:induction false} TileShownAt(r: Rect, before: seq<Pixel>, now: seq<Pixel>, image: seq<Pixel>, n: nat,
                                       i: nat, j: nat, drawn: seq<Pixel>, x: nat, y: nat)
    requires r.Fits() && |before| == |now| == Rows(r.stride, r.height) && |image| == Rows(r.w, r.h)
    requires ShownToAt(r, before, now, image, n, i, j, x, y) && i < r.w && j < r.h
    requires var h := Clip(r.h, j, r.size);
             Rows(r.w, j + h) <= |image| && Matches(n, drawn, Crop(image, r.w, i, j, Clip(r.w, i, r.size), h))
    requires x < r.stride && y < r.height
    ensures ShownToAt(r, before, Blit(now, r.TileArea(i, j), drawn), image, n, i + r.size, j, x, y)
  {
    hide Rows, Low, Blit, Crop;
    var a, w, h := r.TileArea(i, j), Clip(r.w, i, r.size), Clip(r.h, j, r.size);
    BlitAt(now, a, drawn, x, y);
    CoversWhole(a, h, x, y);
    if a.x <= x < a.x + a.w && a.y <= y < a.y + h {
      CropAt(image, r.w, i, j, w, h, x - a.x, y - a.y);
      assert j + (y - a.y) == y - r.y;
      var tile := Crop(image, r.w, i, j, w, h);
      assert Low(drawn[Rows(w, y - a.y) + (x - a.x)], n) == Low(tile[Rows(w, y - a.y) + (x - a.x)], n);
    }
  }

  lemma {:induction false} ImageRoom(r: Rect, before: seq<Pixel>, now: seq<Pixel>, image: seq<Pixel>, n: nat, i: nat,
                                     j: nat)
    requires ShownTo(r, before, now, image, n, i, j) && j < r.h
    ensures Rows(r.w, j + Clip(r.h, j, r.size)) <= |image|
  {
    hide Rows, Low;
    RowsMonotonic(r.w, j + Clip(r.h, j, r.size), r.h);
  }

  lemma {:induction false} MatchesTrans(n: nat, a: seq<Pixel>, b: seq<Pixel>, c: seq<Pixel>)
    requires Matches(n, a, b) && Matches(n, b, c)
    ensures Matches(n, a, c)
  {
  }

  lemma {:induction false} RowShown(r: Rect, before: seq<Pixel>, now: seq<Pixel>, image: seq<Pixel>, n: nat, i: nat,
                                    j: nat)
    requires ShownTo(r, before, now, image, n, i, j) && i >= r.w
    ensures ShownTo(r, before, now, image, n, 0, j + r.size)
  {
    hide Rows, Low;
    var next := j + r.size;
    forall x: nat, y: nat | x < r.stride && y < r.height
      ensures ShownToAt(r, before, now, image, n, 0, next, x, y)
    {
      assert ShownToAt(r, before, now, image, n, i, j, x, y);
    }
  }

  /** Past the last tile row the whole rectangle shows the image: the tiles partition it. */
  lemma {:induction false} AllShown(r: Rect, before: seq<Pixel>, now: seq<Pixel>, image: seq<Pixel>, n: nat, j: nat)
    requires ShownTo(r, before, now, image, n, 0, j) && (j >= r.h || r.w == 0)
    ensures Shows(before, now, r.stride, r.height, r.x, r.y, r.w, r.h, image, n)
  {
    hide Rows, Low;
    forall x: nat, y: nat | x < r.stride && y < r.height
      ensures ShowsAt(before, now, r.stride, r.x, r.y, r.w, r.h, image, n, x, y)
    {
      assert ShownToAt(r, before, now, image, n, 0, j, x, y);
    }
  }

  /** Nothing outside the rectangle has changed. */
  ghost predicate OutsideKept(r: Rect, before: seq<Pixel>, now: seq<Pixel>) {
    && r.Fits() && |before| == |now| == Rows(r.stride, r.height)
    && forall x: nat, y: nat :: x < r.stride && y < r.height ==> OutsideKeptAt(r, before, now, x, y)
  }

  ghost predicate OutsideKeptAt(r: Rect, before: seq<Pixel>, now: seq<Pixel>, x: nat, y: nat) {
    var p := Rows(r.stride, y) + x;
    p < |before| && p < |now| && (!r.Inside(x, y) ==> now[p] == before[p])
  }

  lemma {:induction false} NothingChanged(r: Rect, before: seq<Pixel>)
    requires r.Fits() && |before| == Rows(r.stride, r.height)
    ensures OutsideKept(r, before, before)
  {
    hide Rows;
    forall x: nat, y: nat | x < r.stride && y < r.height
      ensures OutsideKeptAt(r, before, before, x, y)
    {
      InsideRows(r.stride, r.height, x, y);
    }
  }

  lemma {:induction false} TileKeepsOutside(r: Rect, before: seq<Pixel>, now: seq<Pixel>, i: nat, j: nat,
                                            drawn: seq<Pixel>)
    requires OutsideKept(r, before, now) && i < r.w && j < r.h
    requires |drawn| <= Rows(Clip(r.w, i, r.size), Clip(r.h, j, r.size))
    ensures OutsideKept(r, before, Blit(now, r.TileArea(i, j), drawn))
  {
    hide Rows, Blit;
    var a, h := r.TileArea(i, j), Clip(r.h, j, r.size);
    var after := Blit(now, a, drawn);
    forall x: nat, y: nat | x < r.stride && y < r.height
      ensures OutsideKeptAt(r, before, after, x, y)
    {
      assert OutsideKeptAt(r, before, now, x, y);
      BlitAt(now, a, drawn, x, y);
      CoversWhole(a, h, x, y);
    }
  }

  /** A tile's size, the bytes that code it and the image they stand for. */
  datatype Piece = Piece(w: nat, h: nat, bytes: seq<byte>, image: seq<Pixel>)

  /** The pieces are, on their pixels' low n bytes, the tiles of the image from the one at (i, j) on. */
  ghost predicate Tiled(pieces: seq<Piece>, image: seq<Pixel>, rw: nat, rh: nat, size: nat, n: nat, i: nat, j: nat)
    requires size > 0 && Rows(rw, rh) <= |image|
    decreases if j < rh then rh - j else 0, if i < rw then rw - i else 0
  {
    if j >= rh || rw == 0 then pieces == []
    else if i >= rw then Tiled(pieces, image, rw, rh, size, n, 0, j + size)
    else
      var w, h := Clip(rw, i, size), Clip(rh, j, size);
      RowsMonotonic(rw, j + h, rh);
      && pieces != [] && pieces[0].w == w && pieces[0].h == h
      && Matches(n, pieces[0].image, Crop(image, rw, i, j, w, h))
      && Tiled(pieces[1..], image, rw, rh, size, n, i + size, j)
  }

  /** All their bytes. */
  function Joined(pieces: seq<Piece>): seq<byte> {
    if pieces == [] then [] else pieces[0].bytes + Joined(pieces[1..])
  }

  /** No tile takes more than k bytes for each of its pixels. */
  ghost predicate EachFits(pieces: seq<Piece>, k: nat) {
    forall i :: 0 <= i < |pieces| ==> |pieces[i].bytes| <= Rows(k, Rows(pieces[i].w, pieces[i].h))
  }

  /** The pixels from the tile at (i, j) on. */
  function PixelsLeft(rw: nat, rh: nat, size: nat, i: nat, j: nat): nat {
    if j >= rh then 0
    else
      var h := Clip(rh, j, size);
      Rows(if i < rw then rw - i else 0, h) + Rows(rw, rh - j - h)
  }

  /** Then all of them together take no more than k for each pixel of the rectangle. */
  lemma {:induction false} AllFit(pieces: seq<Piece>, image: seq<Pixel>, rw: nat, rh: nat, size: nat, n: nat, i: nat,
                                  j: nat, k: nat)
    requires size > 0 && Rows(rw, rh) <= |image| && Tiled(pieces, image, rw, rh, size, n, i, j) && EachFits(pieces, k)
    ensures |Joined(pieces)| <= Rows(k, PixelsLeft(rw, rh, size, i, j))
    decreases if j < rh then rh - j else 0, if i < rw then rw - i else 0
  {
    hide Rows, Crop, Low;
    if j >= rh || rw == 0 {
    } else if i >= rw {
      AllFit(pieces, image, rw, rh, size, n, 0, j + size, k);
      RowsIsProduct(0, Clip(rh, j, size));
      var below := rh - j - Clip(rh, j, size);
      if j + size < rh {
        RowsAdd(rw, Clip(rh, j + size, size), below - Clip(rh, j + size, size));
      }
    } else {
      var w, h := Clip(rw, i, size), Clip(rh, j, size);
      AllFit(pieces[1..], image, rw, rh, size, n, i + size, j, k);
      RowsSplit(w, rw - i - w, h);
      RowsIsProduct(0, h);
      RowsAdd(k, Rows(w, h), PixelsLeft(rw, rh, size, i + size, j));
    }
  }

  /** A decoder at the tile at (i, j): the tiles before it are shown, and the input is the bytes of
      the others, then `rest`. */
  ghost predicate Progress(input: seq<byte>, rest: seq<byte>, r: Rect, before: seq<Pixel>, now: seq<Pixel>,
                           left: seq<Piece>, image: seq<Pixel>, n: nat, i: nat, j: nat)
  {
    && r.Fits() && Rows(r.w, r.h) <= |image|
    && ShownTo(r, before, now, image, n, i, j)
    && Tiled(left, image, r.w, r.h, r.size, n, i, j)
    && input == Joined(left) + rest
  }

  lemma {:induction false} Begin(rest: seq<byte>, r: Rect, before: seq<Pixel>, pieces: seq<Piece>, image: seq<Pixel>,
                                 n: nat)
    requires r.Fits() && |before| == Rows(r.stride, r.height) && |image| == Rows(r.w, r.h)
    requires Tiled(pieces, image, r.w, r.h, r.size, n, 0, 0)
    ensures Progress(Joined(pieces) + rest, rest, r, before, before, pieces, image, n, 0, 0)
  {
    hide Rows, Low, ShownTo, Tiled, Joined;
    NothingShown(r, before, image, n);
  }

  /** The next tile's bytes come first; `after` are the others. */
  lemma {:induction false} TileNext(input: seq<byte>, rest: seq<byte>, r: Rect, before: seq<Pixel>, now: seq<Pixel>,
                                    left: seq<Piece>, image: seq<Pixel>, n: nat, i: nat, j: nat)
    returns (after: seq<byte>)
    requires Progress(input, rest, r, before, now, left, image, n, i, j) && i < r.w && j < r.h
    ensures left != [] && left[0].w == Clip(r.w, i, r.size) && left[0].h == Clip(r.h, j, r.size)
    ensures input == left[0].bytes + after && after == Joined(left[1..]) + rest
  {
    hide Rows, Low, Crop, ShownTo;
    after := Joined(left[1..]) + rest;
  }

  /** Once the tile shows its image the decoder is at the next one. */
  lemma {:induction false} TileDone(input: seq<byte>, after: seq<byte>, rest: seq<byte>, r: Rect,
                                    before: seq<Pixel>, now: seq<Pixel>, left: seq<Piece>, image: seq<Pixel>, n: nat,
                                    i: nat, j: nat, drawn: seq<Pixel>)
    requires Progress(input, rest, r, before, now, left, image, n, i, j) && i < r.w && j < r.h && left != []
    requires after == Joined(left[1..]) + rest && Matches(n, drawn, left[0].image)
    ensures Progress(after, rest, r, before, Blit(now, r.TileArea(i, j), drawn), left[1..], image, n, i + r.size, j)
  {
    hide Rows, Low, Crop, ShownTo, Blit, Joined;
    var w, h := Clip(r.w, i, r.size), Clip(r.h, j, r.size);
    ImageRoom(r, before, now, image, n, i, j);
    MatchesTrans(n, drawn, left[0].image, Crop(image, r.w, i, j, w, h));
    TileShown(r, before, now, image, n, i, j, drawn);
  }

  lemma {:induction false} RowDone(input: seq<byte>, rest: seq<byte>, r: Rect, before: seq<Pixel>, now: seq<Pixel>,
                                   left: seq<Piece>, image: seq<Pixel>, n: nat, i: nat, j: nat)
    requires Progress(input, rest, r, before, now, left, image, n, i, j) && i >= r.w && j < r.h
    ensures Progress(input, rest, r, before, now, left, image, n, 0, j + r.size)
  {
    hide Rows, Low, Crop, ShownTo;
    RowShown(r, before, now, image, n, i, j);
  }

  /** Past the last tile the image is shown and only `rest` is left. */
  lemma {:induction false} Finished(input: seq<byte>, rest: seq<byte>, r: Rect, before: seq<Pixel>, now: seq<Pixel>,
                                    left: seq<Piece>, image: seq<Pixel>, n: nat, j: nat)
    requires Progress(input, rest, r, before, now, left, image, n, 0, j) && j >= r.h
    ensures input == rest
    ensures Shows(before, now, r.stride, r.height, r.x, r.y, r.w, r.h, image, n)
  {
    hide Rows, Low, ShownTo;
    AllShown(r, before, now, image, n, j);
  }
}
