/** Tile codes by value: what each byte of a run, a palette index or a type means, and where in a rectangle
    each tile is. */
module TileWire {
  import opened Bytes
  import opened Bits
  import opened Area
  import opened Tiles
  import opened TileCode

  /** n as a run length less one: as many bytes of 255 as fit, then what is left, less than 255. */
  lemma {:induction false} LengthMeaning(n: nat)
    ensures |LengthBytes(n)| == n / 255 + 1
    ensures forall k :: 0 <= k < n / 255 ==> LengthBytes(n)[k] == 255
    ensures LengthBytes(n)[n / 255] == n % 255
  {
    if n >= 255 {
      LengthMeaning(n - 255);
      DivModUnique(n, 255, (n - 255) / 255 + 1, (n - 255) % 255);
    }
  }

  /** A plain run: the colour, then the length. A run of a palette index: the index alone for one pixel;
      else the index with its top bit set, then the length. */
  lemma {:induction false} RunMeaning(r: Run, n: nat)
    requires r.len > 0
    ensures var bs := PlainRun(r, n);
            && n < |bs| && bs[..n] == ToBytes(r.value, n)
            && r.len == 255 * (|bs| - n - 1) + (bs[|bs| - 1] as int) + 1
    ensures r.value < 128 ==>
              var bs := IndexRun(r);
              && |bs| > 0 && bs[0] % 128 == r.value && (r.len == 1 <==> bs[0] < 128) && (r.len == 1 <==> |bs| == 1)
              && (r.len > 1 ==> r.len == 255 * (|bs| - 2) + (bs[|bs| - 1] as int) + 1)
  {
    LengthMeaning(r.len - 1);
    var lengths := LengthBytes(r.len - 1);
    assert PlainRun(r, n)[n + |lengths| - 1] == lengths[|lengths| - 1];
    if r.value < 128 && r.len > 1 {
      assert IndexRun(r)[|lengths|] == lengths[|lengths| - 1];
    }
  }

  /** The pixels of a run are where the runs before it end. */
  lemma {:induction false} RunPixels(runs: seq<Run>, r: nat, k: nat)
    requires r < |runs| && k < runs[r].len
    ensures |Expand(runs[..r])| + k < |Expand(runs)| && Expand(runs)[|Expand(runs[..r])| + k] == runs[r].value
    decreases |runs|
  {
    var last := |runs| - 1;
    if r < last {
      assert runs[..last][..r] == runs[..r];
      RunPixels(runs[..last], r, k);
    }
  }

  /** Row j of packed indices is row j of the tile. */
  lemma {:induction false} PackedPixels(rows: seq<seq<nat>>, w: nat, colours: nat, i: nat, j: nat)
    requires RowsOf(rows, w, colours) && i < w && j < |rows|
    ensures Rows(w, j) + i < |Flatten(rows)| && Flatten(rows)[Rows(w, j) + i] == rows[j][i]
    decreases |rows|
  {
    hide Rows;
    var last := |rows| - 1;
    FlattenLength(rows[..last], w, colours);
    if j < last {
      PackedPixels(rows[..last], w, colours, i, j);
    }
  }

  /** Palette indices take the fewest of 1, 2, 4 and 8 bits that tell the colours apart. */
  lemma {:induction false} FewestBits(colours: nat)
    requires colours <= 128
    ensures var bits := IndexBits(colours);
            && bits in {1, 2, 4, 8} && colours <= Pow2(bits) && (bits > 1 ==> colours > Pow2(bits / 2))
  {
    PowersOfTwo();
  }

  /** Index i of a packed row: the leftmost of a byte is in its most significant bits. */
  lemma {:induction false} IndexPlace(idx: seq<nat>, bpp: nat, i: nat)
    requires IsIndexBits(bpp) && SmallIndices(idx, bpp) && i < |idx|
    ensures IndexAt(PackRow(idx, bpp), bpp, i, idx[i])
  {
    hide PackRow, PackByte, CursorAt, SmallIndices, Rows, Pow2;
    var d := PerByte(bpp);
    PackRowAt(idx, bpp, i);
    PackRowLength(idx, bpp);
    RowsIsProduct(d, i / d);
    CursorIs(d, i, i % d, i / d);
    RowsIsProduct(bpp, i % d);
    PowersOfTwo();
  }

  predicate IndexAt(bs: seq<byte>, bpp: nat, i: nat, index: nat) {
    match bpp
    case 8 => i < |bs| && index == bs[i]
    case 4 => i / 2 < |bs| && index == bs[i / 2] / [16, 1][i % 2] % 16
    case 2 => i / 4 < |bs| && index == bs[i / 4] / [64, 16, 4, 1][i % 4] % 4
    case _ => i / 8 < |bs| && index == bs[i / 8] / [128, 64, 32, 16, 8, 4, 2, 1][i % 8] % 2
  }

  /** The first byte of a tile tells its kind. */
  lemma {:induction false} FirstByteOf(code: Code, n: nat, w: nat, h: nat)
    requires Codes(code, w, h, 127)
    ensures var b := Encode(code, n, w, h)[0];
            && (code.Raw? <==> b == 0) && (code.Solid? <==> b == 1) && (code.Packed? <==> 2 <= b <= 127)
            && (code.Plain? <==> b == 128) && (code.Indexed? <==> b >= 130)
            && (code.Packed? ==> b == |code.palette|) && (code.Indexed? ==> b == 128 + |code.palette|)
  {
    hide PixelBytes, PackRows, PlainRuns, IndexRuns, ToBytes;
  }

  /** Along a row of tiles, each is `size` further to the right. */
  lemma {:induction false} RowOfTiles(pieces: seq<Piece>, image: seq<Pixel>, rw: nat, rh: nat, size: nat, n: nat,
                                      i: nat, j: nat, d: nat)
    requires size > 0 && Rows(rw, rh) <= |image| && Tiled(pieces, image, rw, rh, size, n, i, j) && j < rh
    requires d > 0 ==> i + (d - 1) * size < rw
    ensures d <= |pieces| && Tiled(pieces[d..], image, rw, rh, size, n, i + d * size, j)
    decreases d
  {
    hide Rows, Crop, Low;
    if d == 0 {
      assert pieces[0..] == pieces;
    } else {
      Once(d, size);
      RowOfTiles(pieces[1..], image, rw, rh, size, n, i + size, j, d - 1);
      assert pieces[1..][d - 1..] == pieces[d..];
    }
  }

  lemma {:induction false} Once(d: nat, size: nat)
    requires d > 0
    ensures d * size == (d - 1) * size + size
    ensures d > 1 ==> (d - 1) * size == (d - 2) * size + size
  {
  }

  /** The tiles of each further row come after those of the row above. */
  lemma {:induction false} TileRow(pieces: seq<Piece>, image: seq<Pixel>, rw: nat, rh: nat, size: nat, n: nat, m: nat,
                                   r: nat)
    requires size > 0 && Rows(rw, rh) <= |image| && Tiled(pieces, image, rw, rh, size, n, 0, 0)
    requires m > 0 && (m - 1) * size < rw <= m * size && r * size < rh
    ensures Rows(m, r) <= |pieces| && Tiled(pieces[Rows(m, r)..], image, rw, rh, size, n, 0, r * size)
  {
    hide Crop, Low, Tiled, Rows;
    RowsZero(m);
    if r == 0 {
      assert pieces[0..] == pieces;
    } else {
      Once(r, size);
      RowsNext(m, r - 1);
      TileRow(pieces, image, rw, rh, size, n, m, r - 1);
      var left := pieces[Rows(m, r - 1)..];
      RowOfTiles(left, image, rw, rh, size, n, 0, (r - 1) * size, m);
      RowEnd(left[m..], image, rw, rh, size, n, m * size, (r - 1) * size);
      assert left[m..] == pieces[Rows(m, r)..];
    }
  }

  lemma {:induction false} RowEnd(pieces: seq<Piece>, image: seq<Pixel>, rw: nat, rh: nat, size: nat, n: nat, i: nat,
                                  j: nat)
    requires size > 0 && Rows(rw, rh) <= |image| && Tiled(pieces, image, rw, rh, size, n, i, j)
    requires 0 < rw <= i && j < rh
    ensures Tiled(pieces, image, rw, rh, size, n, 0, j + size)
  {
    hide Rows, Crop, Low;
  }

  /** A piece is the part of the image from (i, j) on, `size` wide and high unless the rectangle ends
      before. */
  ghost predicate IsTile(p: Piece, image: seq<Pixel>, rw: nat, rh: nat, size: nat, n: nat, i: nat, j: nat) {
    && i < rw && j < rh
    && p.w == (if rw - i < size then rw - i else size) && p.h == (if rh - j < size then rh - j else size)
    && Rows(rw, j + p.h) <= |image| && Matches(n, p.image, Crop(image, rw, i, j, p.w, p.h))
  }

  lemma {:induction false} FirstTile(pieces: seq<Piece>, image: seq<Pixel>, rw: nat, rh: nat, size: nat, n: nat, i: nat,
                                     j: nat)
    requires size > 0 && Rows(rw, rh) <= |image| && Tiled(pieces, image, rw, rh, size, n, i, j) && i < rw && j < rh
    ensures pieces != [] && IsTile(pieces[0], image, rw, rh, size, n, i, j)
  {
    hide Rows, Crop, Low;
    RowsMonotonic(rw, j + Clip(rh, j, size), rh);
  }

  /** Of m tiles a row, tile k == r * m + c is the one in column c and row r: left to right, then top to
      bottom. */
  lemma {:induction false} TilePlace(pieces: seq<Piece>, image: seq<Pixel>, rw: nat, rh: nat, size: nat, n: nat, m: nat,
                                     c: nat, r: nat, k: nat)
    requires k == r * m + c && size > 0 && Rows(rw, rh) <= |image| && Tiled(pieces, image, rw, rh, size, n, 0, 0)
    requires m > 0 && (m - 1) * size < rw <= m * size && c < m && r * size < rh
    ensures k < |pieces| && IsTile(pieces[k], image, rw, rh, size, n, c * size, r * size)
  {
    hide Tiled, IsTile, Rows;
    RowsIsProduct(m, r);
    if c < m - 1 {
      LastPlace(c, m - 1, size);
    }
    TileRow(pieces, image, rw, rh, size, n, m, r);
    var left := pieces[Rows(m, r)..];
    if c > 0 {
      Once(c, size);
    }
    RowOfTiles(left, image, rw, rh, size, n, 0, r * size, c);
    FirstTile(left[c..], image, rw, rh, size, n, c * size, r * size);
    assert left[c..][0] == pieces[Rows(m, r) + c];
  }
}
