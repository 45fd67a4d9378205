/** What TRLE tiles take over from earlier ones, said of whole runs of tiles. */
module TrleCarry {
  import opened Bytes
  import opened Area
  import opened Tiles
  import opened TileCode
  import opened Trle

  /** What has been carried over once the tiles are decoded. */
  function After(tiles: seq<TrleCode>): Carried {
    if tiles == [] then FIRST else CarryOn(tiles[|tiles| - 1], After(tiles[..|tiles| - 1]))
  }

  /** Tiles with a colour or a palette of their own. Raw and plain-RLE tiles have neither. */
  predicate HasColours(t: TrleCode) {
    t.Fresh? && (t.code.Solid? || t.code.Packed? || t.code.Indexed?)
  }

  predicate HasPalette(t: TrleCode) {
    t.Fresh? && (t.code.Packed? || t.code.Indexed?)
  }

  /** The latest of the tiles that has a palette. */
  ghost predicate LastPalette(tiles: seq<TrleCode>, m: int) {
    -1 <= m < |tiles| && (m >= 0 ==> HasPalette(tiles[m])) && forall i :: m < i < |tiles| ==> !HasPalette(tiles[i])
  }

  ghost predicate LastColours(tiles: seq<TrleCode>, m: int) {
    -1 <= m < |tiles| && (m >= 0 ==> HasColours(tiles[m])) && forall i :: m < i < |tiles| ==> !HasColours(tiles[i])
  }

  /** Tiles that take their colours over leave them to the next. */
  lemma {:induction false} ColoursCarried(tiles: seq<TrleCode>, m: int)
    requires LastColours(tiles, m)
    ensures After(tiles).last ==
            if m < 0 then Nothing else if tiles[m].code.Solid? then Colour(tiles[m].code.colour) else Palette
    decreases |tiles|
  {
    if tiles != [] && m < |tiles| - 1 {
      var init := tiles[..|tiles| - 1];
      ColoursCarried(init, m);
      assert !HasColours(tiles[|tiles| - 1]);
    }
  }

  lemma {:induction false} PaletteCarried(tiles: seq<TrleCode>, m: int)
    requires LastPalette(tiles, m)
    ensures After(tiles).palette == if m < 0 then [] else tiles[m].code.palette
    decreases |tiles|
  {
    if tiles != [] && m < |tiles| - 1 {
      var init := tiles[..|tiles| - 1];
      PaletteCarried(init, m);
      assert !HasPalette(tiles[|tiles| - 1]);
    }
  }

  /** Piece k is tile k, which takes over from the tiles before it. */
  ghost predicate IsPiece(tiles: seq<TrleCode>, pieces: seq<Piece>, n: nat, k: nat)
    requires k < |tiles| == |pieces|
  {
    var t, c, w, h := tiles[k], After(tiles[..k]), pieces[k].w, pieces[k].h;
    && ValidTile(t, c, w, h)
    && pieces[k].bytes == TileBytes(t, c, n, w, h) && pieces[k].image == TileImage(t, c, w, h)
  }

  /** A run of tiles, tile by tile. */
  lemma {:induction false} CodedTiles(tiles: seq<TrleCode>, pieces: seq<Piece>, n: nat)
    requires |tiles| == |pieces|
    ensures Coded(tiles, FIRST, pieces, n) <==> forall k :: 0 <= k < |tiles| ==> IsPiece(tiles, pieces, n, k)
  {
    hide IsPiece;
    assert tiles[..0] == [] && tiles[0..] == tiles && pieces[0..] == pieces;
    CodedFrom(tiles, pieces, n, 0);
  }

  lemma {:induction false} CodedFrom(tiles: seq<TrleCode>, pieces: seq<Piece>, n: nat, i: nat)
    requires i <= |tiles| == |pieces|
    ensures Coded(tiles[i..], After(tiles[..i]), pieces[i..], n) <==>
            forall k :: i <= k < |tiles| ==> IsPiece(tiles, pieces, n, k)
    decreases |tiles| - i
  {
    hide TileBytes, TileImage, ValidTile, CarryOn;
    if i < |tiles| {
      CodedFrom(tiles, pieces, n, i + 1);
      assert tiles[i..][1..] == tiles[i + 1..] && pieces[i..][1..] == pieces[i + 1..];
      assert tiles[..i + 1][..i] == tiles[..i];
      assert Coded(tiles[i..], After(tiles[..i]), pieces[i..], n) <==>
             IsPiece(tiles, pieces, n, i) && Coded(tiles[i + 1..], After(tiles[..i + 1]), pieces[i + 1..], n);
    }
  }

  /** A tile that takes over a colour is the byte 127. It has the colour of the latest tile with colours of
      its own, which is a solid one. */
  lemma {:induction false} SameColour(tiles: seq<TrleCode>, pieces: seq<Piece>, n: nat, k: nat, m: int)
    requires Coded(tiles, FIRST, pieces, n) && k < |tiles| == |pieces| && tiles[k] == SameSolid
    requires LastColours(tiles[..k], m)
    ensures m >= 0 && tiles[m].code.Solid? && pieces[k].bytes == [127]
    ensures pieces[k].image == Filled(tiles[m].code.colour, Rows(pieces[k].w, pieces[k].h))
  {
    hide Rows, Coded;
    CodedTiles(tiles, pieces, n);
    assert IsPiece(tiles, pieces, n, k);
    ColoursCarried(tiles[..k], m);
  }

  /** A packed tile that takes over a palette is the byte 127 and its indices. They are those of the
      palette of the latest tile with colours of its own, also if that one was coded by palette RLE. */
  lemma {:induction false} SamePackedPalette(tiles: seq<TrleCode>, pieces: seq<Piece>, n: nat, k: nat, m: int)
    requires Coded(tiles, FIRST, pieces, n) && k < |tiles| == |pieces| && tiles[k].SamePacked?
    requires LastColours(tiles[..k], m)
    ensures m >= 0 && HasPalette(tiles[m]) && |tiles[m].code.palette| <= 16
    ensures var w, palette := pieces[k].w, tiles[m].code.palette;
            && RowsOf(tiles[k].rows, w, |palette|) && pieces[k].image == Look(palette, Flatten(tiles[k].rows))
            && pieces[k].bytes == [127] + PackRows(tiles[k].rows, w, |palette|)
  {
    hide Rows, Coded, PackRows;
    CodedTiles(tiles, pieces, n);
    assert IsPiece(tiles, pieces, n, k);
    ColoursCarried(tiles[..k], m);
    assert LastPalette(tiles[..k], m);
    PaletteCarried(tiles[..k], m);
  }

  /** A palette RLE tile that takes over a palette is the byte 129 and its runs. The palette is that of the
      latest tile with one, even if solid tiles came in between. */
  lemma {:induction false} SameIndexedPalette(tiles: seq<TrleCode>, pieces: seq<Piece>, n: nat, k: nat, m: int)
    requires Coded(tiles, FIRST, pieces, n) && k < |tiles| == |pieces| && tiles[k].SameIndexed?
    requires LastPalette(tiles[..k], m)
    ensures var palette := if m < 0 then [] else tiles[m].code.palette;
            && |palette| <= 127 && IndexRunsFor(tiles[k].runs, |palette|)
            && pieces[k].image == Look(palette, Expand(tiles[k].runs))
            && pieces[k].bytes == [129] + IndexRuns(tiles[k].runs, |palette|)
  {
    hide Rows, Coded, IndexRuns;
    CodedTiles(tiles, pieces, n);
    assert IsPiece(tiles, pieces, n, k);
    PaletteCarried(tiles[..k], m);
  }

  /** What a tile may take over: a colour exactly if the latest tile with colours of its own was solid; a
      palette for packed indices exactly if that tile had one of 2 to 16 colours. */
  lemma {:induction false} MayTakeOver(tiles: seq<TrleCode>, m: int, rows: seq<seq<nat>>, w: nat, h: nat)
    requires LastColours(tiles, m)
    ensures ValidTile(SameSolid, After(tiles), w, h) <==> m >= 0 && tiles[m].code.Solid?
    ensures ValidTile(SamePacked(rows), After(tiles), w, h) <==>
            && m >= 0 && HasPalette(tiles[m]) && 2 <= |tiles[m].code.palette| <= 16
            && |rows| == h && RowsOf(rows, w, |tiles[m].code.palette|)
  {
    hide RowsOf;
    ColoursCarried(tiles, m);
    if m >= 0 && HasPalette(tiles[m]) {
      assert LastPalette(tiles, m);
      PaletteCarried(tiles, m);
    }
  }
}
