/** A synthesized tile in coordinates: which pixel of the tile carries which coefficient, what each
    pixel is computed from, and in which order the pixels outside the aligned part are sent. */
module ZywrleTile {
  import opened Bytes
  import opened Area
  import opened Bits
  import opened ZywrleWavelet
  import opened ZywrleTraversal
  import opened ZywrleColour
  import opened Zywrle

  lemma {:induction false} IdentityOnce(n: nat, p: nat)
    ensures multiset(Identity(n))[p] == if p < n then 1 else 0
  {
    if n != 0 {
      IdentityOnce(n - 1, p);
      assert Identity(n) == Identity(n - 1) + [n - 1];
    }
  }

  /** The traversal does not come back to a cell. */
  lemma {:induction false} OrderOnce(w: nat, h: nat, level: nat, i: nat, k: nat)
    requires level > 0 && Aligned(w, level) && Aligned(h, level) && i < k < |Order(w, h, level)|
    ensures Order(w, h, level)[i] != Order(w, h, level)[k]
  {
    hide Order, Rows, Aligned, Identity;
    var order := Order(w, h, level);
    OrderIsPermutation(w, h, level);
    IdentityOnce(Rows(w, h), order[i]);
    TwiceIn(order, i, k);
  }

  lemma {:induction false} TwiceIn(ps: seq<nat>, i: nat, k: nat)
    requires i < k < |ps|
    ensures ps[i] == ps[k] ==> multiset(ps)[ps[i]] >= 2
  {
    assert ps == ps[..k] + ps[k..];
    assert ps[..k][i] == ps[i] && ps[k..][0] == ps[k];
    assert ps[i] in multiset(ps[..k]) && ps[k] in multiset(ps[k..]);
  }

  /** A cell visited once holds what its pixel carried. */
  lemma {:induction false} ScatterAt(buf: seq<Cell>, order: seq<nat>, tile: seq<Pixel>, depth: Depth, k: nat)
    requires k < |order| <= |tile| && order[k] < |buf| && forall i :: k < i < |order| ==> order[i] != order[k]
    ensures var c, v := Scatter(buf, order, tile, depth)[order[k]], LoadWord(tile[k], depth);
            c.r == ToSchar(v.r) && c.g == ToSchar(v.g) && c.b == ToSchar(v.b)
  {
    hide LoadWord, ToSchar;
    if k < |order| - 1 {
      ScatterAt(buf, order[..|order| - 1], tile, depth, k);
    }
  }

  /** Coefficient (2u + e, 2v + f) of the grid of level l travels in the colours of one pixel,
      read as signed bytes: red in the red byte, green in the green one and blue in the blue one. */
  lemma {:induction false} CoefficientTravels(buf: seq<Cell>, tile: seq<Pixel>, depth: Depth, w: nat, h: nat,
                                              level: nat, l: nat, r: nat, u: nat, v: nat) returns (k: nat, p: nat)
    requires Aligned(w, level) && Aligned(h, level) && l < level && r < 4 && (r == 0 ==> l == level - 1)
    requires u < Shr(w, l + 1) && v < Shr(h, l + 1) && |Order(w, h, level)| <= |tile| && Rows(w, h) <= |buf|
    ensures p == CellAt(w, (2 * u + (if r == 1 || r == 3 then 1 else 0)) * Pow2(l),
                        (2 * v + (if r >= 2 then 1 else 0)) * Pow2(l))
    ensures k == Rows(w, h) - (r + 1) * Rows(Shr(w, l + 1), Shr(h, l + 1)) + Rows(Shr(w, l + 1), v) + u
    ensures k < |tile| && p < |buf|
    ensures var c, colour := Scatter(buf, Order(w, h, level), tile, depth)[p], LoadWord(tile[k], depth);
            c.r == ToSchar(colour.r) && c.g == ToSchar(colour.g) && c.b == ToSchar(colour.b)
  {
    hide Order, Rows, Aligned, Shr, Pow2, CellAt, LoadWord, ToSchar, Scatter;
    OrderAt(w, h, level, l, r, u, v);
    k := Rows(w, h) - (r + 1) * Rows(Shr(w, l + 1), Shr(h, l + 1)) + Rows(Shr(w, l + 1), v) + u;
    p := CellAt(w, (2 * u + (if r == 1 || r == 3 then 1 else 0)) * Pow2(l),
                (2 * v + (if r >= 2 then 1 else 0)) * Pow2(l));
    OrderBelow(w, h, level);
    var order := Order(w, h, level);
    forall i | k < i < |order|
      ensures order[i] != order[k]
    {
      OrderOnce(w, h, level, k, i);
    }
    ScatterAt(buf, order, tile, depth, k);
  }

  /** The pixel in column x and row y of a synthesized tile. Inside the aligned part it has the
      colour of the decoded coefficients of the same column and row, and the bits the depth does
      not use from the tile; outside it is a whole pixel sent after the coefficients. */
  lemma {:induction false} SynthesizedPlace(tile: seq<Pixel>, width: nat, height: nat, level: nat, depth: Depth,
                                            x: nat, y: nat)
    requires level > 0 && |tile| == Rows(width, height) && x < width && y < height
    ensures var w, h, k := CalcSize(width, level), CalcSize(height, level), CellAt(width, x, y);
            && k < |tile| && |Order(w, h, level)| <= |tile|
            && var p := Synthesized(tile, width, height, level, depth)[k];
               if w == 0 || h == 0 then p == tile[k]
               else if x < w && y < h then
                 && CellAt(w, x, y) < Rows(w, h)
                 && p == SaveWord(tile[k], ToRgb(Decoded(tile, w, h, level, depth)[CellAt(w, x, y)]), depth)
               else
                 && FringeSource(width, height, w, h, x, y) < |tile|
                 && p == tile[FringeSource(width, height, w, h, x, y)] %
                         (if depth == Bits16 then 0x1_0000 else 0x1_0000_0000)
  {
    hide Rows, CalcSize, Order, Decoded, CursorAt, SaveWord, ToRgb, FringeSource;
    var w, h, k := CalcSize(width, level), CalcSize(height, level), CellAt(width, x, y);
    RowsIsProduct(width, y);
    RowsIsProduct(w, y);
    InsideRows(width, height, x, y);
    CursorIs(width, k, x, y);
    DecodedFits(width, height, level);
    if x < w && y < h {
      InsideRows(w, h, x, y);
    } else {
      FringeInside(width, height, w, h, x, y);
    }
  }

  /** The pixels after the coefficients are those right of the aligned part, row after row, then
      those below it, row after row, and last those below and to the right. */
  lemma {:induction false} FringeOrder(width: nat, height: nat, w: nat, h: nat, x: nat, y: nat)
    requires x < width && w <= width && y < height && h <= height && !(x < w && y < h)
    ensures var k := FringeSource(width, height, w, h, x, y);
            && (x == w && y == 0 && 0 < h ==> k == w * h)
            && (x + 1 < width && (x + 1 != w || y < h) ==> FringeSource(width, height, w, h, x + 1, y) == k + 1)
            && (x == width - 1 && y + 1 < h ==> FringeSource(width, height, w, h, w, y + 1) == k + 1)
            && (x == 0 && y == h && 0 < w ==> k == width * h)
            && (x + 1 == w && h <= y && y + 1 < height ==> FringeSource(width, height, w, h, 0, y + 1) == k + 1)
            && (x == w && y == h ==> k == width * h + w * (height - h))
            && (x == width - 1 && w <= x && h <= y && y + 1 < height ==>
                  FringeSource(width, height, w, h, w, y + 1) == k + 1)
  {
    RowsIsProduct(w, h);
    RowsIsProduct(width, h);
    RowsIsProduct(w, height - h);
  }

  /** The aligned size is the largest multiple of 2^level that fits. */
  lemma {:induction false} CalcSizeIsLargest(n: nat, level: nat)
    ensures CalcSize(n, level) % Pow2(level) == 0 && CalcSize(n, level) <= n < CalcSize(n, level) + Pow2(level)
  {
    hide Pow2;
    CalcSizeAligned(n, level);
  }

  /** The three levels in use round down to multiples of 2, 4 and 8. */
  lemma {:induction false} CalcSizeUsed(n: nat)
    ensures CalcSize(n, 1) == n - n % 2 && CalcSize(n, 2) == n - n % 4 && CalcSize(n, 3) == n - n % 8
  {
    assert Pow2(1) == 2 && Pow2(2) == 4 && Pow2(3) == 8;
  }
}
