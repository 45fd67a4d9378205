/** Rectangles inside a strided framebuffer.

    A framebuffer is one flat sequence of pixels, `stride` pixels a row. An image is the flat
    row-major sequence of the pixels of a rectangle. Every decoder draws an image one pixel at
    a time in that order, so what it draws is a fold, `Blit`; the lemmas of this module say
    what a blit means pixel by pixel. */
module Area {
  import opened Bytes

  /** n rows of `stride` pixels each. Defined by repeated addition, the way the drawing loops
      step, so that no reasoning about it needs multiplication; see RowsIsProduct. */
  function Rows(stride: nat, n: nat): (r: nat)
    ensures n == 0 ==> r == 0
    ensures n > 0 ==> r >= stride
  {
    if n == 0 then 0 else Rows(stride, n - 1) + stride
  }

  lemma {:induction false} RowsIsProduct(stride: nat, n: nat)
    ensures Rows(stride, n) == stride * n
  {
    if n != 0 {
      RowsIsProduct(stride, n - 1);
      assert stride * n == stride * (n - 1) + stride;
    }
  }

  /** The offset of row y, as the code computes it. */
  method RowOffset(stride: nat, y: nat) returns (offset: nat)
    ensures offset == Rows(stride, y)
  {
    RowsIsProduct(stride, y);
    offset := y * stride;
  }

  lemma {:induction false} RowsMonotonic(stride: nat, m: nat, n: nat)
    requires m <= n
    ensures Rows(stride, m) <= Rows(stride, n)
    ensures m < n ==> Rows(stride, m) + stride <= Rows(stride, n)
  {
    if m < n {
      RowsMonotonic(stride, m, n - 1);
    }
  }

  lemma {:induction false} RowsZero(stride: nat)
    ensures Rows(stride, 0) == 0
  {
  }

  lemma {:induction false} RowsNext(stride: nat, n: nat)
    ensures Rows(stride, n + 1) == Rows(stride, n) + stride
  {
  }

  lemma {:induction false} RowsAdd(stride: nat, m: nat, n: nat)
    ensures Rows(stride, m + n) == Rows(stride, m) + Rows(stride, n)
  {
    if n != 0 {
      RowsAdd(stride, m, n - 1);
      assert m + n - 1 == m + (n - 1);
    }
  }

  lemma {:induction false} RowsSplit(w: nat, v: nat, n: nat)
    ensures Rows(w, n) + Rows(v, n) == Rows(w + v, n)
  {
    if n != 0 {
      RowsSplit(w, v, n - 1);
    }
  }

  /** A flat offset names one row and one column only. */
  lemma {:induction false} RowsInjective(stride: nat, x: nat, y: nat, x': nat, y': nat)
    requires x < stride && x' < stride
    requires Rows(stride, y) + x == Rows(stride, y') + x'
    ensures x == x' && y == y'
  {
    if y < y' {
      RowsMonotonic(stride, y, y');
    } else if y' < y {
      RowsMonotonic(stride, y', y);
    }
  }

  /** Column i and row j reached after k pixels of a w-pixel-wide rectangle. */
  datatype Cursor = Cursor(i: nat, j: nat)

  function Advance(c: Cursor, w: nat): Cursor {
    if c.i + 1 >= w then Cursor(0, c.j + 1) else Cursor(c.i + 1, c.j)
  }

  function CursorAt(w: nat, k: nat): (c: Cursor)
    requires w > 0
    ensures c.i < w
  {
    if k == 0 then Cursor(0, 0) else Advance(CursorAt(w, k - 1), w)
  }

  /** The cursor is the quotient and remainder of k by w. */
  lemma {:induction false} CursorOffset(w: nat, k: nat)
    requires w > 0
    ensures var c := CursorAt(w, k); Rows(w, c.j) + c.i == k
  {
    if k != 0 {
      CursorOffset(w, k - 1);
    }
  }

  lemma {:induction false} CursorIs(w: nat, k: nat, i: nat, j: nat)
    requires i < w && Rows(w, j) + i == k
    ensures CursorAt(w, k) == Cursor(i, j)
  {
    CursorOffset(w, k);
    var c := CursorAt(w, k);
    RowsInjective(w, i, j, c.i, c.j);
  }

  /** A rectangle w pixels wide with its top-left corner at (x, y). */
  datatype Area = Area(stride: nat, x: nat, y: nat, w: nat)

  function Offset(a: Area, i: nat, j: nat): nat {
    Rows(a.stride, a.y + j) + a.x + i
  }

  function PixelOffset(a: Area, k: nat): nat
    requires a.w > 0
  {
    var c := CursorAt(a.w, k);
    Offset(a, c.i, c.j)
  }

  /** Draw the pixels of img into the area, in row-major order. */
  function Blit(fb: seq<Pixel>, a: Area, img: seq<Pixel>): (r: seq<Pixel>)
    ensures |r| == |fb|
  {
    if img == [] || a.w == 0 then fb
    else
      var k := |img| - 1;
      var prev := Blit(fb, a, img[..k]);
      var p := PixelOffset(a, k);
      if p < |fb| then prev[p := img[k]] else prev
  }

  lemma {:induction false} BlitNone(fb: seq<Pixel>, a: Area)
    ensures Blit(fb, a, []) == fb
  {
  }

  lemma {:induction false} BlitNext(fb: seq<Pixel>, a: Area, img: seq<Pixel>, c: Pixel)
    requires a.w > 0 && PixelOffset(a, |img|) < |fb|
    ensures Blit(fb, a, img + [c]) == Blit(fb, a, img)[PixelOffset(a, |img|) := c]
  {
    assert (img + [c])[..|img|] == img;
  }

  /** Why a row loop that steps by the stride has visited all h rows when it stops. */
  lemma {:induction false} RowsReached(stride: nat, w: nat, y: nat, row: nat, h: nat)
    requires row <= h && w <= stride && Rows(stride, y + row) >= Rows(stride, y + h)
    ensures Rows(w, row) == Rows(w, h)
    ensures w > 0 ==> row == h
  {
    if row < h {
      RowsMonotonic(stride, y + row, y + h);
      RowsIsProduct(w, row);
      RowsIsProduct(w, h);
    }
  }

  /** Whether (x, y) is one of the first n pixels of the area. */
  predicate Covers(a: Area, n: nat, x: nat, y: nat) {
    && a.x <= x < a.x + a.w
    && a.y <= y
    && Rows(a.w, y - a.y) + (x - a.x) < n
  }

  /** What a blit leaves at (x, y): the image's pixel if it covers that place, else the old one. */
  lemma {:induction false} BlitAt(fb: seq<Pixel>, a: Area, img: seq<Pixel>, x: nat, y: nat)
    requires x < a.stride && a.x + a.w <= a.stride
    requires Rows(a.stride, y) + x < |fb|
    ensures Blit(fb, a, img)[Rows(a.stride, y) + x] ==
            if Covers(a, |img|, x, y) then img[Rows(a.w, y - a.y) + (x - a.x)]
            else fb[Rows(a.stride, y) + x]
  {
    hide Rows, CursorAt;
    if img != [] && a.w > 0 {
      var k := |img| - 1;
      BlitAt(fb, a, img[..k], x, y);
      CursorOffset(a.w, k);
      var c := CursorAt(a.w, k);
      var p := PixelOffset(a, k);
      if Rows(a.stride, y) + x == p {
        RowsInjective(a.stride, x, y, a.x + c.i, a.y + c.j);
      } else if Covers(a, |img|, x, y) && Rows(a.w, y - a.y) + (x - a.x) == k {
        RowsInjective(a.w, x - a.x, y - a.y, c.i, c.j);
      }
    }
  }

  /** The last pixel of an h-row rectangle that fits a framebuffer is inside it, and so are all others. */
  lemma {:induction false} PixelInside(a: Area, h: nat, height: nat, k: nat)
    requires a.w > 0 && a.x + a.w <= a.stride && a.y + h <= height
    requires k < Rows(a.w, h)
    ensures PixelOffset(a, k) < Rows(a.stride, height)
  {
    CursorOffset(a.w, k);
    var c := CursorAt(a.w, k);
    if c.j >= h {
      RowsMonotonic(a.w, h, c.j);
    }
    RowsMonotonic(a.stride, a.y + c.j, height);
  }

  /** Drawing the next pixel, column i of row `row`, in a rectangle that fits the framebuffer. */
  lemma {:induction false} DrawNext(fb: seq<Pixel>, height: nat, a: Area, h: nat, drawn: seq<Pixel>, i: nat, row: nat,
                                    c: Pixel)
    requires |fb| == Rows(a.stride, height)
    requires a.x + a.w <= a.stride && a.y + h <= height
    requires i < a.w && row < h && |drawn| == Rows(a.w, row) + i
    ensures Offset(a, i, row) < |fb| && |drawn| < Rows(a.w, h)
    ensures Blit(fb, a, drawn + [c]) == Blit(fb, a, drawn)[Offset(a, i, row) := c]
  {
    CursorIs(a.w, |drawn|, i, row);
    RowsMonotonic(a.w, row, h);
    PixelInside(a, h, height, |drawn|);
    BlitNext(fb, a, drawn, c);
  }

  /** Write pixel c at offset p, which is column i of row `row` of the rectangle being drawn. */
  method Draw(fb: array<Pixel>, p: nat, c: Pixel, ghost before: seq<Pixel>, ghost height: nat,
              ghost a: Area, ghost h: nat, ghost drawn: seq<Pixel>, ghost i: nat, ghost row: nat)
    requires |before| == Rows(a.stride, height)
    requires a.x + a.w <= a.stride && a.y + h <= height
    requires i < a.w && row < h && |drawn| == Rows(a.w, row) + i
    requires p == Offset(a, i, row) && fb[..] == Blit(before, a, drawn)
    modifies fb
    ensures fb[..] == Blit(before, a, drawn + [c])
  {
    DrawNext(before, height, a, h, drawn, i, row, c);
    assert fb.Length == |before|;
    fb[p] := c;
  }

  /** n pixels of one colour. */
  function Filled(c: Pixel, n: nat): (img: seq<Pixel>)
    ensures |img| == n
  {
    seq(n, _ => c)
  }

  /** A drawing in progress: the framebuffer as it was, `screen` rows high, and the w x h
      rectangle being drawn, w and its place given by `a`. */
  datatype Pen = Pen(before: seq<Pixel>, screen: nat, a: Area, h: nat) {
    ghost predicate Drew(fb: seq<Pixel>, drawn: seq<Pixel>) {
      && |before| == Rows(a.stride, screen) && a.w > 0
      && a.x + a.w <= a.stride && a.y + h <= screen
      && |drawn| <= Rows(a.w, h) && fb == Blit(before, a, drawn)
    }
  }

  /** The cursor is inside the rectangle exactly while pixels remain. */
  lemma {:induction false} CursorDone(w: nat, h: nat, k: nat)
    requires w > 0
    ensures CursorAt(w, k).j < h <==> k < Rows(w, h)
  {
    CursorOffset(w, k);
    var c := CursorAt(w, k);
    if c.j < h {
      InsideRows(w, h, c.i, c.j);
    } else {
      RowsMonotonic(w, h, c.j);
    }
  }

  function Min(x: nat, y: nat): nat {
    if x < y then x else y
  }

  /** Draw a run of one colour from the cursor (i0, j0) on, at most to the end of the rectangle. */
  method DrawRun(fb: array<Pixel>, a: Area, h: nat, i0: nat, j0: nat, colour: Pixel, length: nat,
                 ghost pen: Pen, ghost drawn0: seq<Pixel>)
    returns (i: nat, j: nat, ghost drawn: seq<Pixel>)
    requires pen.a == a && pen.h == h && pen.Drew(fb[..], drawn0) && CursorAt(a.w, |drawn0|) == Cursor(i0, j0)
    modifies fb
    ensures pen.Drew(fb[..], drawn) && CursorAt(a.w, |drawn|) == Cursor(i, j)
    ensures drawn == drawn0 + Filled(colour, Min(length, Rows(a.w, h) - |drawn0|))
  {
    hide Rows, Blit;
    i, j, drawn := i0, j0, drawn0;
    var left := length;
    while j < h && left > 0
      invariant 0 <= left <= length
      invariant pen.Drew(fb[..], drawn) && CursorAt(a.w, |drawn|) == Cursor(i, j)
      invariant drawn == drawn0 + Filled(colour, length - left)
      decreases left
    {
      CursorDone(a.w, h, |drawn|);
      CursorOffset(a.w, |drawn|);
      var row := RowOffset(a.stride, a.y + j);
      Draw(fb, row + a.x + i, colour, pen.before, pen.screen, a, h, drawn, i, j);
      drawn := drawn + [colour];
      left := left - 1;
      i := i + 1;
      if i >= a.w {
        i := 0;
        j := j + 1;
      }
    }
    CursorDone(a.w, h, |drawn|);
  }

  /** `after` shows the rw x rh image at (rx, ry), matched on the low n bytes of each pixel, and
      keeps every other pixel of `before`. */
  ghost predicate Shows(before: seq<Pixel>, after: seq<Pixel>, stride: nat, height: nat,
                        rx: nat, ry: nat, rw: nat, rh: nat, image: seq<Pixel>, n: nat)
  {
    && |before| == |after| == Rows(stride, height)
    && |image| == Rows(rw, rh)
    && forall x: nat, y: nat :: x < stride && y < height ==>
         ShowsAt(before, after, stride, rx, ry, rw, rh, image, n, x, y)
  }

  ghost predicate ShowsAt(before: seq<Pixel>, after: seq<Pixel>, stride: nat,
                          rx: nat, ry: nat, rw: nat, rh: nat, image: seq<Pixel>, n: nat, x: nat, y: nat)
  {
    var p := Rows(stride, y) + x;
    && p < |before| && p < |after|
    && if rx <= x < rx + rw && ry <= y < ry + rh then
         var q := Rows(rw, y - ry) + (x - rx);
         q < |image| && Low(after[p], n) == Low(image[q], n)
       else after[p] == before[p]
  }

  /** Images that agree on the low n bytes of every pixel. */
  ghost predicate Matches(n: nat, a: seq<Pixel>, b: seq<Pixel>) {
    |a| == |b| && forall k :: 0 <= k < |a| ==> Low(a[k], n) == Low(b[k], n)
  }

  lemma {:induction false} InsideRows(w: nat, h: nat, i: nat, j: nat)
    requires i < w && j < h
    ensures Rows(w, j) + i < Rows(w, h)
  {
    RowsMonotonic(w, j, h);
  }

  ghost predicate SameAt(a: seq<Pixel>, b: seq<Pixel>, stride: nat, x: nat, y: nat) {
    var p := Rows(stride, y) + x;
    p < |a| && p < |b| && a[p] == b[p]
  }

  /** Framebuffers that agree at every place are equal. */
  lemma {:induction false} SameEverywhere(a: seq<Pixel>, b: seq<Pixel>, stride: nat, height: nat)
    requires stride > 0 && |a| == |b| == Rows(stride, height)
    requires forall x: nat, y: nat :: x < stride && y < height ==> SameAt(a, b, stride, x, y)
    ensures a == b
  {
    forall p | 0 <= p < |a|
      ensures a[p] == b[p]
    {
      CursorOffset(stride, p);
      var c := CursorAt(stride, p);
      if c.j >= height {
        RowsMonotonic(stride, height, c.j);
      }
      assert SameAt(a, b, stride, c.i, c.j);
    }
  }

  lemma {:induction false} CoversWhole(a: Area, h: nat, x: nat, y: nat)
    ensures Covers(a, Rows(a.w, h), x, y) <==> a.x <= x < a.x + a.w && a.y <= y < a.y + h
  {
    hide Rows;
    if a.x <= x < a.x + a.w && a.y <= y {
      if y < a.y + h {
        InsideRows(a.w, h, x - a.x, y - a.y);
      } else {
        RowsMonotonic(a.w, h, y - a.y);
      }
    }
  }

  /** Drawing a whole rectangle twice: the second image is what stays. */
  lemma {:induction false} BlitOver(fb: seq<Pixel>, height: nat, a: Area, h: nat, img: seq<Pixel>, img': seq<Pixel>)
    requires a.w > 0 && a.x + a.w <= a.stride && |fb| == Rows(a.stride, height)
    requires |img| <= |img'|
    ensures Blit(Blit(fb, a, img), a, img') == Blit(fb, a, img')
  {
    hide Rows, Blit;
    var once := Blit(fb, a, img);
    var left, right := Blit(once, a, img'), Blit(fb, a, img');
    forall x: nat, y: nat | x < a.stride && y < height
      ensures SameAt(left, right, a.stride, x, y)
    {
      InsideRows(a.stride, height, x, y);
      BlitAt(once, a, img', x, y);
      BlitAt(fb, a, img', x, y);
      BlitAt(fb, a, img, x, y);
    }
    SameEverywhere(left, right, a.stride, height);
  }

  /** The place reached after j whole rows and k more pixels. */
  lemma {:induction false} CursorAfterRows(w: nat, j: nat, k: nat)
    requires w > 0
    ensures CursorAt(w, Rows(w, j) + k) == Cursor(CursorAt(w, k).i, j + CursorAt(w, k).j)
  {
    hide Rows, CursorAt;
    CursorOffset(w, k);
    var c := CursorAt(w, k);
    RowsAdd(w, j, c.j);
    CursorIs(w, Rows(w, j) + k, c.i, j + c.j);
  }

  /** Drawing j rows and then what follows below them is drawing everything at once. */
  lemma {:induction false} BlitRows(fb: seq<Pixel>, a: Area, j: nat, top: seq<Pixel>, rest: seq<Pixel>)
    requires |top| == Rows(a.w, j)
    ensures Blit(Blit(fb, a, top), a.(y := a.y + j), rest) == Blit(fb, a, top + rest)
  {
    hide Rows, CursorAt;
    if rest == [] {
      assert top + rest == top;
    } else if a.w == 0 {
    } else {
      var k := |rest| - 1;
      BlitRows(fb, a, j, top, rest[..k]);
      assert (top + rest)[..|top| + k] == top + rest[..k];
      CursorAfterRows(a.w, j, k);
    }
  }

  /** The w x h part, with its corner at (i, j), of an image rw pixels wide. */
  function Crop(image: seq<Pixel>, rw: nat, i: nat, j: nat, w: nat, h: nat): (tile: seq<Pixel>)
    requires i + w <= rw && Rows(rw, j + h) <= |image|
    ensures |tile| == Rows(w, h)
  {
    if h == 0 then []
    else
      assert j + h - 1 == j + (h - 1);
      var start := Rows(rw, j + (h - 1)) + i;
      Crop(image, rw, i, j, w, h - 1) + image[start..start + w]
  }

  lemma {:induction false} CropNext(image: seq<Pixel>, rw: nat, i: nat, j: nat, w: nat, h: nat)
    requires i + w <= rw && Rows(rw, j + h + 1) <= |image|
    ensures Rows(rw, j + h) + rw <= |image|
    ensures Crop(image, rw, i, j, w, h + 1) ==
            Crop(image, rw, i, j, w, h) + image[Rows(rw, j + h) + i..Rows(rw, j + h) + i + w]
  {
    assert j + (h + 1) - 1 == j + h;
  }

  lemma {:induction false} CropAt(image: seq<Pixel>, rw: nat, i: nat, j: nat, w: nat, h: nat, c: nat, r: nat)
    requires i + w <= rw && Rows(rw, j + h) <= |image|
    requires c < w && r < h
    ensures Rows(w, r) + c < Rows(w, h)
    ensures Rows(rw, j + r) + i + c < |image|
    ensures Crop(image, rw, i, j, w, h)[Rows(w, r) + c] == image[Rows(rw, j + r) + i + c]
  {
    hide Rows, Crop;
    InsideRows(w, h, c, r);
    RowsMonotonic(rw, j + r, j + h);
    assert j + (h - 1) + 1 == j + h;
    CropNext(image, rw, i, j, w, h - 1);
    if r < h - 1 {
      InsideRows(w, h - 1, c, r);
      CropAt(image, rw, i, j, w, h - 1, c, r);
    }
  }
}
