/** The client record and the framebuffer primitives of src/vncviewer.c. */
module VncViewer {
  import opened Bytes
  import opened Area

  /** Memory from some pointer on. Every address holds some byte; what lies beyond the bytes
      a caller put there is arbitrary. */
  type Memory = nat -> byte

  function Peek(mem: Memory, p: nat, n: nat): (bs: seq<byte>)
    ensures |bs| == n
    ensures forall k :: 0 <= k < n ==> bs[k] == mem(p + k)
  {
    seq(n, k requires 0 <= k < n => mem(p + k))
  }

  /** The k-th n-byte pixel of a raw bitmap. */
  function RawPixel(mem: Memory, p: nat, n: nat, k: nat): Pixel {
    FromBytes(Peek(mem, p + Rows(n, k), n))
  }

  function RawImage(mem: Memory, p: nat, n: nat, count: nat): (img: seq<Pixel>)
    ensures |img| == count
  {
    seq(count, k requires 0 <= k < count => RawPixel(mem, p, n, k))
  }

  lemma {:induction false} RawImageNone(mem: Memory, p: nat, n: nat)
    ensures RawImage(mem, p, n, 0) == []
  {
  }

  lemma {:induction false} RawImageNext(mem: Memory, p: nat, n: nat, count: nat)
    ensures RawImage(mem, p, n, count + 1) == RawImage(mem, p, n, count) + [FromBytes(Peek(mem, p + Rows(n, count), n))]
  {
  }

  /** A buffer that holds the given bytes; what follows them is zero. */
  function MemoryOf(bs: seq<byte>): Memory {
    (k: nat) => if k < |bs| then bs[k] else 0
  }

  /** The pixels of a raw bitmap, from its bytes. */
  function RawPixels(bs: seq<byte>, n: nat, count: nat): (img: seq<Pixel>)
    requires Rows(n, count) <= |bs|
    ensures |img| == count
  {
    RawImage(MemoryOf(bs), 0, n, count)
  }

  lemma {:induction false} AsImage(bs: seq<byte>, n: nat, count: nat)
    requires Rows(n, count) <= |bs|
    ensures RawPixels(bs, n, count) == RawImage(MemoryOf(bs), 0, n, count)
  {
  }

  lemma {:induction false} RawPixelsAt(bs: seq<byte>, n: nat, count: nat, k: nat)
    requires Rows(n, count) <= |bs| && k < count
    ensures Rows(n, k) + n <= |bs| && RawPixels(bs, n, count)[k] == FromBytes(bs[Rows(n, k)..Rows(n, k) + n])
  {
    RowsMonotonic(n, k, count);
    assert Peek(MemoryOf(bs), Rows(n, k), n) == bs[Rows(n, k)..Rows(n, k) + n];
  }

  /** A bitmap does not depend on the bytes after it. */
  lemma {:induction false} RawPixelsPrefix(bs: seq<byte>, n: nat, count: nat, size: nat)
    requires Rows(n, count) <= size <= |bs|
    ensures RawPixels(bs[..size], n, count) == RawPixels(bs, n, count)
  {
    hide Rows, RawPixels, FromBytes;
    var part, whole := RawPixels(bs[..size], n, count), RawPixels(bs, n, count);
    forall k | 0 <= k < count
      ensures part[k] == whole[k]
    {
      RawPixelsAt(bs, n, count, k);
      RawPixelsAt(bs[..size], n, count, k);
      RowsMonotonic(n, k, count);
      assert bs[Rows(n, k)..Rows(n, k) + n] == bs[..size][Rows(n, k)..Rows(n, k) + n];
    }
  }

  /** A bitmap is its first pixels followed by the bitmap of the bytes after them. */
  lemma {:induction false} RawPixelsSplit(bs: seq<byte>, n: nat, first: nat, count: nat)
    requires Rows(n, first + count) <= |bs|
    ensures Rows(n, first) <= |bs| && Rows(n, count) <= |bs[Rows(n, first)..]|
    ensures RawPixels(bs, n, first + count) ==
            RawPixels(bs[..Rows(n, first)], n, first) + RawPixels(bs[Rows(n, first)..], n, count)
  {
    hide Rows, RawPixels, FromBytes;
    RowsAdd(n, first, count);
    var head, tail := bs[..Rows(n, first)], bs[Rows(n, first)..];
    var whole, parts := RawPixels(bs, n, first + count), RawPixels(head, n, first) + RawPixels(tail, n, count);
    forall k | 0 <= k < first + count
      ensures whole[k] == parts[k]
    {
      RawPixelsAt(bs, n, first + count, k);
      if k < first {
        RawPixelsAt(head, n, first, k);
        assert bs[Rows(n, k)..Rows(n, k) + n] == head[Rows(n, k)..Rows(n, k) + n];
      } else {
        RawPixelsAt(tail, n, count, k - first);
        RowsAdd(n, first, k - first);
        assert first + (k - first) == k;
        assert bs[Rows(n, k)..Rows(n, k) + n] == tail[Rows(n, k - first)..Rows(n, k - first) + n];
      }
    }
  }

  /** RFB_BUFFER_SIZE */
  const BUFFER_SIZE: nat := 640 * 480

  /** How a decoder ended: TRUE, FALSE, or a read or write past the end of a buffer, which the C code does
      not check for. */
  datatype Status = Done | Failed | Overrun

  class RfbClient {
    var frameBuffer: array?<Pixel>
    var width: nat
    var height: nat
    var bitsPerPixel: nat
    /** Bytes the server has sent and ReadFromRFBServer has not handed out yet. */
    var input: seq<byte>
    var qualityLevel: nat

    ghost predicate Valid()
      reads this
    {
      frameBuffer != null ==> frameBuffer.Length == Rows(width, height)
    }

    function Screen(): seq<Pixel>
      reads this, frameBuffer
    {
      if frameBuffer == null then [] else frameBuffer[..]
    }

    constructor (width: nat, height: nat, bitsPerPixel: nat, input: seq<byte>)
      ensures Valid() && frameBuffer != null && fresh(frameBuffer)
      ensures this.width == width && this.height == height && this.bitsPerPixel == bitsPerPixel
      ensures this.input == input
    {
      this.width, this.height, this.bitsPerPixel, this.input := width, height, bitsPerPixel, input;
      frameBuffer := new Pixel[Rows(width, height)];
      qualityLevel := 5;
    }

    predicate CheckRect(x: nat, y: nat, w: nat, h: nat)
      reads `width, `height
    {
      x + w <= width && y + h <= height
    }

    predicate Supported()
      reads this
    {
      bitsPerPixel == 8 || bitsPerPixel == 16 || bitsPerPixel == 32
    }

    /** Whether the drawing primitives draw at all. */
    predicate Draws(x: nat, y: nat, w: nat, h: nat)
      reads this
    {
      frameBuffer != null && CheckRect(x, y, w, h) && Supported()
    }

    /** What a successful ReadFromRFBServer hands out: exactly the next n bytes. Module Sockets
        proves this of the buffering reader; here the input simply ends. */
    method ReadFromRFBServer(n: nat) returns (ok: bool, out: seq<byte>)
      modifies `input
      ensures ok <==> n <= |old(input)|
      ensures ok ==> out == old(input)[..n] && input == old(input)[n..]
      ensures !ok ==> out == [] && input == []
    {
      ok := n <= |input|;
      if ok {
        out, input := input[..n], input[n..];
      } else {
        out, input := [], [];
      }
    }

    method FillRectangle(x: nat, y: nat, w: nat, h: nat, colour: Pixel)
      requires Valid()
      modifies frameBuffer
      ensures Screen() ==
              if Draws(x, y, w, h)
              then Blit(old(Screen()), Area(width, x, y, w), Filled(Low(colour, bitsPerPixel / 8), Rows(w, h)))
              else old(Screen())
    {
      hide CursorAt, Blit;
      if frameBuffer == null || !CheckRect(x, y, w, h) || !Supported() {
        return;
      }
      var word := Low(colour, bitsPerPixel / 8);
      ghost var a, before := Area(width, x, y, w), frameBuffer[..];
      ghost var drawn: seq<Pixel>, row := [], 0;
      BlitNone(before, a);
      var j := RowOffset(width, y);
      var end := RowOffset(width, y + h);
      while j < end
        invariant row <= h && j == Rows(width, y + row)
        invariant drawn == Filled(word, Rows(w, row))
        invariant frameBuffer[..] == Blit(before, a, drawn)
        decreases h - row
      {
        var i := x;
        while i < x + w
          invariant x <= i <= x + w
          invariant drawn == Filled(word, Rows(w, row) + (i - x))
          invariant frameBuffer[..] == Blit(before, a, drawn)
        {
          Draw(frameBuffer, j + i, word, before, height, a, h, drawn, i - x, row);
          drawn := drawn + [word];
          i := i + 1;
        }
        j := j + width;
        row := row + 1;
        assert y + row - 1 == y + (row - 1);
      }
      RowsReached(width, w, y, row, h);
    }

    method CopyRectangle(mem: Memory, buffer: nat, x: nat, y: nat, w: nat, h: nat)
      requires Valid()
      modifies frameBuffer
      ensures Screen() ==
              if Draws(x, y, w, h)
              then Blit(old(Screen()), Area(width, x, y, w), RawImage(mem, buffer, bitsPerPixel / 8, Rows(w, h)))
              else old(Screen())
    {
      hide CursorAt, Blit, RawImage;
      if frameBuffer == null || !CheckRect(x, y, w, h) || !Supported() {
        return;
      }
      var n := bitsPerPixel / 8;
      ghost var a, before, row := Area(width, x, y, w), frameBuffer[..], 0;
      BlitNone(before, a);
      RawImageNone(mem, buffer, n);
      var from := buffer;
      var j := RowOffset(width, y);
      var end := RowOffset(width, y + h);
      while j < end
        invariant row <= h && j == Rows(width, y + row)
        invariant from == buffer + Rows(n, Rows(w, row))
        invariant frameBuffer[..] == Blit(before, a, RawImage(mem, buffer, n, Rows(w, row)))
        decreases h - row
      {
        from := CopyBitmapRow(mem, buffer, from, n, x, y, w, j, before, h, row);
        j := j + width;
        row := row + 1;
        assert y + row - 1 == y + (row - 1);
      }
      RowsReached(width, w, y, row, h);
    }

    /** One memcpy of w pixels. */
    method CopyBitmapRow(mem: Memory, ghost buffer: nat, from0: nat, n: nat, x: nat, ghost y: nat, w: nat, j: nat,
                         ghost before: seq<Pixel>, ghost h: nat, ghost row: nat)
      returns (from: nat)
      requires Valid() && frameBuffer != null && x + w <= width && y + h <= height && row < h
      requires j == Rows(width, y + row) && from0 == buffer + Rows(n, Rows(w, row)) && |before| == Rows(width, height)
      requires frameBuffer[..] == Blit(before, Area(width, x, y, w), RawImage(mem, buffer, n, Rows(w, row)))
      modifies frameBuffer
      ensures from == buffer + Rows(n, Rows(w, row + 1))
      ensures frameBuffer[..] == Blit(before, Area(width, x, y, w), RawImage(mem, buffer, n, Rows(w, row + 1)))
    {
      hide CursorAt, Blit, FromBytes, RawImage;
      ghost var a, drawn := Area(width, x, y, w), Rows(w, row);
      from := from0;
      var i := x;
      while i < x + w
        invariant x <= i <= x + w
        invariant drawn == Rows(w, row) + (i - x) && from == buffer + Rows(n, drawn)
        invariant frameBuffer[..] == Blit(before, a, RawImage(mem, buffer, n, drawn))
      {
        var word := FromBytes(Peek(mem, from, n));
        RawImageNext(mem, buffer, n, drawn);
        Draw(frameBuffer, j + i, word, before, height, a, h, RawImage(mem, buffer, n, drawn), i - x, row);
        drawn := drawn + 1;
        from := from + n;
        i := i + 1;
      }
    }

    /** CopyRect: whatever the overlap, every destination pixel becomes what the source pixel was
        before the call. The copies that are left out are just those that never end (CopyEnds). */
    method CopyRectangleFromRectangle(srcX: nat, srcY: nat, w: nat, h: nat, destX: nat, destY: nat)
      requires Valid() && (Draws(srcX, srcY, w, h) && Draws(destX, destY, w, h) ==> width > 0 || destY < srcY)
      modifies frameBuffer
      ensures Draws(srcX, srcY, w, h) && Draws(destX, destY, w, h) ==>
                && Rows(width, srcY + h) <= |old(Screen())|
                && Screen() == Blit(old(Screen()), Area(width, destX, destY, w),
                                    Crop(old(Screen()), width, srcX, srcY, w, h))
      ensures !(Draws(srcX, srcY, w, h) && Draws(destX, destY, w, h)) ==> Screen() == old(Screen())
    {
      hide CursorAt, Blit, Crop;
      if frameBuffer == null || !CheckRect(srcX, srcY, w, h) || !CheckRect(destX, destY, w, h) || !Supported() {
        return;
      }
      var m := Move(width, height, srcX, srcY, w, h, destX, destY);
      ghost var before := frameBuffer[..];
      var shift := ShiftOf(m);
      if destY < srcY {
        CopyTopDown(m, shift, before);
      } else {
        CopyBottomUp(m, shift, before);
      }
      CopiedAll(m, before, frameBuffer[..]);
    }

    method CopyTopDown(m: Move, shift: int, ghost before: seq<Pixel>)
      requires Valid() && frameBuffer != null && m.stride == width && m.height == height && m.Fits()
      requires m.destY < m.srcY && IsShift(m, shift) && frameBuffer[..] == before
      modifies frameBuffer
      ensures Copied(m, before, frameBuffer[..], 0, m.h, 0, 0, 0)
    {
      hide Rows, Copied, IsShift;
      NothingCopied(m, before, 0, 0);
      var j := RowOffset(width, m.destY);
      var end := RowOffset(width, m.destY + m.h);
      ghost var row: nat := 0;
      while j < end
        invariant row <= m.h && j == Rows(width, m.destY + row)
        invariant Copied(m, before, frameBuffer[..], 0, row, row, 0, 0)
        decreases m.h - row
      {
        SourceRow(m, shift, row);
        CopyRow(m, before, j, shift, 0, row, row);
        NextRow(m, before, frameBuffer[..], 0, row, row, 0, row + 1, row + 1);
        RowsNext(width, m.destY + row);
        j := j + width;
        row := row + 1;
      }
      RowsReached(width, m.w, m.destY, row, m.h);
      NoColumns(m, before, frameBuffer[..], row);
    }

    method CopyBottomUp(m: Move, shift: int, ghost before: seq<Pixel>)
      requires Valid() && frameBuffer != null && m.stride == width && m.height == height && m.Fits() && width > 0
      requires m.srcY <= m.destY && IsShift(m, shift) && frameBuffer[..] == before
      modifies frameBuffer
      ensures Copied(m, before, frameBuffer[..], 0, m.h, 0, 0, 0)
    {
      hide Rows, Copied, IsShift;
      NothingCopied(m, before, m.h, if m.h == 0 then 0 else m.h - 1);
      var j: int := RowOffset(width, m.destY + m.h);
      j := j - width;
      var end := RowOffset(width, m.destY);
      ghost var row: nat := m.h;
      while j >= end
        invariant row <= m.h && j + width == Rows(width, m.destY + row)
        invariant Copied(m, before, frameBuffer[..], row, m.h, if row == 0 then 0 else row - 1, 0, 0)
        decreases row
      {
        assert row > 0;
        row := row - 1;
        RowsNext(width, m.destY + row);
        SourceRow(m, shift, row);
        CopyRow(m, before, j, shift, row + 1, m.h, row);
        NextRow(m, before, frameBuffer[..], row + 1, m.h, row, row, m.h, if row == 0 then 0 else row - 1);
        j := j - width;
      }
      if row > 0 {
        RowsMonotonic(width, m.destY, m.destY + row);
      }
    }

    /** One row of the copy, in the direction that never overwrites a pixel still to be read.
        Rows [rLo, rHi) have been copied before. */
    method CopyRow(m: Move, ghost before: seq<Pixel>, j: int, shift: int,
                   ghost rLo: nat, ghost rHi: nat, ghost row: nat)
      requires Valid() && frameBuffer != null && m.stride == width && m.height == height && m.Fits()
      requires row < m.h && !(rLo <= row < rHi)
      requires !(rLo <= m.srcY + row - m.destY < rHi)
      requires j == Rows(width, m.destY + row)
      requires Rows(width, m.destY + row) + m.destX + shift == Rows(width, m.srcY + row) + m.srcX
      requires Copied(m, before, frameBuffer[..], rLo, rHi, row, 0, 0)
      modifies frameBuffer
      ensures Copied(m, before, frameBuffer[..], rLo, rHi, row, 0, m.w)
    {
      if m.destX < m.srcX {
        var i := m.destX;
        while i < m.destX + m.w
          invariant m.destX <= i <= m.destX + m.w
          invariant Copied(m, before, frameBuffer[..], rLo, rHi, row, 0, i - m.destX)
        {
          CopyStep(m, before, frameBuffer[..], rLo, rHi, row, 0, i - m.destX, i - m.destX);
          frameBuffer[j + i] := frameBuffer[j + i + shift];
          i := i + 1;
        }
      } else {
        var i := m.destX + m.w - 1;
        EmptyColumns(m, before, frameBuffer[..], rLo, rHi, row, m.w);
        while i >= m.destX
          invariant m.destX - 1 <= i < m.destX + m.w
          invariant Copied(m, before, frameBuffer[..], rLo, rHi, row, i + 1 - m.destX, m.w)
        {
          CopyStep(m, before, frameBuffer[..], rLo, rHi, row, i + 1 - m.destX, m.w, i - m.destX);
          frameBuffer[j + i] := frameBuffer[j + i + shift];
          i := i - 1;
        }
      }
    }
  }

  /** The primitives draw exactly if the first and the last place of the rectangle lie inside the framebuffer
      and pixels have 8, 16 or 32 bits. */
  lemma {:induction false} DrawsInside(client: RfbClient, x: nat, y: nat, w: nat, h: nat)
    ensures client.Draws(x, y, w, h) <==>
              && client.frameBuffer != null && client.bitsPerPixel in {8, 16, 32}
              && x <= client.width && (w > 0 ==> x + (w - 1) < client.width)
              && y <= client.height && (h > 0 ==> y + (h - 1) < client.height)
  {
  }

  /** A copy in coordinates: row y of the framebuffer begins at y * stride. */
  lemma {:induction false} CopyShows(m: Move, before: seq<Pixel>, i: nat, j: nat, p: nat, q: nat)
    requires m.Fits() && |before| == m.stride * m.height && i < m.w && j < m.h
    requires p == m.stride * (m.destY + j) + m.destX + i && q == m.stride * (m.srcY + j) + m.srcX + i
    ensures Rows(m.stride, m.srcY + m.h) <= |before| && p < |before| && q < |before|
    ensures Blit(before, Area(m.stride, m.destX, m.destY, m.w),
                 Crop(before, m.stride, m.srcX, m.srcY, m.w, m.h))[p] == before[q]
  {
    hide Rows, Blit, Crop, Move.Fits;
    RowsIsProduct(m.stride, m.height);
    RowsIsProduct(m.stride, m.destY + j);
    RowsIsProduct(m.stride, m.srcY + j);
    CopyShowsRows(m, before, i, j);
  }

  lemma {:induction false} CopyShowsRows(m: Move, before: seq<Pixel>, i: nat, j: nat)
    requires m.Fits() && |before| == Rows(m.stride, m.height) && i < m.w && j < m.h
    ensures Rows(m.stride, m.srcY + m.h) <= |before|
    ensures var p, q := Rows(m.stride, m.destY + j) + m.destX + i, Rows(m.stride, m.srcY + j) + m.srcX + i;
            && p < |before| && q < |before|
            && Blit(before, Area(m.stride, m.destX, m.destY, m.w),
                    Crop(before, m.stride, m.srcX, m.srcY, m.w, m.h))[p] == before[q]
  {
    hide Rows, Blit, Crop;
    RowsMonotonic(m.stride, m.srcY + m.h, m.height);
    InsideRows(m.stride, m.height, m.destX + i, m.destY + j);
    InsideRows(m.stride, m.height, m.srcX + i, m.srcY + j);
    CropBlitAt(m, before, m.destX + i, m.destY + j);
    assert m.srcY + (m.destY + j - m.destY) == m.srcY + j;
  }

  /** The rectangles of one copy. */
  datatype Move = Move(stride: nat, height: nat, srcX: nat, srcY: nat, w: nat, h: nat, destX: nat, destY: nat) {
    predicate Fits() {
      srcX + w <= stride && srcY + h <= height && destX + w <= stride && destY + h <= height
    }
  }

  /** The loop variable of the copy after k turns of the outer loop, which goes on if Goes says so. */
  function LoopVariable(m: Move, k: nat): int {
    if m.destY < m.srcY then Rows(m.stride, m.destY) + Rows(m.stride, k)
    else Rows(m.stride, m.destY + m.h) - m.stride - Rows(m.stride, k)
  }

  predicate Goes(m: Move, k: nat) {
    if m.destY < m.srcY then LoopVariable(m, k) < Rows(m.stride, m.destY + m.h)
    else LoopVariable(m, k) >= Rows(m.stride, m.destY)
  }

  /** The loop ends exactly if the framebuffer has columns or the copy goes up. Without columns both
      rectangles can be in bounds, with width 0; every turn leaves the variable of a copy down at 0. */
  lemma {:induction false} CopyEnds(m: Move)
    ensures (exists k: nat :: !Goes(m, k)) <==> m.stride > 0 || m.destY < m.srcY
  {
    if m.stride == 0 {
      forall k: nat
        ensures LoopVariable(m, k) == 0
      {
        NoColumnsNoRows(m.destY);
        NoColumnsNoRows(m.destY + m.h);
        NoColumnsNoRows(k);
      }
      NoColumnsNoRows(m.destY);
      NoColumnsNoRows(m.destY + m.h);
      assert Goes(m, 0) <==> m.destY >= m.srcY;
    } else {
      RowsAdd(m.stride, m.destY, m.h);
      assert !Goes(m, m.h);
    }
  }

  /** A copy within a framebuffer without columns, as both checks allow it, that goes on for ever. */
  lemma {:induction false} EndlessCopy(height: nat, srcY: nat, h: nat, destY: nat)
    requires srcY + h <= height && destY + h <= height && srcY <= destY
    ensures var m := Move(0, height, 0, srcY, 0, h, 0, destY); m.Fits() && forall k: nat :: Goes(m, k)
  {
    CopyEnds(Move(0, height, 0, srcY, 0, h, 0, destY));
  }

  lemma {:induction false} NoColumnsNoRows(n: nat)
    ensures Rows(0, n) == 0
  {
    if n > 0 {
      NoColumnsNoRows(n - 1);
    }
  }

  /** `now` is `before` with rows [rLo, rHi) of the destination, and columns [cLo, cHi) of row
      `row`, replaced by what the source rectangle held in `before`. */
  ghost predicate Copied(m: Move, before: seq<Pixel>, now: seq<Pixel>,
                         rLo: nat, rHi: nat, row: nat, cLo: nat, cHi: nat)
  {
    && m.Fits() && |now| == |before| == Rows(m.stride, m.height)
    && forall x: nat, y: nat :: x < m.stride && y < m.height ==> CopiedAt(m, before, now, rLo, rHi, row, cLo, cHi, x, y)
  }

  ghost predicate CopiedAt(m: Move, before: seq<Pixel>, now: seq<Pixel>,
                           rLo: nat, rHi: nat, row: nat, cLo: nat, cHi: nat, x: nat, y: nat)
  {
    var p, q := Rows(m.stride, y) + x, SourceOf(m, x, y);
    && p < |before| && p < |now|
    && if InDone(m, rLo, rHi, row, cLo, cHi, x, y) then 0 <= q < |before| && now[p] == before[q]
       else now[p] == before[p]
  }

  predicate InDone(m: Move, rLo: nat, rHi: nat, row: nat, cLo: nat, cHi: nat, x: nat, y: nat) {
    && m.destX <= x < m.destX + m.w && m.destY <= y < m.destY + m.h
    && (rLo <= y - m.destY < rHi || (y - m.destY == row && cLo <= x - m.destX < cHi))
  }

  function SourceOf(m: Move, x: nat, y: nat): int {
    if y < m.destY then 0 else Rows(m.stride, m.srcY + (y - m.destY)) + m.srcX + x - m.destX
  }

  lemma {:induction false} NothingCopied(m: Move, before: seq<Pixel>, r: nat, row: nat)
    requires m.Fits() && |before| == Rows(m.stride, m.height)
    ensures Copied(m, before, before, r, r, row, 0, 0)
  {
    hide Rows;
    forall x: nat, y: nat | x < m.stride && y < m.height
      ensures CopiedAt(m, before, before, r, r, row, 0, 0, x, y)
    {
      InsideRows(m.stride, m.height, x, y);
    }
  }

  lemma {:induction false} NextRow(m: Move, before: seq<Pixel>, now: seq<Pixel>, rLo: nat, rHi: nat, row: nat,
                rLo': nat, rHi': nat, row': nat)
    requires Copied(m, before, now, rLo, rHi, row, 0, m.w)
    requires rLo <= rHi
    requires (rHi == row && rLo' == rLo && rHi' == row + 1) || (rLo == row + 1 && rLo' == row && rHi' == rHi)
    ensures Copied(m, before, now, rLo', rHi', row', 0, 0)
  {
    forall x: nat, y: nat | x < m.stride && y < m.height
      ensures CopiedAt(m, before, now, rLo', rHi', row', 0, 0, x, y)
    {
      assert CopiedAt(m, before, now, rLo, rHi, row, 0, m.w, x, y);
    }
  }

  /** A loop over no columns may stop at any row. */
  lemma {:induction false} NoColumns(m: Move, before: seq<Pixel>, now: seq<Pixel>, row: nat)
    requires row == m.h || m.w == 0
    requires Copied(m, before, now, 0, row, row, 0, 0)
    ensures Copied(m, before, now, 0, m.h, 0, 0, 0)
  {
    forall x: nat, y: nat | x < m.stride && y < m.height
      ensures CopiedAt(m, before, now, 0, m.h, 0, 0, 0, x, y)
    {
      assert CopiedAt(m, before, now, 0, row, row, 0, 0, x, y);
    }
  }

  lemma {:induction false} EmptyColumns(m: Move, before: seq<Pixel>, now: seq<Pixel>, rLo: nat, rHi: nat, row: nat,
                                        c: nat)
    requires Copied(m, before, now, rLo, rHi, row, 0, 0)
    ensures Copied(m, before, now, rLo, rHi, row, c, c)
  {
    forall x: nat, y: nat | x < m.stride && y < m.height
      ensures CopiedAt(m, before, now, rLo, rHi, row, c, c, x, y)
    {
      assert CopiedAt(m, before, now, rLo, rHi, row, 0, 0, x, y);
    }
  }

  /** The distance from a destination pixel to its source pixel. */
  method ShiftOf(m: Move) returns (shift: int)
    ensures IsShift(m, shift)
  {
    shift := (m.srcY - m.destY) * m.stride + m.srcX - m.destX;
  }

  ghost predicate IsShift(m: Move, shift: int) {
    shift == (m.srcY - m.destY) * m.stride + m.srcX - m.destX
  }

  lemma {:induction false} ProductShift(s: int, a: int, b: int)
    ensures s * a + (b - a) * s == s * b
  {
  }

  /** The distance is the same in every row. */
  lemma {:induction false} SourceRow(m: Move, shift: int, row: nat)
    requires IsShift(m, shift)
    ensures Rows(m.stride, m.destY + row) + m.destX + shift == Rows(m.stride, m.srcY + row) + m.srcX
  {
    RowsIsProduct(m.stride, m.destY + row);
    RowsIsProduct(m.stride, m.srcY + row);
    ProductShift(m.stride, m.destY + row, m.srcY + row);
  }

  /** Copying column c of row `row` next to the finished columns [cLo, cHi), when its source
      pixel has not been overwritten. */
  lemma {:induction false} CopyStep(m: Move, before: seq<Pixel>, now: seq<Pixel>,
                 rLo: nat, rHi: nat, row: nat, cLo: nat, cHi: nat, c: nat)
    requires Copied(m, before, now, rLo, rHi, row, cLo, cHi)
    requires row < m.h && c < m.w && !(rLo <= row < rHi)
    requires cLo <= cHi && (c == cHi || c == cLo - 1)
    requires !(rLo <= m.srcY + row - m.destY < rHi)
    requires !(cLo <= m.srcX + c - m.destX < cHi)
    ensures var p, q := Rows(m.stride, m.destY + row) + m.destX + c, Rows(m.stride, m.srcY + row) + m.srcX + c;
            && p < |now| && q < |now|
            && Copied(m, before, now[p := now[q]], rLo, rHi, row,
                      if c == cHi then cLo else c, if c == cHi then c + 1 else cHi)
  {
    hide Rows;
    InsideRows(m.stride, m.height, m.destX + c, m.destY + row);
    InsideRows(m.stride, m.height, m.srcX + c, m.srcY + row);
    var p, q := Rows(m.stride, m.destY + row) + m.destX + c, Rows(m.stride, m.srcY + row) + m.srcX + c;
    assert CopiedAt(m, before, now, rLo, rHi, row, cLo, cHi, m.srcX + c, m.srcY + row);
    assert now[q] == before[q];
    var cLo', cHi' := if c == cHi then cLo else c, if c == cHi then c + 1 else cHi;
    var now' := now[p := now[q]];
    forall x: nat, y: nat | x < m.stride && y < m.height
      ensures CopiedAt(m, before, now', rLo, rHi, row, cLo', cHi', x, y)
    {
      assert CopiedAt(m, before, now, rLo, rHi, row, cLo, cHi, x, y);
      CopyStepAt(m, before, now, rLo, rHi, row, cLo, cHi, c, p, q, x, y);
    }
  }

  lemma {:induction false} CopyStepAt(m: Move, before: seq<Pixel>, now: seq<Pixel>, rLo: nat, rHi: nat, row: nat,
                                      cLo: nat, cHi: nat, c: nat, p: nat, q: nat, x: nat, y: nat)
    requires m.Fits() && CopiedAt(m, before, now, rLo, rHi, row, cLo, cHi, x, y) && x < m.stride
    requires row < m.h && c < m.w && !(rLo <= row < rHi) && cLo <= cHi && (c == cHi || c == cLo - 1)
    requires p == Rows(m.stride, m.destY + row) + m.destX + c < |now| == |before|
    requires q == Rows(m.stride, m.srcY + row) + m.srcX + c < |now| && now[q] == before[q]
    ensures CopiedAt(m, before, now[p := now[q]], rLo, rHi, row,
                     if c == cHi then cLo else c, if c == cHi then c + 1 else cHi, x, y)
  {
    hide Rows;
    if Rows(m.stride, y) + x == p {
      RowsInjective(m.stride, x, y, m.destX + c, m.destY + row);
    }
  }

  /** The finished copy is a blit of the source rectangle as it was. */
  lemma {:induction false} CopiedAll(m: Move, before: seq<Pixel>, now: seq<Pixel>)
    requires Copied(m, before, now, 0, m.h, 0, 0, 0)
    ensures Rows(m.stride, m.srcY + m.h) <= |before|
    ensures now == Blit(before, Area(m.stride, m.destX, m.destY, m.w), Crop(before, m.stride, m.srcX, m.srcY, m.w, m.h))
  {
    RowsMonotonic(m.stride, m.srcY + m.h, m.height);
    var a, img := Area(m.stride, m.destX, m.destY, m.w), Crop(before, m.stride, m.srcX, m.srcY, m.w, m.h);
    var blit := Blit(before, a, img);
    forall x: nat, y: nat | x < m.stride && y < m.height
      ensures SameAt(now, blit, m.stride, x, y)
    {
      assert CopiedAt(m, before, now, 0, m.h, 0, 0, 0, x, y);
      CropBlitAt(m, before, x, y);
    }
    if m.stride == 0 {
      NoColumnsNoRows(m.height);
      assert now == blit;
    } else {
      SameEverywhere(now, blit, m.stride, m.height);
    }
  }

  lemma {:induction false} CropBlitAt(m: Move, before: seq<Pixel>, x: nat, y: nat)
    requires m.Fits() && |before| == Rows(m.stride, m.height) && Rows(m.stride, m.srcY + m.h) <= |before|
    requires x < m.stride && y < m.height
    ensures var p, q := Rows(m.stride, y) + x, SourceOf(m, x, y);
            && p < |before|
            && Blit(before, Area(m.stride, m.destX, m.destY, m.w),
                    Crop(before, m.stride, m.srcX, m.srcY, m.w, m.h))[p] ==
               if InDone(m, 0, m.h, 0, 0, 0, x, y) && 0 <= q < |before| then before[q] else before[p]
  {
    hide Rows, CursorAt, Blit, Crop;
    var a, img := Area(m.stride, m.destX, m.destY, m.w), Crop(before, m.stride, m.srcX, m.srcY, m.w, m.h);
    InsideRows(m.stride, m.height, x, y);
    BlitAt(before, a, img, x, y);
    if m.destX <= x < m.destX + m.w && m.destY <= y {
      if y < m.destY + m.h {
        InsideRows(m.w, m.h, x - m.destX, y - m.destY);
        assert Covers(a, |img|, x, y);
        CropAt(before, m.stride, m.srcX, m.srcY, m.w, m.h, x - m.destX, y - m.destY);
      } else {
        RowsMonotonic(m.w, m.h, y - m.destY);
        assert !Covers(a, |img|, x, y);
      }
    } else {
      assert !Covers(a, |img|, x, y);
    }
  }
}
