/** The Raw rectangle of HandleFramebufferUpdate (src/rfbproto.c). */
module RfbProto {
  import opened Bytes
  import opened Area
  import opened VncViewer

  /** A raw rectangle is read and drawn as many whole lines at a time as fit the buffer. It
      succeeds exactly when the input holds all its bytes, and then it has read exactly them and
      the screen is as after one copy of the whole rectangle. */
  method HandleRaw(client: RfbClient, x: nat, y0: nat, w: nat, h0: nat) returns (ok: bool)
    requires client.Valid() && client.frameBuffer != null && client.Supported()
    requires client.CheckRect(x, y0, w, h0) && w < 0x1_0000
    modifies client`input, client.frameBuffer
    ensures var n := client.bitsPerPixel / 8;
            var size := Rows(n, Rows(w, h0));
            && ok == (size <= |old(client.input)|)
            && (ok ==>
                  && client.input == old(client.input)[size..]
                  && client.Screen() == Blit(old(client.Screen()), Area(client.width, x, y0, w),
                                             RawPixels(old(client.input), n, Rows(w, h0))))
  {
    hide Rows, Blit, RawPixels;
    var n := client.bitsPerPixel / 8;
    var bytesPerLine := LineBytes(w, client.bitsPerPixel);
    var linesToRead := if bytesPerLine > 0 then BUFFER_SIZE / bytesPerLine else 0;
    ghost var a, before, input := Area(client.width, x, y0, w), client.Screen(), client.input;
    ghost var done: nat := 0;
    var y: nat, h: nat := y0, h0;
    NothingRead(before, input, a, n, w, h0);
    if w > 0 {
      FitsBuffer(w, n, bytesPerLine);
    }
    while linesToRead > 0 && h > 0
      invariant client.Valid() && done + h == h0 && y == y0 + done
      invariant Rows(n, Rows(w, done)) <= |input| && client.input == input[Rows(n, Rows(w, done))..]
      invariant client.Screen() == Blit(before, a, RawPixels(input, n, Rows(w, done)))
      invariant w > 0 ==> linesToRead > 0
      decreases h
    {
      if linesToRead > h {
        linesToRead := h;
      }
      var read := ReadLines(client, x, y, w, linesToRead, bytesPerLine);
      if !read {
        TooShort(input, n, w, done, linesToRead, h0);
        return false;
      }
      ChunkDrawn(before, input, a, n, w, done, linesToRead, h0);
      h, y := h - linesToRead, y + linesToRead;
      done := done + linesToRead;
    }
    if w == 0 {
      NothingWide(before, input, a, n, done, h0);
    }
    ok := true;
  }

  /** One turn of the loop: read `lines` whole lines and copy them to the framebuffer. */
  method ReadLines(client: RfbClient, x: nat, y: nat, w: nat, lines: nat, bytesPerLine: nat) returns (ok: bool)
    requires client.Valid() && client.frameBuffer != null && client.Supported() && client.CheckRect(x, y, w, lines)
    requires bytesPerLine == Rows(client.bitsPerPixel / 8, w)
    modifies client`input, client.frameBuffer
    ensures var n := client.bitsPerPixel / 8;
            var size := Rows(n, Rows(w, lines));
            && ok == (size <= |old(client.input)|)
            && (ok ==>
                  && client.input == old(client.input)[size..]
                  && client.Screen() == Blit(old(client.Screen()), Area(client.width, x, y, w),
                                             RawPixels(old(client.input)[..size], n, Rows(w, lines))))
  {
    hide Rows, Blit, RawPixels;
    var size := RowOffset(bytesPerLine, lines);
    ChunkSize(w, client.bitsPerPixel / 8, lines, bytesPerLine);
    var buffer;
    ok, buffer := client.ReadFromRFBServer(size);
    if ok {
      client.CopyRectangle(MemoryOf(buffer), 0, x, y, w, lines);
      assert RawPixels(buffer, client.bitsPerPixel / 8, Rows(w, lines)) ==
             RawImage(MemoryOf(buffer), 0, client.bitsPerPixel / 8, Rows(w, lines))
      by { AsImage(buffer, client.bitsPerPixel / 8, Rows(w, lines)); }
    }
  }

  lemma {:induction false} NothingRead(before: seq<Pixel>, input: seq<byte>, a: Area, n: nat, w: nat, h0: nat)
    ensures Rows(n, Rows(w, 0)) == 0 && Blit(before, a, RawPixels(input, n, Rows(w, 0))) == before
  {
    assert RawPixels(input, n, 0) == [];
  }

  lemma {:induction false} NothingWide(before: seq<Pixel>, input: seq<byte>, a: Area, n: nat, done: nat, h0: nat)
    ensures Rows(0, done) == 0 == Rows(0, h0) && Rows(n, 0) == 0
  {
    RowsIsProduct(0, done);
    RowsIsProduct(0, h0);
  }

  lemma {:induction false} TooShort(input: seq<byte>, n: nat, w: nat, done: nat, lines: nat, h0: nat)
    requires done + lines <= h0 && Rows(n, Rows(w, done)) + Rows(n, Rows(w, lines)) > |input|
    ensures Rows(n, Rows(w, h0)) > |input|
  {
    RowsAdd(w, done, lines);
    RowsAdd(n, Rows(w, done), Rows(w, lines));
    RowsMonotonic(w, done + lines, h0);
    RowsMonotonic(n, Rows(w, done + lines), Rows(w, h0));
  }

  /** Drawing the next lines below the ones already drawn. */
  lemma {:induction false} ChunkDrawn(before: seq<Pixel>, input: seq<byte>, a: Area, n: nat, w: nat, done: nat,
                                      lines: nat, h0: nat)
    requires a.w == w && Rows(n, Rows(w, done)) + Rows(n, Rows(w, lines)) <= |input|
    ensures Rows(n, Rows(w, done + lines)) == Rows(n, Rows(w, done)) + Rows(n, Rows(w, lines))
    ensures input[Rows(n, Rows(w, done))..][Rows(n, Rows(w, lines))..] == input[Rows(n, Rows(w, done + lines))..]
    ensures var chunk := input[Rows(n, Rows(w, done))..][..Rows(n, Rows(w, lines))];
            Blit(Blit(before, a, RawPixels(input, n, Rows(w, done))), a.(y := a.y + done),
                 RawPixels(chunk, n, Rows(w, lines))) ==
            Blit(before, a, RawPixels(input, n, Rows(w, done + lines)))
  {
    hide Rows, Blit, RawPixels;
    var first, count := Rows(w, done), Rows(w, lines);
    RowsAdd(w, done, lines);
    RowsAdd(n, first, count);
    var tail := input[Rows(n, first)..];
    RawPixelsSplit(input, n, first, count);
    RawPixelsPrefix(input, n, first, Rows(n, first));
    RawPixelsPrefix(tail, n, count, Rows(n, count));
    BlitRows(before, a, done, RawPixels(input, n, first), RawPixels(tail, n, count));
  }

  /** rect.r.w * bitsPerPixel / 8 */
  method LineBytes(w: nat, bitsPerPixel: nat) returns (r: nat)
    requires bitsPerPixel == 8 || bitsPerPixel == 16 || bitsPerPixel == 32
    ensures r == Rows(bitsPerPixel / 8, w)
  {
    RowsIsProduct(bitsPerPixel / 8, w);
    r := w * bitsPerPixel / 8;
  }

  /** At least one line fits, for every width a 16-bit field can hold. */
  lemma {:induction false} FitsBuffer(w: nat, n: nat, bytesPerLine: nat)
    requires 0 < w < 0x1_0000 && (n == 1 || n == 2 || n == 4) && bytesPerLine == Rows(n, w)
    ensures 0 < bytesPerLine && BUFFER_SIZE / bytesPerLine > 0
  {
    RowsIsProduct(n, w);
  }

  lemma {:induction false} ChunkSize(w: nat, n: nat, lines: nat, bytesPerLine: nat)
    requires bytesPerLine == Rows(n, w)
    ensures Rows(bytesPerLine, lines) == Rows(n, Rows(w, lines))
  {
    RowsIsProduct(n, w);
    RowsIsProduct(bytesPerLine, lines);
    RowsIsProduct(w, lines);
    RowsIsProduct(n, Rows(w, lines));
    assert (n * w) * lines == n * (w * lines);
  }
}
