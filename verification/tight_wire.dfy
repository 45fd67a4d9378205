/** The bytes of a Tight rectangle by value: what each bit of the control byte, each byte of a length and
    each byte of a colour means, and the sizes that decide how data is sent and inflated. */
module TightWire {
  import opened Bytes
  import opened Bits
  import opened Area
  import opened VncViewer
  import opened TightFormat
  import opened TightFilter
  import opened TightInflate
  import opened Tight

  /** The high half of the control byte: streams 0 to 3 without and with a filter id, solid, JPEG, and
      the kinds whose bits say that zlib was not used. */
  lemma {:induction false} ControlKinds(b: byte)
    ensures b / 16 < 10 || b / 16 == 12 || b / 16 == 13 ==> ControlOf(b) == Control(b / 16, false)
    ensures b / 16 == 10 ==> ControlOf(b) == Control(0, true)
    ensures b / 16 == 11 ==> ControlOf(b) == Control(1, true)
    ensures b / 16 == 14 ==> ControlOf(b) == Control(4, true)
    ensures b / 16 == 15 ==> ControlOf(b) == Control(5, true)
    ensures b < 128 || b / 16 in {10, 11, 14, 15} ==> (Explicit(b) <==> b / 64 % 2 == 1)
    ensures b < 128 ==> forall k :: 0 <= k < 4 ==> (Uses(b, k) <==> b / 16 % 4 == k)
  {
  }

  /** The length is the sum of its groups of bits, low ones first, and every byte but the last has its
      top bit set, unless it is the third. */
  lemma {:induction false} CompactSum(n: nat)
    requires n < 0x40_0000
    ensures var bs := CompactLen(n);
            && (|bs| == 1 ==> n == bs[0])
            && 1 <= |bs| <= 3
            && (|bs| == 1 <==> bs[0] < 128)
            && (|bs| == 2 ==> (bs[0] as int) + 128 * (bs[1] as int) == n + 128 && 0 < bs[1] < 128)
            && (|bs| == 3 ==> (bs[0] as int) + 128 * (bs[1] as int) + 16384 * (bs[2] as int) == n + 128 + 16384)
            && (|bs| == 3 ==> bs[1] >= 128)
  {
  }

  /** Data of less than 12 bytes comes without a length. */
  lemma {:induction false} WithoutLength(zs: Inflater, fed: seq<byte>, input: seq<byte>, stale: seq<byte>, total: nat,
                                         flagged: bool)
    requires Streams(zs.inflated, zs.breaks) && |stale| == 307200
    ensures total < 12 && total <= |input| ==>
              Receive(zs, fed, input, stale, total, flagged) == Bytes(input[..total], total, fed)
    ensures total < 12 && total > |input| ==> Receive(zs, fed, input, stale, total, flagged) == Missing
    ensures total >= 12 && (input == [] || input[0] == 0) ==> Receive(zs, fed, input, stale, total, flagged) == Missing
  {
    hide Streams;
  }

  /** How many bytes of what is there are read: all that are wanted, or whole portions of 30000. */
  lemma {:induction false} PortionsTaken(length: nat, there: nat)
    ensures length <= there ==> Taken(length, there) == length
    ensures length > there ==> Taken(length, there) <= there < Taken(length, there) + 30000
    ensures length > there ==> Taken(length, there) % 30000 == 0
  {
  }

  lemma {:induction false} MaximumBits(bits: nat)
    ensures Pow2(bits) == 256 <==> bits == 8
  {
    assert Pow2(7) == 128;
    if bits < 8 {
      PowersGrow(bits, 8);
    } else if bits > 8 {
      PowersGrow(8, bits);
    }
  }

  lemma {:induction false} PowersGrow(m: nat, n: nat)
    requires m < n
    ensures Pow2(m) < Pow2(n)
  {
    if m < n - 1 {
      PowersGrow(m, n - 1);
    }
  }

  /** Pixels go in three bytes exactly if they have 32 bits, 24 of them used, and every component's
      maximum is 255. */
  lemma {:induction false} ThreeBytes(f: Format)
    ensures ColourSize(f) == (if f.bpp == 32 && f.depth == 24 && Pow2(f.red.bits) - 1 == 255 &&
                                 Pow2(f.green.bits) - 1 == 255 && Pow2(f.blue.bits) - 1 == 255
                              then 3 else f.bpp / 8)
    ensures f.CutZeros() <==> f.bpp == 32 && f.depth == 24 && Pow2(f.red.bits) - 1 == 255 &&
                              Pow2(f.green.bits) - 1 == 255 && Pow2(f.blue.bits) - 1 == 255
  {
    hide Pow2;
    MaximumBits(f.red.bits);
    MaximumBits(f.green.bits);
    MaximumBits(f.blue.bits);
  }

  /** A pixel as sent: three bytes are red, green and blue; otherwise the pixel's own bytes, the low
      one first. */
  ghost predicate IsPixel(f: Format, bs: seq<byte>, p: Pixel)
    requires |bs| == ColourSize(f)
  {
    if |bs| == 3 then
      && p / Pow2(f.red.shift) % 256 == bs[0] && p / Pow2(f.green.shift) % 256 == bs[1]
      && p / Pow2(f.blue.shift) % 256 == bs[2]
    else p == FromBytes(bs)
  }

  /** The colour of a solid rectangle, and the colours of a palette one after the other. */
  lemma {:induction false} ColoursSent(f: Format, bs: seq<byte>, i: nat)
    requires f.Valid()
    ensures ColourSize(f) <= |bs| ==> IsPixel(f, bs[..ColourSize(f)], SolidColour(f, bs))
    ensures var size := ColourSize(f);
            i * size + size <= |bs| ==>
              && Rows(size, i + 1) <= |bs|
              && IsPixel(f, bs[i * size..i * size + size], ColourSent(f, bs, i))
  {
    hide Pack, FromBytes, Rows;
    var size := ColourSize(f);
    RowsIsProduct(size, i);
    RowsNext(size, i);
    PowerOfByte();
    if f.CutZeros() {
      if size <= |bs| {
        PackedParts(f, bs[0], bs[1], bs[2]);
      }
      if i * size + size <= |bs| {
        var p := i * size;
        PackedParts(f, bs[p], bs[p + 1], bs[p + 2]);
      }
    }
  }

  lemma {:induction false} PackedParts(f: Format, r: byte, g: byte, b: byte)
    requires f.Valid() && f.CutZeros()
    ensures var p := Pack(f, r, g, b);
            p / Pow2(f.red.shift) % 256 == r && p / Pow2(f.green.shift) % 256 == g && p / Pow2(f.blue.shift) % 256 == b
  {
    hide Pack, Pow2;
    PowerOfByte();
    Unpack(f, r, g, b, 0);
    Unpack(f, r, g, b, 1);
    Unpack(f, r, g, b, 2);
  }

  /** tightPrevRow holds the rows of gradient rectangles of up to 4096 columns for 24-bit pixels and up to
      2048 else; thisRow holds 2048. */
  lemma {:induction false} RowsHeld(filter: Filter, f: Format, w: nat)
    ensures filter.Gradient24? || filter.Gradient? ==>
              && (filter.Predictable(f, w) <==> w <= if f.CutZeros() then 4096 else 2048)
              && (filter.Spills(w) <==> w > 2048)
    ensures filter.Copy24? || filter.Copy? || filter.TwoColours? || filter.Colours? ==>
              filter.Predictable(f, w) && !filter.Spills(w)
  {
  }

  /** What a header may be: nothing, for the copy filter; 0 for that too, 2 for the gradient filter; or 1, the
      number of colours less one, which is not 0, and the colours. */
  lemma {:induction false} HeaderIds(input: seq<byte>, f: Format, explicit: bool, filter: Filter, used: nat)
    requires HeaderSays(input, f, explicit, filter, used)
    ensures !explicit ==> (filter.Copy? || filter.Copy24?) && used == 0
    ensures explicit ==> |input| > 0 && input[0] < 3
    ensures explicit && input[0] == 0 ==> (filter.Copy? || filter.Copy24?) && used == 1
    ensures explicit && input[0] == 2 ==> (filter.Gradient? || filter.Gradient24?) && used == 1
    ensures explicit && input[0] == 1 ==>
              && |input| > 1 && input[1] > 0 && used == 2 + Rows(ColourSize(f), (input[1] as nat) + 1)
              && if input[1] == 1 then filter.TwoColours? else filter.Colours?
  {
    hide PaletteSent, Rows;
  }

  /** Control bytes from 128 to 143 begin a solid rectangle; from 144 to 159, and 192 to 223, nothing that is
      decoded here. */
  lemma {:induction false} SolidOrUnknown(status: Status, content: Content, zs: Inflater, fed: seq<byte>,
                                          fed': seq<byte>, input: seq<byte>, input': seq<byte>, stale: seq<byte>,
                                          prev: seq<nat>, f: Format, before: seq<Pixel>, now: seq<Pixel>, a: Area,
                                          height: nat, rh: nat)
    requires |input| > 0 && Streams(zs.inflated, zs.breaks) && |stale| == BUFFER_SIZE && |prev| == 3 && f.Valid()
    requires a.y + rh <= height
    requires TightOutcome(status, content, zs, fed, fed', input, input', stale, prev, f, before, now, a, height, rh)
    ensures 144 <= input[0] < 160 || 192 <= input[0] < 224 ==> status.Failed?
    ensures 128 <= input[0] < 144 ==>
              var size := ColourSize(f);
              && (status.Done? <==> 1 + size <= |input|) && !status.Overrun?
              && (status.Done? ==>
                    && input' == input[1 + size..]
                    && now == Blit(before, a, Filled(Low(SolidColour(f, input[1..]), f.bpp / 8), Rows(a.w, rh))))
  {
    hide ControlOf, Outcome, Streams, HeaderSays, ColourSize, SolidColour, Blit, Rows, Low;
    ControlKinds(input[0]);
  }

  /** Rows of palette indices: pixel 8 * i + k is bit 7 - k of byte i if there are two colours, else pixel i is
      the colour that byte i names. */
  lemma {:induction false} IndexedRows(palette: seq<Pixel>, row: seq<byte>, w: nat, i: nat, k: nat)
    requires i < |row| && k < 8
    ensures |palette| == 2 && |row| == (w + 7) / 8 && 8 * i + k < w ==>
              BitImage(palette, row, w)[8 * i + k] == palette[row[i] / [128, 64, 32, 16, 8, 4, 2, 1][k] % 2]
    ensures |palette| == 256 ==> ByteImage(palette, row)[i] == palette[row[i]]
  {
    hide Pow2;
    SmallPowers();
    assert (8 * i + k) / 8 == i && (8 * i + k) % 8 == k;
  }

  lemma {:induction false} SmallPowers()
    ensures Pow2(0) == 1 && Pow2(1) == 2 && Pow2(2) == 4 && Pow2(3) == 8 && Pow2(4) == 16
    ensures Pow2(5) == 32 && Pow2(6) == 64 && Pow2(7) == 128
  {
  }

  /** Row j of a filtered rectangle comes of row j of the data, and of what the rows above have left. */
  lemma {:induction false} FilteredRow(filter: Filter, f: Format, prev: seq<nat>, data: seq<byte>, w: nat, k: nat,
                                       j: nat, x: nat)
    requires filter.Valid(f) && filter.Remembers(prev, w) && Rows(filter.RowSize(f, w), k) <= |data| && j < k && x < w
    ensures var size := filter.RowSize(f, w);
            && Rows(size, j) + size <= |data| && Rows(w, j) + x < Rows(w, k)
            && var row, above := data[Rows(size, j)..Rows(size, j) + size], After(filter, f, prev, data, w, j);
               Filtered(filter, f, prev, data, w, k)[Rows(w, j) + x] == RowPixels(filter, f, above, row, w)[x]
  {
    hide Rows, RowPixels, NextPrev, After, Filtered;
    var size := filter.RowSize(f, w);
    InsideRows(w, k, x, j);
    RowsMonotonic(size, j + 1, k);
    RowsNext(size, k - 1);
    FilteredNext(filter, f, prev, data, w, k - 1);
    if j < k - 1 {
      RowsMonotonic(size, j, k - 1);
      FilteredRow(filter, f, prev, data, w, k - 1, j, x);
    }
  }

  /** The pixel that a gradient filter makes of a row without pixels has the three stray components. */
  lemma {:induction false} StrayColour(filter: Filter, f: Format, prev: seq<nat>, head: seq<byte>)
    requires filter.Predicts() && f.Valid() && |prev| == 3 && |head| == 4
    ensures var p := StrayPixel(filter, f, prev, head);
            && p / Pow2(f.red.shift) % Pow2(f.red.bits) == StrayPart(filter, f, prev, head, 0) % Pow2(f.red.bits)
            && p / Pow2(f.green.shift) % Pow2(f.green.bits) == StrayPart(filter, f, prev, head, 1) % Pow2(f.green.bits)
            && p / Pow2(f.blue.shift) % Pow2(f.blue.bits) == StrayPart(filter, f, prev, head, 2) % Pow2(f.blue.bits)
  {
    hide Pack, Pow2, StrayPart;
    var r, g, b := StrayPart(filter, f, prev, head, 0), StrayPart(filter, f, prev, head, 1),
                   StrayPart(filter, f, prev, head, 2);
    Unpack(f, r, g, b, 0);
    Unpack(f, r, g, b, 1);
    Unpack(f, r, g, b, 2);
  }
}
