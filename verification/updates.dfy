/** HandleFramebufferUpdate (src/rfbproto.c) for updates of Tight rectangles: what a whole run of them
    shows, and what it reports to the window. */
module Updates {
  import opened Bytes
  import opened Area
  import opened VncViewer
  import opened TightFormat
  import opened TightFilter
  import opened TightInflate
  import opened TightEncode
  import opened Tight
  import opened TightSender
  import Window

  const TIGHT: nat := 7

  const LAST_RECT: nat := 0xFFFF_FF20

  /** rfbFramebufferUpdateRectHeader */
  datatype Header = Header(x: nat, y: nat, w: nat, h: nat, encoding: nat) {
    predicate Valid() {
      x < 0x1_0000 && y < 0x1_0000 && w < 0x1_0000 && h < 0x1_0000 && encoding < 0x1_0000_0000
    }

    predicate Fits(width: nat, height: nat) {
      x + w <= width && y + h <= height
    }
  }

  /** Most significant byte first. */
  function Word(high: nat, low: byte): nat {
    high * 256 + low
  }

  function HeaderOf(bs: seq<byte>): Header
    requires |bs| == 12
  {
    Header(Word(bs[0], bs[1]), Word(bs[2], bs[3]), Word(bs[4], bs[5]), Word(bs[6], bs[7]),
           Word(Word(Word(bs[8], bs[9]), bs[10]), bs[11]))
  }

  function HeaderBytes(h: Header): (bs: seq<byte>)
    requires h.Valid()
    ensures |bs| == 12
  {
    [h.x / 256, h.x % 256, h.y / 256, h.y % 256, h.w / 256, h.w % 256, h.h / 256, h.h % 256,
     h.encoding / 0x100_0000, h.encoding / 0x1_0000 % 256, h.encoding / 256 % 256, h.encoding % 256]
  }

  /** Column, row, width and height in two bytes each, then the encoding in four, all with the most
      significant byte first. */
  lemma {:induction false} HeaderMeaning(bs: seq<byte>)
    requires |bs| == 12
    ensures HeaderOf(bs).x == 256 * (bs[0] as nat) + bs[1] && HeaderOf(bs).y == 256 * (bs[2] as nat) + bs[3]
    ensures HeaderOf(bs).w == 256 * (bs[4] as nat) + bs[5] && HeaderOf(bs).h == 256 * (bs[6] as nat) + bs[7]
    ensures HeaderOf(bs).encoding == 7 <==> bs[8..] == [0, 0, 0, 7]
    ensures HeaderOf(bs).encoding == 0xFFFF_FF20 <==> bs[8..] == [0xFF, 0xFF, 0xFF, 0x20]
  {
    assert bs[8..] == [bs[8], bs[9], bs[10], bs[11]];
  }

  lemma {:induction false} HeaderUndone(h: Header)
    requires h.Valid()
    ensures HeaderOf(HeaderBytes(h)) == h
  {
    hide Word;
    WordUndone(h.x);
    WordUndone(h.y);
    WordUndone(h.w);
    WordUndone(h.h);
    WordUndone(h.encoding / 0x1_0000);
    WordUndone(h.encoding / 256);
    WordUndone(h.encoding);
    Quartered(h.encoding);
  }

  lemma {:induction false} WordUndone(v: nat)
    ensures Word(v / 256, v % 256) == v
  {
  }

  lemma {:induction false} Quartered(v: nat)
    ensures v / 0x1_0000 / 256 == v / 0x100_0000 && v / 256 / 256 == v / 0x1_0000
  {
  }

  /** A rectangle as sent, with what its stream has been fed and what input is left after it. */
  datatype Sent = Sent(header: Header, image: Image, fed: seq<byte>, rest: seq<byte>)

  datatype Image = Solid(colour: Pixel) | Rowwise(filter: Filter, used: nat, rows: seq<seq<nat>>)

  /** What it is to show. */
  ghost function Shown(image: Image, f: Format, w: nat, h: nat): seq<Pixel> {
    match image
    case Solid(colour) => Filled(Low(colour, f.bpp / 8), Rows(w, h))
    case Rowwise(filter, _, rows) =>
      if filter.Valid(f) && ValidRows(filter, f, rows, w) then ShownRows(filter, f, rows, w) else []
  }

  ghost predicate AllStreams(streams: seq<Inflater>) {
    |streams| == 4 && forall k :: 0 <= k < 4 ==> Streams(streams[k].inflated, streams[k].breaks)
  }

  /** Rows that are sent by way of a stream that has been fed `fed`, whatever the buffer holds. */
  ghost predicate SendsRows(zs: Inflater, fed: seq<byte>, body: seq<byte>, f: Format, image: Image, w: nat, h: nat,
                            fed': seq<byte>, rest: seq<byte>)
    requires Streams(zs.inflated, zs.breaks) && image.Rowwise?
  {
    forall stale: seq<byte> :: |stale| == BUFFER_SIZE ==>
      && Sends(zs, fed, body, stale, f, image.filter, image.used, image.rows, w, h, rest)
      && 1 + image.used <= |body| && fed' == FedAfter(zs, fed, body, stale, f, image.filter, image.used, w, h)
  }

  /** The input begins with the rectangle: its header, and bytes that send its image by way of the
      streams, which have been fed `feds`. */
  ghost predicate Begins(s: Sent, streams: seq<Inflater>, feds: seq<seq<byte>>, input: seq<byte>, f: Format,
                         width: nat, height: nat)
    requires AllStreams(streams) && |feds| == 4
  {
    && |input| > 12 && HeaderOf(input[..12]) == s.header && s.header.encoding == TIGHT && s.header.Fits(width, height)
    && var body, b, k := input[12..], input[12], ControlOf(input[12]).kind % 4;
       if s.image.Solid? then
         && ControlOf(b).kind == 8 && ColourSize(f) < |body|
         && s.image.colour == SolidColour(f, body[1..]) && s.rest == body[1 + ColourSize(f)..]
       else
         && ControlOf(b).kind < 8
         && SendsRows(streams[k], if Resets(b, k) then [] else feds[k], body, f, s.image, s.header.w, s.header.h,
                      s.fed, s.rest)
  }

  /** What the streams have been fed after a rectangle with control byte b. */
  function FedsAfter(feds: seq<seq<byte>>, b: byte, s: Sent): (r: seq<seq<byte>>)
    requires |feds| == 4
    ensures |r| == 4
  {
    seq(4, k requires 0 <= k < 4 => if Uses(b, k) then s.fed else if Resets(b, k) then [] else feds[k])
  }

  /** The input is the rectangles, one after the other, sharing the streams. */
  ghost predicate Session(sent: seq<Sent>, streams: seq<Inflater>, feds: seq<seq<byte>>, input: seq<byte>, f: Format,
                          width: nat, height: nat, rest: seq<byte>)
    requires AllStreams(streams) && |feds| == 4
    decreases |sent|
  {
    if sent == [] then input == rest
    else
      && Begins(sent[0], streams, feds, input, f, width, height)
      && Session(sent[1..], streams, FedsAfter(feds, input[12], sent[0]), sent[0].rest, f, width, height, rest)
  }

  /** The screen after the rectangles are drawn in turn. */
  ghost function Drawn(before: seq<Pixel>, sent: seq<Sent>, f: Format, width: nat): (now: seq<Pixel>)
    ensures |now| == |before|
    decreases |sent|
  {
    if sent == [] then before
    else
      var h := sent[0].header;
      Drawn(Blit(before, Area(width, h.x, h.y, h.w), Shown(sent[0].image, f, h.w, h.h)), sent[1..], f, width)
  }

  ghost function Feds(streams: seq<Inflater>): (feds: seq<seq<byte>>)
    requires |streams| == 4
    reads streams
    ensures |feds| == 4
  {
    [streams[0].Before(), streams[1].Before(), streams[2].Before(), streams[3].Before()]
  }

  /** The screen as a picture. */
  function PictureOf(screen: seq<Pixel>, width: nat, height: nat): (picture: Window.Picture)
    ensures picture.Keys == Window.Region(0, 0, width, height)
  {
    map p | p in Window.Region(0, 0, width, height) ::
      if Rows(width, p.y) + p.x < |screen| then screen[Rows(width, p.y) + p.x] else 0
  }

  /** Where two pictures differ, and what the second one has there. */
  function Changes(before: Window.Picture, now: Window.Picture): (content: Window.Picture)
    requires before.Keys == now.Keys
    ensures content.Keys <= now.Keys && before + content == now
    ensures forall p :: p in content ==> content[p] != before[p]
  {
    map p | p in now && now[p] != before[p] :: now[p]
  }

  /** The places a rectangle may draw: its own, but a column if it has none. */
  function Touched(x: nat, y: nat, w: nat, h: nat, width: nat): set<Window.Place> {
    if w > 0 then Window.Region(x, y, w, h)
    else var a := StrayArea(width, x, y); Window.Region(a.x, a.y, 1, h)
  }

  /** What a rectangle changes on the screen. */
  function Change(before: seq<Pixel>, now: seq<Pixel>, width: nat, height: nat): Window.Picture {
    Changes(PictureOf(before, width, height), PictureOf(now, width, height))
  }

  lemma {:induction false} BlitChanges(before: seq<Pixel>, width: nat, height: nat, a: Area, h: nat, img: seq<Pixel>)
    requires |before| == Rows(width, height) && a.stride == width && a.x + a.w <= width && |img| == Rows(a.w, h)
    ensures Change(before, Blit(before, a, img), width, height).Keys
            <= Window.Region(a.x, a.y, a.w, h)
  {
    hide Rows, Blit;
    var now := Blit(before, a, img);
    var content := Change(before, now, width, height);
    forall p | p in content
      ensures p in Window.Region(a.x, a.y, a.w, h)
    {
      InsideRows(width, height, p.x, p.y);
      BlitAt(before, a, img, p.x, p.y);
      CoversWhole(a, h, p.x, p.y);
    }
  }

  /** A decoded rectangle of rows changes its own places only, or those of its stray column. */
  lemma {:induction false} RowsTouch(zs: Inflater, fed: seq<byte>, fed': seq<byte>, input: seq<byte>,
                                     input': seq<byte>, stale: seq<byte>, prev: seq<nat>, filter: Filter, f: Format,
                                     before: seq<Pixel>, now: seq<Pixel>, h: Header, width: nat, height: nat,
                                     flagged: bool)
    requires Streams(zs.inflated, zs.breaks) && |stale| == BUFFER_SIZE && |prev| == 3 && filter.Valid(f)
    requires h.Fits(width, height) && |before| == Rows(width, height)
    requires Outcome(Done, zs, fed, fed', input, input', stale, prev, filter, f, before, now,
                     Area(width, h.x, h.y, h.w), height, h.h, flagged)
    ensures Change(before, now, width, height).Keys <= Touched(h.x, h.y, h.w, h.h, width)
  {
    hide Rows, Blit, Filtered, Zeros, Inflated, InflateSize, CompactRead, Streams, StrayPixel, Receive, RowsRunOver,
         Change;
    if filter.Strays(h.w) {
      if width == 0 {
        NothingToChange(before, now, height);
      } else {
        RowsIsProduct(1, h.h);
        BlitChanges(before, width, height, StrayArea(width, h.x, h.y), h.h,
                    Filled(StrayPixel(filter, f, prev, stale[..4]), h.h));
      }
    } else {
      var got := Receive(zs, fed, input, stale, Rows(filter.RowSize(f, h.w), h.h), flagged);
      BlitChanges(before, width, height, Area(width, h.x, h.y, h.w), h.h,
                  Filtered(filter, f, Zeros(filter, h.w), got.data, h.w, h.h));
    }
  }

  lemma {:induction false} SolidTouches(before: seq<Pixel>, h: Header, width: nat, height: nat, c: Pixel)
    requires h.Fits(width, height) && |before| == Rows(width, height)
    ensures Change(before, Blit(before, Area(width, h.x, h.y, h.w), Filled(c, Rows(h.w, h.h))), width, height).Keys
            <= Touched(h.x, h.y, h.w, h.h, width)
  {
    hide Rows, Blit, Change;
    BlitChanges(before, width, height, Area(width, h.x, h.y, h.w), h.h, Filled(c, Rows(h.w, h.h)));
  }

  lemma {:induction false} NothingToChange(before: seq<Pixel>, now: seq<Pixel>, height: nat)
    ensures Change(before, now, 0, height).Keys == {}
  {
  }

  /** A rectangle that the input begins with: what HandleTight needs to know of it. */
  lemma {:induction false} BodySent(s: Sent, streams: seq<Inflater>, feds: seq<seq<byte>>, input: seq<byte>,
                                    stale: seq<byte>, f: Format, width: nat, height: nat)
    requires AllStreams(streams) && |feds| == 4 && |stale| == BUFFER_SIZE
    requires Begins(s, streams, feds, input, f, width, height)
    ensures |input| > 12 && HeaderOf(input[..12]) == s.header && s.header.encoding == TIGHT &&
            s.header.Fits(width, height)
    ensures input[12..][0] == input[12]
    ensures s.image.Solid? ==>
              var body := input[12..];
              && ControlOf(body[0]).kind == 8 && ColourSize(f) < |body|
              && s.image.colour == SolidColour(f, body[1..]) && s.rest == body[1 + ColourSize(f)..]
    ensures s.image.Rowwise? ==>
              var k := ControlOf(input[12]).kind % 4;
              && ControlOf(input[12]).kind < 8
              && Sends(streams[k], if Resets(input[12], k) then [] else feds[k], input[12..], stale, f, s.image.filter,
                       s.image.used, s.image.rows, s.header.w, s.header.h, s.rest)
              && 1 + s.image.used <= |input[12..]|
              && s.fed == FedAfter(streams[k], if Resets(input[12], k) then [] else feds[k], input[12..], stale, f,
                                   s.image.filter, s.image.used, s.header.w, s.header.h)
              && s.image.filter.Valid(f) && ValidRows(s.image.filter, f, s.image.rows, s.header.w)
              && Shown(s.image, f, s.header.w, s.header.h) == ShownRows(s.image.filter, f, s.image.rows, s.header.w)
  {
    hide FedAfter, Streams, Receive, EncodeRows, HeaderSays, InPalette, Zeros, ValidRows, ShownRows;
  }

  lemma {:induction false} TightTouches(content: Content, zs: Inflater, fed: seq<byte>, fed': seq<byte>,
                                        input: seq<byte>, input': seq<byte>, stale: seq<byte>, prev: seq<nat>,
                                        f: Format, before: seq<Pixel>, now: seq<Pixel>, h: Header, width: nat,
                                        height: nat)
    requires |input| > 0 && Streams(zs.inflated, zs.breaks) && |stale| == BUFFER_SIZE && |prev| == 3 && f.Valid()
    requires h.Fits(width, height) && |before| == Rows(width, height)
    requires TightOutcome(Done, content, zs, fed, fed', input, input', stale, prev, f, before, now,
                          Area(width, h.x, h.y, h.w), height, h.h)
    ensures Change(before, now, width, height).Keys <= Touched(h.x, h.y, h.w, h.h, width)
  {
    hide Rows, Blit, Outcome, HeaderSays, Streams, Change, Touched, Low, SolidColour;
    var control := ControlOf(input[0]);
    if control.kind == 8 {
      SolidTouches(before, h, width, height, Low(SolidColour(f, input[1..]), f.bpp / 8));
    } else {
      RowsTouch(zs, fed, fed', input[1 + content.used..], input', stale, prev, content.filter, f, before, now, h, width,
                height, control.readUncompressed);
    }
  }

  /** A solid rectangle as sent. */
  lemma {:induction false} SolidShown(s: Sent, status: Status, content: Content, zs: Inflater, fed: seq<byte>,
                                      fed': seq<byte>, body: seq<byte>, input': seq<byte>, stale: seq<byte>,
                                      prev: seq<nat>, f: Format, before: seq<Pixel>, now: seq<Pixel>, a: Area,
                                      height: nat, rh: nat)
    requires |body| > 0 && Streams(zs.inflated, zs.breaks) && |stale| == BUFFER_SIZE && |prev| == 3 && f.Valid()
    requires a.y + rh <= height
    requires TightOutcome(status, content, zs, fed, fed', body, input', stale, prev, f, before, now, a, height, rh)
    requires s.image.Solid? && ControlOf(body[0]).kind == 8 && ColourSize(f) < |body|
    requires s.image.colour == SolidColour(f, body[1..]) && s.rest == body[1 + ColourSize(f)..]
    ensures status.Done? && input' == s.rest && now == Blit(before, a, Shown(s.image, f, a.w, rh))
  {
    hide Rows, Blit, Outcome, HeaderSays, Streams, Low, SolidColour;
  }

  lemma {:induction false} FedsAre(feds: seq<seq<byte>>, feds': seq<seq<byte>>, b: byte, s: Sent)
    requires |feds| == |feds'| == 4
    requires forall k :: 0 <= k < 4 && !Uses(b, k) ==> feds'[k] == if Resets(b, k) then [] else feds[k]
    requires ControlOf(b).kind < 8 ==> feds'[ControlOf(b).kind % 4] == s.fed
    ensures feds' == FedsAfter(feds, b, s)
  {
    hide Resets, ControlOf;
  }

  lemma {:induction false} FedsAt(streams: seq<Inflater>)
    requires |streams| == 4
    ensures forall k :: 0 <= k < 4 ==> Feds(streams)[k] == streams[k].Before()
  {
  }

  /** The body of a rectangle. */
  method HandleBody(client: RfbClient, streams: seq<Inflater>, buffer: array<byte>, tightPalette: array<byte>,
                    prevRow: array<nat>, f: Format, h: Header, ghost input: seq<byte>, ghost s: Sent,
                    ghost wellFormed: bool)
    returns (status: Status)
    requires client.Valid() && client.frameBuffer != null && f.Valid() && client.bitsPerPixel == f.bpp
    requires AllReady(streams) && Distinct(streams) && AllStreams(streams) && h.Fits(client.width, client.height)
    requires buffer.Length == BUFFER_SIZE && tightPalette.Length == 256 * 4 && prevRow.Length == PrevLength(f)
    requires client.frameBuffer != prevRow && buffer != tightPalette
    requires |input| >= 12 && client.input == input[12..]
    requires wellFormed ==>
               Begins(s, streams, Feds(streams), input, f, client.width, client.height) && h == s.header
    modifies client`input, client.frameBuffer, streams, buffer, tightPalette, prevRow
    ensures status.Done? ==>
              && AllReady(streams)
              && Change(old(client.Screen()), client.Screen(), client.width, client.height).Keys
                 <= Touched(h.x, h.y, h.w, h.h, client.width)
    ensures wellFormed ==>
              && status.Done? && client.input == s.rest && |input| > 12
              && Feds(streams) == FedsAfter(old(Feds(streams)), input[12], s)
              && client.Screen() == Blit(old(client.Screen()), Area(client.width, h.x, h.y, h.w),
                                         Shown(s.image, f, h.w, h.h))
  {
    hide Rows, Blit, TightOutcome, Sends, FedAfter, Streams, Begins, Touched, Change, FedsAfter, Resets, ControlOf,
         Shown, Feds, Uses, ShownRows, ValidRows, ColourSize, SolidColour, Filter.Valid, Format.Valid;
    ghost var before, stale, prev, feds, body := client.Screen(), buffer[..], prevRow[..3], Feds(streams), client.input;
    FedsAt(streams);
    if wellFormed {
      BodySent(s, streams, feds, input, stale, f, client.width, client.height);
    }
    ghost var fed := if body == [] then [] else FedBefore(streams, body[0]);
    ghost var rowwise, content := wellFormed && s.image.Rowwise?, Nothing;
    status, content :=
      HandleTight(client, streams, buffer, tightPalette, prevRow, f, h.x, h.y, h.w, h.h,
                  if rowwise then s.image.filter else Copy, if rowwise then s.image.used else 0,
                  if rowwise then s.image.rows else [], if rowwise then s.rest else [], rowwise);
    if body != [] {
      ghost var zs, a := streams[ControlOf(body[0]).kind % 4], Area(client.width, h.x, h.y, h.w);
      if wellFormed {
        if s.image.Solid? {
          SolidShown(s, status, content, zs, fed, zs.Before(), body, client.input, stale, prev, f, before,
                     client.Screen(), a, client.height, h.h);
        }
        FedsAt(streams);
        FedsAre(feds, Feds(streams), body[0], s);
      }
      if status.Done? {
        TightTouches(content, zs, fed, zs.Before(), body, client.input, stale, prev, f, before, client.Screen(), h,
                     client.width, client.height);
      }
    }
  }

  /** One rectangle of the loop. Done means to go on, unless it was rfbEncodingLastRect. */
  method HandleRect(client: RfbClient, streams: seq<Inflater>, buffer: array<byte>, tightPalette: array<byte>,
                    prevRow: array<nat>, f: Format, ghost s: Sent, ghost wellFormed: bool)
    returns (status: Status, last: bool, h: Header)
    requires client.Valid() && client.frameBuffer != null && f.Valid() && client.bitsPerPixel == f.bpp
    requires AllReady(streams) && Distinct(streams) && AllStreams(streams)
    requires buffer.Length == BUFFER_SIZE && tightPalette.Length == 256 * 4 && prevRow.Length == PrevLength(f)
    requires client.frameBuffer != prevRow && buffer != tightPalette
    requires wellFormed ==> Begins(s, streams, Feds(streams), client.input, f, client.width, client.height)
    modifies client`input, client.frameBuffer, streams, buffer, tightPalette, prevRow
    ensures last <==> |old(client.input)| >= 12 && old(client.input)[8..12] == [0xFF, 0xFF, 0xFF, 0x20]
    ensures status.Done? && !last ==>
              var input := old(client.input);
              && |input| >= 12 && h == HeaderOf(input[..12]) && input[8..12] == [0, 0, 0, 7]
    ensures last ==> status.Done? && !wellFormed && AllReady(streams) && client.Screen() == old(client.Screen())
    ensures status.Done? && !last ==>
              && AllReady(streams) && h.Fits(client.width, client.height)
              && Change(old(client.Screen()), client.Screen(), client.width, client.height).Keys
                 <= Touched(h.x, h.y, h.w, h.h, client.width)
    ensures wellFormed ==>
              && status.Done? && h == s.header && client.input == s.rest && |old(client.input)| > 12
              && Feds(streams) == FedsAfter(old(Feds(streams)), old(client.input)[12], s)
              && client.Screen() == Blit(old(client.Screen()), Area(client.width, h.x, h.y, h.w),
                                         Shown(s.image, f, h.w, h.h))
  {
    hide Rows, Blit, Streams, Begins, Touched, Change, FedsAfter, Shown, Feds, HeaderOf, Format.Valid;
    ghost var input := client.input;
    if wellFormed {
      HeaderIsSent(s, streams, Feds(streams), input, f, client.width, client.height);
    }
    last, h := false, Header(0, 0, 0, 0, 0);
    var ok, bs := client.ReadFromRFBServer(12);
    if !ok {
      return Failed, last, h;
    }
    h := HeaderOf(bs);
    HeaderMeaning(bs);
    assert bs[8..] == input[8..12];
    if h.encoding == LAST_RECT {
      return Done, true, h;
    }
    // Other encodings are not part of this loop.
    if h.encoding != TIGHT || h.x + h.w > client.width || h.y + h.h > client.height {
      return Failed, last, h;
    }
    status := HandleBody(client, streams, buffer, tightPalette, prevRow, f, h, input, s, wellFormed);
  }

  lemma {:induction false} HeaderIsSent(s: Sent, streams: seq<Inflater>, feds: seq<seq<byte>>, input: seq<byte>,
                                         f: Format, width: nat, height: nat)
    requires AllStreams(streams) && |feds| == 4 && Begins(s, streams, feds, input, f, width, height)
    ensures |input| > 12 && HeaderOf(input[..12]) == s.header && s.header.encoding == TIGHT &&
            s.header.Fits(width, height)
  {
    hide SendsRows, Streams;
  }

  /** The window's view of a run of rectangles: where each draws, and that the screen follows. */
  ghost predicate Follows(events: seq<Window.Event>, before: seq<Pixel>, now: seq<Pixel>, width: nat, height: nat,
                          damage: set<Window.Place>)
  {
    && Window.Fitting(events, width, height)
    && Window.Painted(PictureOf(before, width, height), events, width, height) == PictureOf(now, width, height)
    && Window.Covered(events, width, height) == damage
    && forall i :: 0 <= i < |events| ==>
         events[i].content.Keys <= Touched(events[i].x, events[i].y, events[i].w, events[i].h, width)
  }

  lemma {:induction false} FollowsNone(before: seq<Pixel>, width: nat, height: nat)
    ensures Follows([], before, before, width, height, {})
  {
    hide PictureOf;
  }

  lemma {:induction false} FollowsNext(events: seq<Window.Event>, before: seq<Pixel>, mid: seq<Pixel>, now: seq<Pixel>,
                                       h: Header, width: nat, height: nat, damage: set<Window.Place>)
    requires Follows(events, before, mid, width, height, damage) && h.Fits(width, height)
    requires Change(mid, now, width, height).Keys <= Touched(h.x, h.y, h.w, h.h, width)
    ensures var e := Window.Rect(h.x, h.y, h.w, h.h, Change(mid, now, width, height));
            Follows(events + [e], before, now, width, height, damage + Window.Region(h.x, h.y, h.w, h.h))
  {
    hide Touched, Window.Painted, Window.Covered, Window.Region;
    var e := Window.Rect(h.x, h.y, h.w, h.h, Change(mid, now, width, height));
    assert Window.Fitting(events + [e], width, height);
    Window.PaintedNext(PictureOf(before, width, height), events, e, width, height);
  }

  /** The rectangles of an update. For any input, the window's framebuffer follows the screen by way of
      one event for each, which draws nothing outside its rectangle but a stray column, and `damage` is
      what they report. If the input is a session of rectangles, each sent by way of whichever stream,
      all are drawn in turn, and just their bytes are consumed. */
  method HandleRects(client: RfbClient, streams: seq<Inflater>, buffer: array<byte>, tightPalette: array<byte>,
                     prevRow: array<nat>, f: Format, nRects: nat, ghost sent: seq<Sent>, ghost rest: seq<byte>,
                     ghost wellFormed: bool)
    returns (status: Status, damage: set<Window.Place>, ghost events: seq<Window.Event>)
    requires client.Valid() && client.frameBuffer != null && f.Valid() && client.bitsPerPixel == f.bpp
    requires AllReady(streams) && Distinct(streams) && AllStreams(streams)
    requires buffer.Length == BUFFER_SIZE && tightPalette.Length == 256 * 4 && prevRow.Length == PrevLength(f)
    requires client.frameBuffer != prevRow && buffer != tightPalette
    requires wellFormed ==>
               && |sent| == nRects
               && Session(sent, streams, Feds(streams), client.input, f, client.width, client.height, rest)
    modifies client`input, client.frameBuffer, streams, buffer, tightPalette, prevRow
    ensures status.Done? ==>
              && AllReady(streams)
              && Follows(events, old(client.Screen()), client.Screen(), client.width, client.height, damage)
    ensures wellFormed ==>
              && status.Done? && client.input == rest
              && client.Screen() == Drawn(old(client.Screen()), sent, f, client.width)
  {
    hide Rows, Blit, Streams, Begins, Touched, Change, FedsAfter, Shown, Feds, Format.Valid, Follows;
    status, damage, events := Done, {}, [];
    ghost var before, left := client.Screen(), sent;
    FollowsNone(before, client.width, client.height);
    var i := 0;
    while i < nRects
      invariant client.Valid() && i <= nRects && status.Done? && AllReady(streams)
      invariant Follows(events, before, client.Screen(), client.width, client.height, damage)
      invariant wellFormed ==>
                  && |left| == nRects - i
                  && Session(left, streams, Feds(streams), client.input, f, client.width, client.height, rest)
                  && Drawn(client.Screen(), left, f, client.width) == Drawn(before, sent, f, client.width)
    {
      ghost var mid := client.Screen();
      var last, h;
      status, last, h := HandleRect(client, streams, buffer, tightPalette, prevRow, f,
                                    if wellFormed then left[0] else Sent(Header(0, 0, 0, 0, 0), Solid(0), [], []),
                                    wellFormed);
      if !status.Done? || last {
        return;
      }
      FollowsNext(events, before, mid, client.Screen(), h, client.width, client.height, damage);
      damage := damage + Window.Region(h.x, h.y, h.w, h.h);
      events := events + [Window.Rect(h.x, h.y, h.w, h.h, Change(mid, client.Screen(), client.width, client.height))];
      if wellFormed {
        left := left[1..];
      }
      i := i + 1;
    }
  }

  /** A window that shows the screen sees every event of the run; it then shows the screen again, and
      its buffers stay coherent exactly if all the events are harmless. Rectangles with columns are. */
  lemma {:induction false} WindowFollows(s: Window.State, events: seq<Window.Event>, before: seq<Pixel>,
                                         now: seq<Pixel>, damage: set<Window.Place>)
    requires Window.Coherent(s) && s.running && s.updating && s.fb == PictureOf(before, s.width, s.height)
    requires Follows(events, before, now, s.width, s.height, damage)
    ensures Window.Run(s, events)
    ensures var t := Window.After(s, events);
            t.fb == PictureOf(now, s.width, s.height) && t.damage == s.damage + damage
    ensures Window.AllCoherent(s, events) <==> Window.AllHarmless(s, events)
    ensures (forall i :: 0 <= i < |events| ==> events[i].w > 0) ==> Window.AllReport(s, events)
  {
    hide PictureOf, Window.Region, Window.Painted, Window.Covered, Window.UpToDate, Window.Step;
    Window.RectsRun(s, events);
    Window.CoherentThroughout(s, events);
    if forall i :: 0 <= i < |events| ==> events[i].w > 0 {
      Window.InsideReports(s, events);
    }
  }

  lemma {:induction false} SamePicture(before: seq<Pixel>, now: seq<Pixel>, width: nat, height: nat)
    requires |before| == |now| == Rows(width, height) && width > 0
    ensures Change(before, now, width, height) == map[] <==> now == before
  {
    hide Rows;
    var p, q := PictureOf(before, width, height), PictureOf(now, width, height);
    if Change(before, now, width, height) == map[] {
      assert p == q;
      forall x: nat, y: nat | x < width && y < height
        ensures SameAt(now, before, width, x, y)
      {
        InsideRows(width, height, x, y);
        var place := Window.Place(x, y);
        assert p[place] == q[place];
      }
      SameEverywhere(now, before, width, height);
    }
  }

  /** A gradient rectangle without columns leaves the buffers of a window coherent exactly if its column
      already holds the pixel: it reports nothing. */
  lemma {:induction false} StrayIsNotReported(s: Window.State, i: nat, zs: Inflater, fed: seq<byte>, fed': seq<byte>,
                                              input: seq<byte>, input': seq<byte>, stale: seq<byte>, prev: seq<nat>,
                                              filter: Filter, f: Format, before: seq<Pixel>, now: seq<Pixel>, h: Header,
                                              flagged: bool)
    requires Streams(zs.inflated, zs.breaks) && |stale| == BUFFER_SIZE && |prev| == 3 && filter.Valid(f)
    requires h.Fits(s.width, s.height) && |before| == Rows(s.width, s.height) && filter.Strays(h.w) && s.width > 0
    requires Outcome(Done, zs, fed, fed', input, input', stale, prev, filter, f, before, now,
                     Area(s.width, h.x, h.y, 0), s.height, h.h, flagged)
    requires Window.Coherent(s) && s.running && s.updating && s.fb == PictureOf(before, s.width, s.height)
    requires s.damage == {} && i < 3 && s.surfaces[i].damage == {}
    ensures var e := Window.Rect(h.x, h.y, 0, h.h, Change(before, now, s.width, s.height));
            && s.Allows(e)
            && (Window.Coherent(Window.Step(s, e).0) <==>
                  Holding(before, StrayArea(s.width, h.x, h.y), h.h, StrayPixel(filter, f, prev, stale[..4])))
  {
    hide Rows, Blit, StrayPixel, Window.UpToDate, Window.Step, Window.Region, Holding, PictureOf;
    var c, column := StrayPixel(filter, f, prev, stale[..4]), StrayArea(s.width, h.x, h.y);
    StrayColumnChanges(before, Area(s.width, h.x, h.y, 0), s.height, h.h, c);
    assert now == Blit(before, column, Filled(c, h.h));
    SamePicture(before, now, s.width, s.height);
    var e := Window.Rect(h.x, h.y, 0, h.h, Change(before, now, s.width, s.height));
    Window.RectKeepsCoherence(s, e);
    NothingReported(s, e, i);
  }

  lemma {:induction false} NothingReported(s: Window.State, e: Window.Event, i: nat)
    requires s.Valid() && e.Rect? && s.Allows(e) && e.w == 0 && s.damage == {} && i < 3 && s.surfaces[i].damage == {}
    requires forall p :: p in e.content ==> e.content[p] != s.fb[p]
    ensures Window.Harmless(s, e) <==> e.content == map[]
  {
    if p :| p in e.content {
      assert p !in s.surfaces[i].damage;
    }
  }

  /** The rectangles of a session lie inside the framebuffer and have whole images. */
  lemma {:induction false} SessionIsWhole(sent: seq<Sent>, streams: seq<Inflater>, feds: seq<seq<byte>>,
                                          input: seq<byte>, f: Format, width: nat, height: nat, rest: seq<byte>)
    requires AllStreams(streams) && |feds| == 4 && Session(sent, streams, feds, input, f, width, height, rest)
    ensures AllWhole(sent, f, width, height)
    decreases |sent|
  {
    hide Rows, Begins, FedsAfter, Whole, Streams;
    if sent != [] {
      BeginsIsWhole(sent[0], streams, feds, input, f, width, height);
      SessionIsWhole(sent[1..], streams, FedsAfter(feds, input[12], sent[0]), sent[0].rest, f, width, height, rest);
    }
  }

  lemma {:induction false} BeginsIsWhole(s: Sent, streams: seq<Inflater>, feds: seq<seq<byte>>, input: seq<byte>,
                                         f: Format, width: nat, height: nat)
    requires AllStreams(streams) && |feds| == 4 && Begins(s, streams, feds, input, f, width, height)
    ensures |input| > 12 && s.header.Fits(width, height) && Whole(s, f)
  {
    hide Rows, Streams, ShownRows, ValidRows, Receive, EncodeRows, HeaderSays, InPalette, Zeros, FedAfter;
    if s.image.Rowwise? {
      var zeros := seq(BUFFER_SIZE, _ => 0 as byte);
      BodySent(s, streams, feds, input, zeros, f, width, height);
      ShownSize(s.image.filter, f, s.image.rows, s.header.w);
    }
  }

  lemma {:induction false} ShownSize(filter: Filter, f: Format, rows: seq<seq<nat>>, w: nat)
    requires filter.Valid(f) && ValidRows(filter, f, rows, w)
    ensures |ShownRows(filter, f, rows, w)| == Rows(w, |rows|)
  {
    hide ShownRow, ValidRow;
    if rows != [] {
      ShownSize(filter, f, rows[..|rows| - 1], w);
    }
  }

  /** A rectangle that sends rows as TightSender does, by way of stream k. It resets any streams, goes on
      with stream k or starts it over, and leaves the others. Without zlib the control byte is that of
      stream 0. */
  lemma {:induction false} RectSent(streams: seq<Inflater>, feds: seq<seq<byte>>, k: nat, reset: set<nat>, f: Format,
                                    h: Header, header: seq<byte>, filter: Filter, rows: seq<seq<nat>>,
                                    compressed: seq<byte>, width: nat, height: nat, rest: seq<byte>)
    returns (s: Sent, input: seq<byte>)
    requires AllStreams(streams) && |feds| == 4 && k < 4 && |compressed| < 0x40_0000
    requires h.Valid() && h.encoding == 7 && h.Fits(width, height) && |rows| == h.h
    requires filter.Valid(f) && filter.Predictable(f, h.w) && HeaderSays(header, f, true, filter, |header|)
    requires ValidRows(filter, f, rows, h.w) && InPalette(filter, rows, PaletteSize(header))
    requires filter.RowSize(f, h.w) <= InflateSize(filter, f)
    requires filter.Strays(h.w) || filter.Spills(h.w) ==> rows == []
    requires var data, zs := EncodeRows(filter, f, Zeros(filter, h.w), rows, h.w), streams[k];
             if compressed == [] then |data| <= BUFFER_SIZE && k == 0
             else
               var fed := if k in reset then [] else feds[k];
               !zs.breaks(fed + compressed) && zs.inflated(fed + compressed) == zs.inflated(fed) + data
    ensures var data, fed := EncodeRows(filter, f, Zeros(filter, h.w), rows, h.w), if k in reset then [] else feds[k];
            && s == Sent(h, Rowwise(filter, |header|, rows), fed + Compressed(data, compressed), rest)
            && input == HeaderBytes(h) + (TightBytes(k, reset, header, data, compressed) + rest)
            && Begins(s, streams, feds, input, f, width, height)
            && FedsAfter(feds, input[12], s)[k] == s.fed
            && forall i :: 0 <= i < 4 && i != k ==>
                 FedsAfter(feds, input[12], s)[i] == if i in reset then [] else feds[i]
  {
    hide Rows, Streams, EncodeRows, ValidRows, HeaderSays, InPalette, Zeros, InflateSize, PaletteSize, Sends, FedAfter,
         Filter.RowSize, HeaderBytes, HeaderOf, DataBytes, Resets, Flags, ControlByte;
    var data := EncodeRows(filter, f, Zeros(filter, h.w), rows, h.w);
    var fed, body := if k in reset then [] else feds[k], TightBytes(k, reset, header, data, compressed) + rest;
    s := Sent(h, Rowwise(filter, |header|, rows), fed + Compressed(data, compressed), rest);
    input := HeaderBytes(h) + body;
    assert input[..12] == HeaderBytes(h) && input[12..] == body && input[12] == body[0];
    HeaderUndone(h);
    Controls(k, reset, data, compressed);
    forall i | 0 <= i < 4
      ensures Resets(body[0], i) <==> i in reset
    {
      ResetsAsked(body[0], reset, i);
    }
    forall stale: seq<byte> | |stale| == BUFFER_SIZE
      ensures Sends(streams[k], fed, body, stale, f, filter, |header|, rows, h.w, h.h, rest)
      ensures s.fed == FedAfter(streams[k], fed, body, stale, f, filter, |header|, h.w, h.h)
    {
      AnyImage(streams[k], fed, k, reset, f, header, filter, rows, h.w, compressed, stale, rest);
    }
  }

  /** All the rectangles lie inside the framebuffer and have whole images. */
  ghost predicate AllWhole(sent: seq<Sent>, f: Format, width: nat, height: nat) {
    forall i :: 0 <= i < |sent| ==> sent[i].header.Fits(width, height) && Whole(sent[i], f)
  }

  /** Rectangle k is the last that covers the place. */
  predicate LastOver(sent: seq<Sent>, k: nat, x: nat, y: nat) {
    && k < |sent| && InHeader(sent[k].header, x, y)
    && forall i :: k < i < |sent| ==> !InHeader(sent[i].header, x, y)
  }

  /** The place shows its pixel of the rectangle's image. */
  ghost predicate ShowsPixel(now: seq<Pixel>, s: Sent, f: Format, width: nat, x: nat, y: nat)
    requires InHeader(s.header, x, y)
  {
    var h := s.header;
    var img, p, q := Shown(s.image, f, h.w, h.h), Rows(width, y) + x, Rows(h.w, y - h.y) + (x - h.x);
    p < |now| && q < |img| && now[p] == img[q]
  }

  /** After a run of rectangles every place that one of them covers shows the last of these. */
  lemma {:induction false} LastRectangle(before: seq<Pixel>, sent: seq<Sent>, f: Format, width: nat, height: nat,
                                         k: nat, x: nat, y: nat)
    requires |before| == Rows(width, height) && x < width && y < height
    requires AllWhole(sent, f, width, height) && LastOver(sent, k, x, y)
    ensures ShowsPixel(Drawn(before, sent, f, width), sent[k], f, width, x, y)
    decreases |sent|
  {
    hide Rows, Blit, Shown;
    InsideRows(width, height, x, y);
    var h := sent[0].header;
    var a, img := Area(width, h.x, h.y, h.w), Shown(sent[0].image, f, h.w, h.h);
    if k == 0 {
      InsideRows(h.w, h.h, x - h.x, y - h.y);
      BlitAt(before, a, img, x, y);
      CoversWhole(a, h.h, x, y);
      LaterElsewhere(Blit(before, a, img), sent[1..], f, width, height, x, y);
    } else {
      LastRectangle(Blit(before, a, img), sent[1..], f, width, height, k - 1, x, y);
    }
  }

  predicate InHeader(h: Header, x: nat, y: nat) {
    h.x <= x < h.x + h.w && h.y <= y < h.y + h.h
  }

  /** Its image has all the pixels of the rectangle. */
  ghost predicate Whole(s: Sent, f: Format) {
    |Shown(s.image, f, s.header.w, s.header.h)| == Rows(s.header.w, s.header.h)
  }

  lemma {:induction false} LaterElsewhere(before: seq<Pixel>, sent: seq<Sent>, f: Format, width: nat, height: nat,
                                          x: nat, y: nat)
    requires |before| == Rows(width, height) && x < width && y < height && AllWhole(sent, f, width, height)
    requires forall i :: 0 <= i < |sent| ==> !InHeader(sent[i].header, x, y)
    ensures var p := Rows(width, y) + x; p < |before| && Drawn(before, sent, f, width)[p] == before[p]
    decreases |sent|
  {
    hide Rows, Blit, Shown;
    InsideRows(width, height, x, y);
    if sent != [] {
      var h := sent[0].header;
      var a, img := Area(width, h.x, h.y, h.w), Shown(sent[0].image, f, h.w, h.h);
      BlitAt(before, a, img, x, y);
      CoversWhole(a, h.h, x, y);
      LaterElsewhere(Blit(before, a, img), sent[1..], f, width, height, x, y);
    }
  }
}
