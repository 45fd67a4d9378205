/** Damage-tracked triple buffering: on_vnc_client_update_fb, window_swap and on_vnc_client_alloc_fb
    (src/main.c), render_image (src/renderer.c), and the update callbacks of src/vnc.c.

    A region is a set of places; a picture gives every place of a width x height area its pixel. */
module Window {
  import opened Bytes

  datatype Place = Place(x: nat, y: nat)

  type Picture = map<Place, Pixel>

  /** The places of a w x h rectangle at (x, y). */
  function Region(x: nat, y: nat, w: nat, h: nat): (r: set<Place>)
    ensures forall p :: p in r <==> x <= p.x < x + w && y <= p.y < y + h
  {
    set i, j | x <= i < x + w && y <= j < y + h :: Place(i, j)
  }

  /** A buffer: what it holds, and where that is out of date. */
  datatype Surface = Surface(pixels: Picture, damage: set<Place>)

  /** render_image: copy the framebuffer inside the buffer's damage, and clear the damage. */
  function Render(s: Surface, fb: Picture): Surface {
    Surface(map p | p in s.pixels :: if p in s.damage && p in fb then fb[p] else s.pixels[p], {})
  }

  /** What happens to the window: a server message's updates and resizes. A resize comes with
      what the newly allocated memory happens to hold. */
  datatype Event =
    | Start
    | Rect(x: nat, y: nat, w: nat, h: nat, content: Picture)
    | Finish
    | Cancel
    | Resize(width: nat, height: nat, garbage: Picture, surfaces: seq<Picture>)

  /** fb and damage are the client's; `back` is which of the three buffers backBuffer points to.
      After a failed update the program stops. */
  datatype State = State(width: nat, height: nat, fb: Picture, damage: set<Place>, surfaces: seq<Surface>,
                         back: nat, index: nat, updating: bool, running: bool)
  {
    predicate Valid() {
      && |surfaces| == 3 && back < 3 && index < 3 && fb.Keys == Region(0, 0, width, height)
      && forall i :: 0 <= i < 3 ==> surfaces[i].pixels.Keys == fb.Keys
    }

    /** What can happen next: updates do not nest, and rectangles lie inside the framebuffer. What is
        drawn for a rectangle may be elsewhere in it than the rectangle that is reported. */
    predicate Allows(e: Event) {
      match e
      case Start => !updating
      case Rect(x, y, w, h, content) =>
        updating && x + w <= width && y + h <= height && content.Keys <= fb.Keys
      case Finish => updating
      case Cancel => updating
      case Resize(width, height, garbage, pictures) =>
        && garbage.Keys == Region(0, 0, width, height)
        && |pictures| == 3 && forall i :: 0 <= i < 3 ==> pictures[i].Keys == garbage.Keys
    }
  }

  /** What is committed, if anything: the picture, and the damage announced with it. */
  datatype Commit = None | Shown(picture: Picture, announced: set<Place>)

  function Damaged(surfaces: seq<Surface>, damage: set<Place>): (r: seq<Surface>)
    ensures |r| == |surfaces|
  {
    seq(|surfaces|, i requires 0 <= i < |surfaces| => surfaces[i].(damage := surfaces[i].damage + damage))
  }

  /** New buffers, out of date everywhere. */
  function Blank(pictures: seq<Picture>, all: set<Place>): (r: seq<Surface>)
    ensures |r| == |pictures|
  {
    seq(|pictures|, i requires 0 <= i < |pictures| => Surface(pictures[i], all))
  }

  function Step(s: State, e: Event): (r: (State, Commit))
    requires s.Valid() && s.Allows(e)
    ensures r.0.Valid()
  {
    match e
    case Start => (s.(damage := {}, updating := true), None)
    case Rect(x, y, w, h, content) => (s.(fb := s.fb + content, damage := s.damage + Region(x, y, w, h)), None)
    case Cancel => (s.(updating := false, running := false), None)
    case Resize(width, height, garbage, pictures) =>
      (s.(width := width, height := height, fb := garbage, surfaces := Blank(pictures, garbage.Keys), back := 0), None)
    case Finish =>
      if s.damage == {} then (s.(updating := false), None)
      else
        var damaged := Damaged(s.surfaces, s.damage);
        var rendered := Render(damaged[s.back], s.fb);
        var next := (s.index + 1) % 3;
        (s.(surfaces := damaged[s.back := rendered], updating := false, index := next, back := next),
         Shown(rendered.pixels, s.damage))
  }

  /** Every buffer differs from the framebuffer only inside its damage, or where an update under
      way has drawn. */
  ghost predicate Coherent(s: State) {
    s.Valid() && forall i :: 0 <= i < 3 ==> UpToDate(s.surfaces[i], s.fb, if s.updating then s.damage else {})
  }

  ghost predicate UpToDate(surface: Surface, fb: Picture, pending: set<Place>) {
    && surface.pixels.Keys == fb.Keys
    && forall p :: p in fb && p !in surface.damage && p !in pending ==> surface.pixels[p] == fb[p]
  }

  /** The events a run may consist of. */
  predicate Run(s: State, events: seq<Event>)
    requires s.Valid()
    decreases |events|
  {
    events == [] || (s.running && s.Allows(events[0]) && Run(Step(s, events[0]).0, events[1..]))
  }

  function After(s: State, events: seq<Event>): (r: State)
    requires s.Valid() && Run(s, events)
    ensures r.Valid()
    decreases |events|
  {
    if events == [] then s else After(Step(s, events[0]).0, events[1..])
  }

  /** What is committed, event by event. */
  function Commits(s: State, events: seq<Event>): (c: seq<Commit>)
    requires s.Valid() && Run(s, events)
    ensures |c| == |events|
    decreases |events|
  {
    if events == [] then [] else [Step(s, events[0]).1] + Commits(Step(s, events[0]).0, events[1..])
  }

  /** The same without buffers or damage tracking: whenever an update has drawn anything, show a
      copy of the whole framebuffer. */
  datatype Simple = Simple(fb: Picture, damage: set<Place>)

  function SimpleStep(s: Simple, e: Event): (Simple, Commit) {
    match e
    case Start => (s.(damage := {}), None)
    case Rect(x, y, w, h, content) => (Simple(s.fb + content, s.damage + Region(x, y, w, h)), None)
    case Cancel => (s, None)
    case Resize(_, _, garbage, _) => (s.(fb := garbage), None)
    case Finish => (s, if s.damage == {} then None else Shown(s.fb, s.damage))
  }

  function SimpleCommits(s: Simple, events: seq<Event>): seq<Commit>
    decreases |events|
  {
    if events == [] then [] else [SimpleStep(s, events[0]).1] + SimpleCommits(SimpleStep(s, events[0]).0, events[1..])
  }

  /** Every place that the event changes is reported, by it or before in the same update. */
  ghost predicate Reports(s: State, e: Event) {
    e.Rect? ==>
      forall p :: p in e.content && p in s.fb && e.content[p] != s.fb[p] ==> p in s.damage + Region(e.x, e.y, e.w, e.h)
  }

  /** The same but for places that are out of date in every buffer. */
  ghost predicate Harmless(s: State, e: Event) {
    e.Rect? ==>
      forall p :: p in e.content && p in s.fb && e.content[p] != s.fb[p] ==>
        p in s.damage + Region(e.x, e.y, e.w, e.h) || forall i :: 0 <= i < |s.surfaces| ==> p in s.surfaces[i].damage
  }

  ghost predicate AllReport(s: State, events: seq<Event>)
    requires s.Valid() && Run(s, events)
    decreases |events|
  {
    events == [] || (Reports(s, events[0]) && AllReport(Step(s, events[0]).0, events[1..]))
  }

  ghost predicate AllHarmless(s: State, events: seq<Event>)
    requires s.Valid() && Run(s, events)
    decreases |events|
  {
    events == [] || (Harmless(s, events[0]) && AllHarmless(Step(s, events[0]).0, events[1..]))
  }

  /** Every state of the run is coherent, until the program stops. */
  ghost predicate AllCoherent(s: State, events: seq<Event>)
    requires s.Valid() && Run(s, events)
    decreases |events|
  {
    (s.running ==> Coherent(s)) && (events == [] || AllCoherent(Step(s, events[0]).0, events[1..]))
  }

  lemma {:induction false} ReportsIsHarmless(s: State, events: seq<Event>)
    requires s.Valid() && Run(s, events) && AllReport(s, events)
    ensures AllHarmless(s, events)
    decreases |events|
  {
    hide Step, Region;
    if events != [] {
      ReportsIsHarmless(Step(s, events[0]).0, events[1..]);
    }
  }

  /** A rectangle keeps the buffers coherent exactly if it is harmless. */
  lemma {:induction false} RectKeepsCoherence(s: State, e: Event)
    requires Coherent(s) && s.running && s.Allows(e) && e.Rect?
    ensures Coherent(Step(s, e).0) <==> Harmless(s, e)
  {
    hide Region;
    var t := Step(s, e).0;
    if Harmless(s, e) {
      forall i | 0 <= i < 3
        ensures UpToDate(t.surfaces[i], t.fb, t.damage)
      {
        assert UpToDate(s.surfaces[i], s.fb, s.damage);
      }
    } else {
      var p :| p in e.content && p in s.fb && e.content[p] != s.fb[p] &&
               p !in s.damage + Region(e.x, e.y, e.w, e.h) &&
               !forall i :: 0 <= i < |s.surfaces| ==> p in s.surfaces[i].damage;
      var i :| 0 <= i < |s.surfaces| && p !in s.surfaces[i].damage;
      assert UpToDate(s.surfaces[i], s.fb, s.damage);
      assert !UpToDate(t.surfaces[i], t.fb, t.damage);
    }
  }

  /** One event: coherence is kept unless something is drawn that is not reported, and what is
      committed is the whole framebuffer. */
  lemma {:induction false} StepIsSimple(s: State, e: Event)
    requires Coherent(s) && s.running && s.Allows(e)
    ensures Step(s, e).0.running ==> (Coherent(Step(s, e).0) <==> Harmless(s, e))
    ensures var (t, c) := SimpleStep(Simple(s.fb, s.damage), e);
            t == Simple(Step(s, e).0.fb, Step(s, e).0.damage) && c == Step(s, e).1
  {
    hide Region;
    var t := Step(s, e).0;
    if e.Finish? {
      FinishIsSimple(s);
    } else if e.Rect? {
      RectKeepsCoherence(s, e);
    } else if !e.Cancel? {
      forall i | 0 <= i < 3
        ensures UpToDate(t.surfaces[i], t.fb, if t.updating then t.damage else {})
      {
        assert UpToDate(s.surfaces[i], s.fb, if s.updating then s.damage else {});
      }
    }
  }

  lemma {:induction false} FinishIsSimple(s: State)
    requires Coherent(s) && s.updating
    ensures Coherent(Step(s, Finish).0)
    ensures s.damage != {} ==> Step(s, Finish).1 == Shown(s.fb, s.damage)
  {
    hide Region;
    var t := Step(s, Finish).0;
    forall i | 0 <= i < 3
      ensures UpToDate(t.surfaces[i], t.fb, {})
    {
      assert UpToDate(s.surfaces[i], s.fb, s.damage);
    }
    assert UpToDate(s.surfaces[s.back], s.fb, s.damage);
    assert s.damage != {} ==> Step(s, Finish).1.picture == s.fb;
  }

  /** What an update commits is the framebuffer exactly if the buffer drawn into is up to date outside
      its damage and what the update has reported. */
  lemma {:induction false} CommitsFramebuffer(s: State)
    requires s.Valid() && s.Allows(Finish) && s.damage != {}
    ensures Step(s, Finish).1 == Shown(s.fb, s.damage) <==> UpToDate(s.surfaces[s.back], s.fb, s.damage)
  {
    hide Region;
    var surface, picture := s.surfaces[s.back], Step(s, Finish).1.picture;
    assert forall p :: p in s.fb ==>
                         picture[p] == if p in surface.damage + s.damage then s.fb[p] else surface.pixels[p];
    if UpToDate(surface, s.fb, s.damage) {
      assert picture == s.fb;
    }
  }

  /** Over any run, all buffers stay coherent exactly if whatever rectangles draw elsewhere than they
      report changes nothing, or only what is out of date in every buffer anyway. */
  lemma {:induction false} CoherentThroughout(s: State, events: seq<Event>)
    requires Coherent(s) && Run(s, events)
    ensures AllCoherent(s, events) <==> AllHarmless(s, events)
    decreases |events|
  {
    hide Step, UpToDate, Region, Harmless;
    if events != [] {
      StepIsSimple(s, events[0]);
      var t := Step(s, events[0]).0;
      if t.running {
        if Harmless(s, events[0]) {
          CoherentThroughout(t, events[1..]);
        } else {
          assert !AllCoherent(t, events[1..]);
        }
      } else {
        assert events[1..] == [];
        OnlyRectsHarm(s, events[0]);
      }
    }
  }

  lemma {:induction false} OnlyRectsHarm(s: State, e: Event)
    requires s.Valid() && s.Allows(e) && s.running && !Step(s, e).0.running
    ensures Harmless(s, e)
  {
    hide Region;
  }

  /** Then, what the damage-tracked buffers show over the run is what copying the whole framebuffer
      every time would show. */
  lemma {:induction false} CacheIsInvisible(s: State, events: seq<Event>)
    requires Coherent(s) && Run(s, events) && AllHarmless(s, events)
    ensures Commits(s, events) == SimpleCommits(Simple(s.fb, s.damage), events)
    ensures After(s, events).running ==> Coherent(After(s, events))
    decreases |events|
  {
    hide Step, SimpleStep, UpToDate, Region, Harmless;
    if events != [] {
      StepIsSimple(s, events[0]);
      var t := Step(s, events[0]).0;
      if t.running {
        CacheIsInvisible(t, events[1..]);
      } else {
        assert events[1..] == [];
      }
    }
  }

  /** The picture committed last differs from the framebuffer only where the update under way has drawn. */
  ghost predicate LastShown(s: State, last: Picture) {
    && last.Keys == s.fb.Keys
    && forall p :: p in s.fb && !(s.updating && p in s.damage) ==> last[p] == s.fb[p]
  }

  /** The commit before, if no resize came after it. */
  function NextLast(last: Commit, e: Event, c: Commit): Commit {
    if e.Resize? then None else if c.Shown? then c else last
  }

  ghost predicate ChangesAnnounced(last: Picture, c: Commit) {
    && c.Shown? && last.Keys == c.picture.Keys
    && forall p :: p in last && p !in c.announced ==> c.picture[p] == last[p]
  }

  /** Every commit of the run announces all changes from the one before, if no resize came between. */
  ghost predicate AllAnnounced(s: State, last: Commit, events: seq<Event>)
    requires s.Valid() && Run(s, events)
    decreases |events|
  {
    events == [] ||
    var (t, c) := Step(s, events[0]);
    && (c.Shown? && last.Shown? ==> ChangesAnnounced(last.picture, c))
    && AllAnnounced(t, NextLast(last, events[0], c), events[1..])
  }

  lemma {:induction false} StepAnnounces(s: State, last: Commit, e: Event)
    requires Coherent(s) && s.running && s.Allows(e) && Reports(s, e) && (last.Shown? ==> LastShown(s, last.picture))
    ensures var (t, c) := Step(s, e);
            && (c.Shown? && last.Shown? ==> ChangesAnnounced(last.picture, c))
            && (t.running && NextLast(last, e, c).Shown? ==> LastShown(t, NextLast(last, e, c).picture))
  {
    hide Region, UpToDate;
    var (t, c) := Step(s, e);
    if e.Finish? {
      FinishIsSimple(s);
    } else if e.Rect? {
      assert t.fb.Keys == s.fb.Keys;
    }
  }

  /** The compositor may keep what was not announced as damaged: over any run whose rectangles report
      what they change, it is unchanged. */
  lemma {:induction false} AnnouncementsCover(s: State, last: Commit, events: seq<Event>)
    requires Coherent(s) && Run(s, events) && AllReport(s, events) && (last.Shown? ==> LastShown(s, last.picture))
    ensures AllAnnounced(s, last, events)
    decreases |events|
  {
    hide UpToDate, LastShown, ChangesAnnounced, NextLast, Step, Region;
    if events != [] {
      ReportsIsHarmless(s, events);
      var (t, c) := Step(s, events[0]);
      StepIsSimple(s, events[0]);
      StepAnnounces(s, last, events[0]);
      if t.running {
        AnnouncementsCover(t, NextLast(last, events[0], c), events[1..]);
      } else {
        assert events[1..] == [];
      }
    }
  }

  /** Rectangles that a width x height framebuffer allows. */
  predicate Fitting(rects: seq<Event>, width: nat, height: nat) {
    forall i :: 0 <= i < |rects| ==>
      && rects[i].Rect? && rects[i].x + rects[i].w <= width && rects[i].y + rects[i].h <= height
      && rects[i].content.Keys <= Region(0, 0, width, height)
  }

  /** The places they report, and what they leave of a picture. */
  function Covered(rects: seq<Event>, width: nat, height: nat): (r: set<Place>)
    requires Fitting(rects, width, height)
    ensures r <= Region(0, 0, width, height)
  {
    if rects == [] then {}
    else Region(rects[0].x, rects[0].y, rects[0].w, rects[0].h) + Covered(rects[1..], width, height)
  }

  function Painted(fb: Picture, rects: seq<Event>, width: nat, height: nat): (r: Picture)
    requires fb.Keys == Region(0, 0, width, height) && Fitting(rects, width, height)
    ensures r.Keys == fb.Keys
    decreases |rects|
  {
    if rects == [] then fb else Painted(fb + rects[0].content, rects[1..], width, height)
  }

  /** Rectangles in turn: what is drawn adds up, and so does what is reported. */
  lemma {:induction false} RectsRun(s: State, rects: seq<Event>)
    requires s.Valid() && s.running && s.updating && Fitting(rects, s.width, s.height)
    ensures Run(s, rects)
    ensures After(s, rects) ==
            s.(fb := Painted(s.fb, rects, s.width, s.height), damage := s.damage + Covered(rects, s.width, s.height))
    decreases |rects|
  {
    hide Region;
    if rects != [] {
      RectsRun(Step(s, rects[0]).0, rects[1..]);
    }
  }

  lemma {:induction false} PaintedNext(fb: Picture, rects: seq<Event>, e: Event, width: nat, height: nat)
    requires fb.Keys == Region(0, 0, width, height) && Fitting(rects + [e], width, height)
    ensures Fitting(rects, width, height) && e.Rect?
    ensures Painted(fb, rects + [e], width, height) == Painted(fb, rects, width, height) + e.content
    ensures Covered(rects + [e], width, height) == Covered(rects, width, height) + Region(e.x, e.y, e.w, e.h)
    decreases |rects|
  {
    hide Region;
    assert (rects + [e])[|rects|] == e;
    assert Fitting(rects, width, height) by {
      assert forall i :: 0 <= i < |rects| ==> (rects + [e])[i] == rects[i];
    }
    if rects == [] {
      assert Painted(fb, [e], width, height) == Painted(fb + e.content, [], width, height);
    } else {
      assert (rects + [e])[1..] == rects[1..] + [e];
      PaintedNext(fb + rects[0].content, rects[1..], e, width, height);
    }
  }

  /** Rectangles that draw only where they report, report all they change. */
  lemma {:induction false} InsideReports(s: State, rects: seq<Event>)
    requires s.Valid() && Run(s, rects)
    requires forall i :: 0 <= i < |rects| && rects[i].Rect? ==>
               rects[i].content.Keys <= Region(rects[i].x, rects[i].y, rects[i].w, rects[i].h)
    ensures AllReport(s, rects)
    decreases |rects|
  {
    hide Region, Step;
    if rects != [] {
      InsideReports(Step(s, rects[0]).0, rects[1..]);
    }
  }

  lemma {:induction false} RectsDraw(s: State, rects: seq<Event>)
    requires Coherent(s) && s.running && s.updating && Fitting(rects, s.width, s.height)
    requires forall i :: 0 <= i < 3 ==> s.fb.Keys <= s.surfaces[i].damage
    ensures Run(s, rects)
    ensures var t := After(s, rects);
            && Coherent(t) && t.running && t.updating && t.back == s.back && t.index == s.index
            && t.fb == Painted(s.fb, rects, s.width, s.height)
            && t.damage == s.damage + Covered(rects, s.width, s.height)
    decreases |rects|
  {
    hide Region, UpToDate;
    if rects != [] {
      StepIsSimple(s, rects[0]);
      RectsDraw(Step(s, rects[0]).0, rects[1..]);
    }
  }

  /** The window once the framebuffer is reallocated, between updates or within one, and updating. */
  function Reopened(s: State, resize: Event): (t: State)
    requires s.Valid() && s.running && resize.Resize? && s.Allows(resize)
    ensures t.Valid() && t.updating
  {
    var t := Step(s, resize).0;
    if t.updating then t else Step(t, Start).0
  }

  function Pending(s: State): set<Place> {
    if s.updating then s.damage else {}
  }

  lemma {:induction false} ReopenedIs(s: State, resize: Event)
    requires s.Valid() && s.running && resize.Resize? && s.Allows(resize)
    ensures var t := Reopened(s, resize);
            && Coherent(t) && t.running && t.fb == resize.garbage && t.damage == Pending(s)
            && t.index == s.index && t.back == 0 && t.width == resize.width && t.height == resize.height
            && forall i :: 0 <= i < 3 ==> t.fb.Keys <= t.surfaces[i].damage
  {
    hide Region, UpToDate;
    var t := Step(s, resize).0;
    forall i | 0 <= i < 3
      ensures UpToDate(t.surfaces[i], t.fb, if t.updating then t.damage else {})
    {
      BlankIsUpToDate(t.surfaces[i], t.fb, if t.updating then t.damage else {});
    }
    if !t.updating {
      StepIsSimple(t, Start);
    }
  }

  /** The first update after a reallocation commits all of the new memory, as far as rectangles have
      not covered it, but announces these only. */
  lemma {:induction false} FirstCommit(s: State, resize: Event, rects: seq<Event>)
    requires s.Valid() && s.running && resize.Resize? && s.Allows(resize) && Fitting(rects, resize.width, resize.height)
    ensures Run(Reopened(s, resize), rects)
    ensures var t := After(Reopened(s, resize), rects);
            var announced := Pending(s) + Covered(rects, resize.width, resize.height);
            && t.Allows(Finish)
            && Step(t, Finish).1 ==
               (if announced == {} then None
                else Shown(Painted(resize.garbage, rects, resize.width, resize.height), announced))
            && (announced != {} ==> (Step(t, Finish).0.back == t.back <==> s.index == 2))
  {
    hide Region, Reopened, Coherent, Step, After, Run, Painted, Covered, Fitting;
    ReopenedIs(s, resize);
    RectsDraw(Reopened(s, resize), rects);
    CommitsWhole(After(Reopened(s, resize), rects));
  }

  lemma {:induction false} CommitsWhole(t: State)
    requires Coherent(t) && t.updating && t.back == 0
    ensures t.Valid() && t.Allows(Finish)
    ensures Step(t, Finish).1 == if t.damage == {} then None else Shown(t.fb, t.damage)
    ensures t.damage != {} ==> (Step(t, Finish).0.back == t.back <==> t.index == 2)
  {
    hide Region, Render, Damaged, UpToDate;
    FinishIsSimple(t);
  }

  /** The first update after a reallocation announces all changes from what was shown. */
  ghost predicate FirstAnnounced(s: State, resize: Event, rects: seq<Event>, last: Picture)
    requires s.Valid() && s.running && resize.Resize? && s.Allows(resize) && Fitting(rects, resize.width, resize.height)
  {
    && Run(Reopened(s, resize), rects)
    && var t := After(Reopened(s, resize), rects); t.updating && ChangesAnnounced(last, Step(t, Finish).1)
  }

  /** A picture that differs everywhere. */
  function Another(picture: Picture): (m: Picture)
    ensures m.Keys == picture.Keys && forall p :: p in m ==> m[p] != picture[p]
  {
    map p | p in picture :: picture[p] + 1
  }

  /** Across a reallocation the compositor may rely on the announcement exactly if the update covers
      the whole framebuffer: then for all contents of the new memory, else not for all. */
  lemma {:induction false} ResizeIsNotAnnounced(s: State, width: nat, height: nat, pictures: seq<Picture>,
                                                rects: seq<Event>)
    requires s.Valid() && s.running && Fitting(rects, width, height)
    requires |pictures| == 3 && forall i :: 0 <= i < 3 ==> pictures[i].Keys == Region(0, 0, width, height)
    requires Pending(s) + Covered(rects, width, height) != {}
    ensures (forall garbage: Picture, last: Picture :: garbage.Keys == last.Keys == Region(0, 0, width, height) ==>
               FirstAnnounced(s, Resize(width, height, garbage, pictures), rects, last)) <==>
            Region(0, 0, width, height) <= Pending(s) + Covered(rects, width, height)
  {
    hide Region, Reopened, Painted, Covered, Step, After, Run, Fitting;
    var all, announced := Region(0, 0, width, height), Pending(s) + Covered(rects, width, height);
    if all <= announced {
      forall garbage: Picture, last: Picture | garbage.Keys == last.Keys == all
        ensures FirstAnnounced(s, Resize(width, height, garbage, pictures), rects, last)
      {
        FirstCommit(s, Resize(width, height, garbage, pictures), rects);
      }
    } else {
      var p :| p in all && p !in announced;
      var garbage := pictures[0];
      var last := Another(Painted(garbage, rects, width, height));
      FirstCommit(s, Resize(width, height, garbage, pictures), rects);
      assert Painted(garbage, rects, width, height)[p] != last[p];
      assert !FirstAnnounced(s, Resize(width, height, garbage, pictures), rects, last);
    }
  }

  lemma {:induction false} BlankIsUpToDate(surface: Surface, fb: Picture, pending: set<Place>)
    requires surface.pixels.Keys == fb.Keys == surface.damage
    ensures UpToDate(surface, fb, pending)
  {
  }

  /** How many pictures have been committed. */
  function Count(commits: seq<Commit>): nat {
    if commits == [] then 0 else (if commits[0].Shown? then 1 else 0) + Count(commits[1..])
  }

  /** Whether there was a resize since the last commit. */
  predicate Resized(already: bool, events: seq<Event>, commits: seq<Commit>)
    requires |events| == |commits|
    decreases |events|
  {
    if events == [] then already
    else
      Resized(if events[0].Resize? then true else if commits[0].Shown? then false else already,
              events[1..], commits[1..])
  }

  lemma {:induction false} StepCounts(s: State, already: bool, e: Event)
    requires s.Valid() && s.Allows(e) && s.back == if already then 0 else s.index
    ensures var (t, c) := Step(s, e);
            && t.index == (s.index + (if c.Shown? then 1 else 0)) % 3
            && t.back == if (if e.Resize? then true else if c.Shown? then false else already) then 0 else t.index
  {
    hide Region, Render, Damaged, Blank;
  }

  lemma {:induction false} CountOn(i: nat, one: nat, more: nat)
    ensures ((i + one) % 3 + more) % 3 == (i + (one + more)) % 3
  {
  }

  /** bufferIndex counts commits; backBuffer follows it, but starts over at a resize, which does
      not reset bufferIndex. */
  lemma {:induction false} BackAndIndex(s: State, already: bool, events: seq<Event>)
    requires s.Valid() && Run(s, events) && s.back == if already then 0 else s.index
    ensures var t := After(s, events);
            && t.index == (s.index + Count(Commits(s, events))) % 3
            && t.back == if Resized(already, events, Commits(s, events)) then 0 else t.index
    decreases |events|
  {
    hide Step, Region;
    if events != [] {
      var (t, c) := Step(s, events[0]);
      StepCounts(s, already, events[0]);
      CountOn(s.index, if c.Shown? then 1 else 0, Count(Commits(t, events[1..])));
      BackAndIndex(t, if events[0].Resize? then true else if c.Shown? then false else already, events[1..]);
      assert Commits(s, events)[1..] == Commits(t, events[1..]);
    }
  }

  /** Three buffers are there so that the one just committed is not drawn into next. That fails
      exactly when a resize came since the last commit and bufferIndex was 2. */
  lemma {:induction false} DrawnWhileShown(s: State, events: seq<Event>)
    requires s.Valid() && Run(s, events) && s.back == s.index
    requires After(s, events).updating && After(s, events).damage != {}
    ensures var t := After(s, events);
            Step(t, Finish).0.back == t.back <==>
              Resized(false, events, Commits(s, events)) && (s.index + Count(Commits(s, events))) % 3 == 2
  {
    BackAndIndex(s, false, events);
  }

  /** struct buffer */
  class Buffer {
    var pixels: Picture
    var damage: set<Place>

    constructor (width: nat, height: nat, contents: Picture)
      ensures pixels == contents && damage == Region(0, 0, width, height)
    {
      pixels, damage := contents, Region(0, 0, width, height);
    }

    function Contents(): Surface
      reads this
    {
      Surface(pixels, damage)
    }

    /** render_image: inside the damage the buffer holds the framebuffer's pixels afterwards, outside
        what it held; and everywhere the framebuffer's if it was right outside the damage. */
    method RenderImage(fb: Picture)
      modifies this
      ensures pixels.Keys == old(pixels.Keys) && damage == {}
      ensures forall p :: p in pixels ==> pixels[p] == if p in old(damage) && p in fb then fb[p] else old(pixels)[p]
      ensures old(UpToDate(Contents(), fb, {})) ==> pixels == fb
    {
      pixels := map p | p in pixels :: if p in damage && p in fb then fb[p] else pixels[p];
      damage := {};
    }
  }

  lemma {:induction false} ResizeIs(s: State, width: nat, height: nat, garbage: Picture, pictures: seq<Picture>)
    requires s.Valid() && s.Allows(Resize(width, height, garbage, pictures))
    ensures |pictures| == 3 && garbage.Keys == Region(0, 0, width, height)
    ensures Step(s, Resize(width, height, garbage, pictures)).0 ==
            State(width, height, garbage, s.damage, Blank(pictures, garbage.Keys), 0, s.index, s.updating, s.running)
  {
    hide Region, Blank;
  }

  lemma {:induction false} RenderIs(s: Surface, fb: Picture, pixels: Picture)
    requires pixels.Keys == s.pixels.Keys
    requires forall p :: p in pixels ==> pixels[p] == if p in s.damage && p in fb then fb[p] else s.pixels[p]
    ensures Surface(pixels, {}) == Render(s, fb) && Render(s, fb).pixels.Keys == s.pixels.Keys
  {
  }

  lemma {:induction false} BlankIsCoherent(s: State, pictures: seq<Picture>)
    requires |pictures| == 3 && s.fb.Keys == Region(0, 0, s.width, s.height) && s.back < 3 && s.index < 3
    requires forall i :: 0 <= i < 3 ==> pictures[i].Keys == s.fb.Keys
    requires s.surfaces == Blank(pictures, s.fb.Keys)
    ensures Coherent(s)
  {
    hide Region;
  }

  method NewBuffers(width: nat, height: nat, pictures: seq<Picture>) returns (buffers: seq<Buffer>)
    requires |pictures| == 3
    ensures fresh(buffers) && |buffers| == 3
    ensures buffers[0] != buffers[1] && buffers[1] != buffers[2] && buffers[2] != buffers[0]
    ensures [buffers[0].Contents(), buffers[1].Contents(), buffers[2].Contents()] ==
            Blank(pictures, Region(0, 0, width, height))
  {
    hide Region;
    var b0 := new Buffer(width, height, pictures[0]);
    var b1 := new Buffer(width, height, pictures[1]);
    var b2 := new Buffer(width, height, pictures[2]);
    buffers := [b0, b1, b2];
  }

  /** struct window with its client. */
  class MainWindow {
    var buffers: seq<Buffer>
    var backBuffer: Buffer
    var bufferIndex: nat
    var width: nat
    var height: nat
    var vncFb: Picture
    var damage: set<Place>
    var isUpdating: bool
    var doRun: bool
    ghost var back: nat

    /** The first on_vnc_client_alloc_fb: every buffer is out of date everywhere. */
    constructor (width: nat, height: nat, garbage: Picture, pictures: seq<Picture>)
      requires garbage.Keys == Region(0, 0, width, height)
      requires |pictures| == 3 && forall i :: 0 <= i < 3 ==> pictures[i].Keys == garbage.Keys
      ensures Valid() && fresh(buffers) && Coherent(Abstract())
      ensures doRun && !isUpdating && back == 0 == bufferIndex
    {
      var fresh3 := NewBuffers(width, height, pictures);
      buffers, backBuffer, back, bufferIndex := fresh3, fresh3[0], 0, 0;
      this.width, this.height, vncFb, damage := width, height, garbage, {};
      isUpdating, doRun := false, true;
      new;
      BlankIsCoherent(Abstract(), pictures);
    }

    ghost predicate Valid()
      reads this, buffers
    {
      && |buffers| == 3 && buffers[0] != buffers[1] && buffers[1] != buffers[2] && buffers[2] != buffers[0]
      && back < 3 && backBuffer == buffers[back] && Abstract().Valid()
    }

    ghost function Abstract(): State
      reads this, buffers
    {
      State(width, height, vncFb, damage, Surfaces(), back, bufferIndex, isUpdating, doRun)
    }

    ghost function Surfaces(): (s: seq<Surface>)
      reads this, buffers
    {
      if |buffers| == 3 then [buffers[0].Contents(), buffers[1].Contents(), buffers[2].Contents()] else []
    }

    /** vnc_client_start_update */
    method StartUpdate()
      requires Valid() && Abstract().Allows(Start)
      modifies this`damage, this`isUpdating
      ensures Valid() && buffers == old(buffers) && Abstract() == Step(old(Abstract()), Start).0
    {
      damage := {};
      isUpdating := true;
    }

    /** A decoded rectangle, then vnc_client_update_box. */
    method GotRect(x: nat, y: nat, w: nat, h: nat, content: Picture)
      requires Valid() && Abstract().Allows(Rect(x, y, w, h, content))
      modifies this`vncFb, this`damage
      ensures Valid() && buffers == old(buffers) && Abstract() == Step(old(Abstract()), Rect(x, y, w, h, content)).0
    {
      hide Region, State.Valid;
      ghost var t := Step(Abstract(), Rect(x, y, w, h, content)).0;
      vncFb := vncFb + content;
      damage := damage + Region(x, y, w, h);
      assert Abstract() == t;
    }

    /** vnc_client_cancel_update; vnc_client_process then returns -1 and the main loop ends. */
    method CancelUpdate()
      requires Valid() && Abstract().Allows(Cancel)
      modifies this`isUpdating, this`doRun
      ensures Valid() && buffers == old(buffers) && Abstract() == Step(old(Abstract()), Cancel).0
    {
      isUpdating := false;
      doRun := false;
    }

    /** on_vnc_client_alloc_fb */
    method AllocFb(newWidth: nat, newHeight: nat, garbage: Picture, pictures: seq<Picture>)
      requires Valid() && Abstract().Allows(Resize(newWidth, newHeight, garbage, pictures))
      modifies this
      ensures Valid() && fresh(buffers)
      ensures Abstract() == Step(old(Abstract()), Resize(newWidth, newHeight, garbage, pictures)).0
    {
      hide Region, Blank, State.Valid, State.Allows, Step;
      ghost var s := Abstract();
      ResizeIs(s, newWidth, newHeight, garbage, pictures);
      buffers := NewBuffers(newWidth, newHeight, pictures);
      backBuffer, back := buffers[0], 0;
      width, height, vncFb := newWidth, newHeight, garbage;
      assert Abstract() == Step(s, Resize(newWidth, newHeight, garbage, pictures)).0;
    }

    /** apply_buffer_damage */
    method ApplyBufferDamage()
      requires Valid()
      modifies buffers
      ensures Valid() && Abstract() == old(Abstract()).(surfaces := Damaged(old(Abstract()).surfaces, damage))
    {
      ghost var before := Surfaces();
      for i := 0 to 3
        invariant forall k :: 0 <= k < 3 ==>
                    buffers[k].Contents() ==
                    if k < i then before[k].(damage := before[k].damage + damage) else before[k]
      {
        buffers[i].damage := buffers[i].damage + damage;
      }
      assert Surfaces() == Damaged(before, damage);
    }

    /** window_transfer_pixels on the software path */
    method TransferPixels()
      requires Valid()
      modifies backBuffer
      ensures Valid()
      ensures var s := old(Abstract());
              Abstract() == s.(surfaces := s.surfaces[back := Render(s.surfaces[back], vncFb)])
    {
      hide Region, Render, UpToDate;
      ghost var before := Surfaces();
      backBuffer.RenderImage(vncFb);
      RenderIs(before[back], vncFb, backBuffer.pixels);
      assert Surfaces() == before[back := Render(before[back], vncFb)];
    }

    /** window_swap */
    method Swap()
      requires Valid()
      modifies this`bufferIndex, this`backBuffer, this`back
      ensures Valid() && buffers == old(buffers)
      ensures var next := (old(bufferIndex) + 1) % 3; Abstract() == old(Abstract()).(index := next, back := next)
    {
      bufferIndex := (bufferIndex + 1) % 3;
      backBuffer, back := buffers[bufferIndex], bufferIndex;
    }

    /** on_vnc_client_update_fb once there is damage; returns what is committed. */
    method Present() returns (commit: Commit)
      requires Valid()
      modifies this`bufferIndex, this`backBuffer, this`back, buffers
      ensures Valid() && buffers == old(buffers)
      ensures var s := old(Abstract());
              var damaged, next := Damaged(s.surfaces, damage), (s.index + 1) % 3;
              var rendered := Render(damaged[s.back], vncFb);
              && Abstract() == s.(surfaces := damaged[s.back := rendered], index := next, back := next)
              && commit == Shown(rendered.pixels, damage)
    {
      hide Region, Render, Damaged, State.Valid;
      ApplyBufferDamage();
      TransferPixels();
      assert backBuffer.Contents() == Surfaces()[back];
      commit := Shown(backBuffer.pixels, damage);
      Swap();
    }

    /** vnc_client_finish_update and on_vnc_client_update_fb. */
    method FinishUpdate() returns (commit: Commit)
      requires Valid() && Abstract().Allows(Finish)
      modifies this`isUpdating, this`bufferIndex, this`backBuffer, this`back, buffers
      ensures Valid() && buffers == old(buffers)
      ensures (Abstract(), commit) == Step(old(Abstract()), Finish)
    {
      hide Region, Render, Damaged;
      isUpdating := false;
      if damage == {} {
        return None;
      }
      commit := Present();
    }
  }
}
