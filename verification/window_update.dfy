/** A whole update of the window, place by place. */
module WindowUpdate {
  import opened Window

  /** The place is in the rectangle. */
  predicate Over(e: Event, p: Place) {
    e.Rect? && e.x <= p.x < e.x + e.w && e.y <= p.y < e.y + e.h
  }

  ghost predicate OverAny(rects: seq<Event>, p: Place) {
    exists i :: 0 <= i < |rects| && Over(rects[i], p)
  }

  /** Rectangle m is the last that drew the place; -1 if none did. */
  ghost predicate LastDrew(rects: seq<Event>, m: int, p: Place) {
    && -1 <= m < |rects|
    && (m >= 0 ==> rects[m].Rect? && p in rects[m].content)
    && forall i :: m < i < |rects| ==> rects[i].Rect? && p !in rects[i].content
  }

  lemma {:induction false} CoveredAt(rects: seq<Event>, width: nat, height: nat, p: Place)
    requires Fitting(rects, width, height)
    ensures p in Covered(rects, width, height) <==> OverAny(rects, p)
  {
    hide Region;
    if rects != [] {
      CoveredAt(rects[1..], width, height, p);
      if i :| 0 <= i < |rects[1..]| && Over(rects[1..][i], p) {
        assert Over(rects[i + 1], p);
      }
      if i :| 0 <= i < |rects| && Over(rects[i], p) && i > 0 {
        assert rects[i] == rects[1..][i - 1];
      }
    }
  }

  lemma {:induction false} PaintedAt(fb: Picture, rects: seq<Event>, width: nat, height: nat, m: int, p: Place)
    requires fb.Keys == Region(0, 0, width, height) && Fitting(rects, width, height) && p in fb
    requires LastDrew(rects, m, p)
    ensures p in Painted(fb, rects, width, height)
    ensures Painted(fb, rects, width, height)[p] == if m < 0 then fb[p] else rects[m].content[p]
    decreases |rects|
  {
    hide Region;
    if rects != [] {
      var next := fb + rects[0].content;
      if m > 0 {
        PaintedAt(next, rects[1..], width, height, m - 1, p);
      } else {
        PaintedAt(next, rects[1..], width, height, -1, p);
      }
    }
  }

  /** A whole update from a coherent state: if its rectangles have no place, nothing is committed. Else the
      places announced are just those of the rectangles, and every place shows what was last drawn there,
      or what it showed before. */
  lemma {:induction false} WholeUpdate(s: State, rects: seq<Event>)
    requires Coherent(s) && s.running && !s.updating && Fitting(rects, s.width, s.height)
    requires forall i, p :: 0 <= i < |rects| && p in rects[i].content ==> Over(rects[i], p)
    ensures s.Allows(Start) && Run(Step(s, Start).0, rects)
    ensures var t := After(Step(s, Start).0, rects);
            && t.Allows(Finish)
            && var c := Step(t, Finish).1;
               && (c == None <==> forall p :: !OverAny(rects, p))
               && (c.Shown? ==>
                     && c.picture.Keys == s.fb.Keys
                     && (forall p :: p in c.announced <==> OverAny(rects, p))
                     && forall p, m :: p in s.fb && LastDrew(rects, m, p) ==>
                          c.picture[p] == if m < 0 then s.fb[p] else rects[m].content[p])
  {
    hide Region, UpToDate, Covered, Painted, OverAny, Render, Damaged, Coherent, AllHarmless, AllReport;
    StepIsSimple(s, Start);
    var s1 := Step(s, Start).0;
    RectsRun(s1, rects);
    var t := After(s1, rects);
    DrawnIsReported(rects);
    InsideReports(s1, rects);
    ReportsIsHarmless(s1, rects);
    CacheIsInvisible(s1, rects);
    forall p: Place
      ensures p in t.damage <==> OverAny(rects, p)
    {
      CoveredAt(rects, s.width, s.height, p);
    }
    forall p, m | p in s.fb && LastDrew(rects, m, p)
      ensures t.fb[p] == if m < 0 then s.fb[p] else rects[m].content[p]
    {
      PaintedAt(s.fb, rects, s.width, s.height, m, p);
    }
    CommitsDamage(t);
  }

  lemma {:induction false} CommitsDamage(t: State)
    requires Coherent(t) && t.updating
    ensures var c := Step(t, Finish).1;
            if c == None then t.damage == {} else t.damage != {} && c.picture == t.fb && c.announced == t.damage
    ensures t.damage != {} ==> exists p :: p in t.damage
  {
    hide Region, Render, Damaged, UpToDate;
    FinishIsSimple(t);
  }

  lemma {:induction false} DrawnIsReported(rects: seq<Event>)
    requires forall i :: 0 <= i < |rects| ==> rects[i].Rect?
    requires forall i, p :: 0 <= i < |rects| && p in rects[i].content ==> Over(rects[i], p)
    ensures forall i :: 0 <= i < |rects| ==>
              rects[i].content.Keys <= Region(rects[i].x, rects[i].y, rects[i].w, rects[i].h)
  {
    hide Region;
    forall i | 0 <= i < |rects|
      ensures rects[i].content.Keys <= Region(rects[i].x, rects[i].y, rects[i].w, rects[i].h)
    {
      forall p | p in rects[i].content
        ensures p in Region(rects[i].x, rects[i].y, rects[i].w, rects[i].h)
      {
        assert Over(rects[i], p);
      }
    }
  }
}
