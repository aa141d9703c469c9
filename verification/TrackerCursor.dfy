// When the cursor is on a tracked access point.
module TrackerCursor {
  import opened TrackerModel
  import opened TrackerRuns
  import opened TrackerTable

  // The cursor is on a tracked access point, if there is one.
  predicate OnTracked(t: Tracker) {
    t.count == 0 || t.scroll < t.count
  }

  // A sweep that leaves some access points, but not as many as the cursor is high.
  predicate Strands(t: Tracker, e: Event)
    requires t.count <= |t.aps|
  {
    e.Sweeping? && 0 < |Unexpired(Tracked(t), e.now)| <= t.scroll
  }

  // What puts a stranded cursor back: a newcomer, a key that moves it, or a sweep that does not
  // strand it.
  predicate Rescues(t: Tracker, e: Event)
    requires t.count <= |t.aps|
  {
    match e
    case Arrival(f, _) => Announces(f.hdr) && f.hdr.bssid !in Macs(t)
    case Sweeping(_) => !Strands(t, e)
    case Pressed(key, _) => key == Up || key == Top || key == Bottom
  }

  ghost predicate WindowHasRoom(e: Event) {
    e.Pressed? ==> e.height >= 1
  }

  // After any event the cursor is on a tracked access point exactly when the event puts it there,
  // or it was there and the event does not strand it.
  lemma CursorAfterEvent(t: Tracker, e: Event, colors: nat, u: Tracker)
    requires Inv(t) && Legal(t, e) && colors > 0 && WindowHasRoom(e)
    requires u == Step(t, e, colors)
    ensures OnTracked(u) <==> Rescues(t, e) || (OnTracked(t) && !Strands(t, e))
  {
    if e.Arrival? {
      CountKeepsShape(t, e.frame, e.now);
      FrameOnTable(t, e.frame, e.now, colors);
    }
  }

  // From a tracked access point only such a sweep takes it away.
  lemma CursorStays(t: Tracker, e: Event, colors: nat)
    requires Inv(t) && Legal(t, e) && colors > 0 && WindowHasRoom(e) && OnTracked(t)
    ensures OnTracked(Step(t, e, colors)) <==> !Strands(t, e)
  {
    CursorAfterEvent(t, e, colors, Step(t, e, colors));
  }

  ghost predicate AlwaysOnTracked(es: seq<Event>, colors: nat)
    requires colors > 0 && LegalRun(es, colors)
  {
    OnTracked(Run(es, colors)) && (es != [] ==> AlwaysOnTracked(es[..|es| - 1], colors))
  }

  ghost predicate NeverStrands(es: seq<Event>, colors: nat)
    requires colors > 0 && LegalRun(es, colors)
  {
    es != [] ==>
      var n := |es| - 1;
      NeverStrands(es[..n], colors) && !Strands(Run(es[..n], colors), es[n])
  }

  // Over a whole run the cursor is on a tracked access point after every event exactly when no
  // sweep of the run strands it.
  lemma {:induction false} CursorOverRun(es: seq<Event>, colors: nat)
    requires colors > 0 && LegalRun(es, colors)
    requires forall e | e in es :: WindowHasRoom(e)
    ensures AlwaysOnTracked(es, colors) <==> NeverStrands(es, colors)
  {
    if es != [] {
      var n := |es| - 1;
      CursorOverRun(es[..n], colors);
      var t := Run(es[..n], colors);
      if OnTracked(t) {
        CursorStays(t, es[n], colors);
      } else if n > 0 {
        assert !AlwaysOnTracked(es[..n], colors);
      }
    }
  }

  // The same event by event: where the cursor is after a run is settled by its last event and the
  // run before.
  ghost predicate OnTrackedHistory(es: seq<Event>, colors: nat)
    requires colors > 0 && LegalRun(es, colors)
  {
    es == [] ||
    var n := |es| - 1;
    var t := Run(es[..n], colors);
    Rescues(t, es[n]) || (OnTrackedHistory(es[..n], colors) && !Strands(t, es[n]))
  }

  lemma {:induction false} CursorHistory(es: seq<Event>, colors: nat)
    requires colors > 0 && LegalRun(es, colors)
    requires forall e | e in es :: WindowHasRoom(e)
    ensures OnTracked(Run(es, colors)) <==> OnTrackedHistory(es, colors)
  {
    if es != [] {
      var n := |es| - 1;
      CursorHistory(es[..n], colors);
      CursorAfterEvent(Run(es[..n], colors), es[n], colors, Run(es, colors));
    }
  }
}
