// Retries against frames counted, over runs of any length.
module TrackerCounters {
  import opened Bytes
  import opened Word32
  import opened InfoElements
  import opened ApTypes
  import opened TrackerModel
  import opened TrackerRuns
  import opened TrackerTable
  import opened TrackerHistory

  // After n frames.
  predicate CountersOk(ap: Ap, n: nat) {
    ap.rx <= n && ap.tx <= n && ap.retries <= ap.rx + ap.tx
  }

  lemma EvolvedCounters(ap: Ap, f: Frame, now: int, after: Ap, n: nat)
    requires CountersOk(ap, n) && n + 1 < WRAP && EvolvesTo(ap, f, now, after)
    ensures CountersOk(after, n + 1)
  {
    var sent := if f.hdr.fromds && f.hdr.src == ap.mac then Sent(ap, f.hdr.retry, now) else ap;
    assert sent.rx <= n && sent.tx <= n + 1 && sent.retries <= sent.rx + sent.tx;
    assert CountersOk(Credited(ap, f.hdr, now), n + 1);
    CreditedSame(ap, f, now);
  }

  function Arrivals(es: seq<Event>): nat {
    if es == [] then 0
    else Arrivals(es[..|es| - 1]) + if es[|es| - 1].Arrival? then 1 else 0
  }

  lemma StepCounters(t: Tracker, e: Event, colors: nat, n: nat)
    requires Inv(t) && Legal(t, e) && colors > 0
    requires AllSlots(t, ap => CountersOk(ap, n))
    requires e.Arrival? ==> n + 1 < WRAP
    ensures AllSlots(Step(t, e, colors), ap => CountersOk(ap, if e.Arrival? then n + 1 else n))
  {
    var p, q := (ap: Ap) => CountersOk(ap, n), (ap: Ap) => CountersOk(ap, n + 1);
    match e
    case Arrival(f, now) =>
      forall ap, after | p(ap) && SlotInv(ap) && SlotChange(f, now, ap, after)
        ensures q(after)
      {
        if EvolvesTo(ap, f, now, after) {
          EvolvedCounters(ap, f, now, after, n);
        }
      }
      FrameKeepsSlots(t, f, now, colors, p, q);
    case Sweeping(now) =>
      SweepKeepsSlots(t, now, p);
    case Pressed(key, height) =>
      KeyKeepsSlots(t, key, height, p);
  }

  // With nothing tracked a frame is credited to no one.
  lemma FirstFrameCounters(t: Tracker, f: Frame, now: int, colors: nat, n: nat)
    requires Inv(t) && Ready(t, f) && colors > 0 && t.count == 0
    requires AllSlots(t, ap => CountersOk(ap, n))
    ensures AllSlots(FrameStep(t, f, now, colors), ap => CountersOk(ap, n))
  {
    FrameOnTable(t, f, now, colors);
    var u := FrameStep(t, f, now, colors);
    forall i | 0 <= i < |u.aps|
      ensures CountersOk(u.aps[i], n)
    {
      assert t.aps[i] in t.aps;
      if i < u.count {
        assert JoinsAs(t.aps[i], f, t.curCol + 1, now, u.aps[i]);
        EnrolledCanBeTold(t.aps[i], f, t.curCol + 1);
      }
    }
  }

  // The frames that can have been credited to a record: the first one cannot.
  function Creditable(es: seq<Event>): nat {
    if Arrivals(es) == 0 then 0 else Arrivals(es) - 1
  }

  lemma {:induction false} RunCounters(es: seq<Event>, colors: nat)
    requires colors > 0 && LegalRun(es, colors) && Arrivals(es) <= WRAP
    ensures AllSlots(Run(es, colors), ap => CountersOk(ap, Creditable(es)))
    ensures Arrivals(es) == 0 ==> Run(es, colors).count == 0
  {
    if es == [] {
      assert CountersOk(ZERO_AP, 0);
    } else {
      var n := |es| - 1;
      var t := Run(es[..n], colors);
      RunCounters(es[..n], colors);
      if es[n].Arrival? && Arrivals(es[..n]) == 0 {
        FirstFrameCounters(t, es[n].frame, es[n].now, colors, 0);
      } else {
        StepCounters(t, es[n], colors, Creditable(es[..n]));
      }
    }
  }

  // ---------- A run that wraps a counter ----------

  function PlainFrame(kind: Byte, subtype: Byte, retry: bool, tods: bool): Frame {
    Frame(Header(ZERO_MAC, ZERO_MAC, ZERO_MAC, kind, subtype, retry, 0, tods, false), Radiotap(0, 0, 0), [], (i: nat) => 0)
  }

  const DATA: Byte := 2

  // A beacon, a repeated frame to the access point, frames to it until its counter wraps, and
  // then frames that concern no one.
  function FrameNumber(i: nat): Frame {
    if i == 0 then PlainFrame(MANAGEMENT, BEACON, false, false)
    else PlainFrame(DATA, 0, i == 1, i <= WRAP)
  }

  function Wrapping(n: nat): seq<Event> {
    if n == 0 then [] else Wrapping(n - 1) + [Arrival(FrameNumber(n - 1), 0)]
  }

  // The one tracked record after n frames.
  ghost predicate AfterWrapping(t: Tracker, n: nat) {
    && t.count == 1 <= |t.aps|
    && var ap := t.aps[0];
    && ap.mac == ZERO_MAC && ap.tx == 0
    && ap.rx == (if n <= WRAP then n - 1 else 0)
    && ap.retries == (if n >= 2 then 1 else 0)
  }

  lemma FirstOfWrapping(colors: nat)
    requires colors > 0
    ensures LegalRun(Wrapping(1), colors) && Arrivals(Wrapping(1)) == 1
    ensures AfterWrapping(Run(Wrapping(1), colors), 1)
  {
    var e, f := Arrival(FrameNumber(0), 0), FrameNumber(0);
    StartInv();
    assert Wrapping(0) == [];
    assert ElementBytes(f.body, BEACON) == [];
    RunSnoc([], e, colors);
    assert Wrapping(1) == [] + [e];
    NewcomerInherits(Start(), f, 0, colors, Run([] + [e], colors));
  }

  lemma DataFrameCounts(t: Tracker, i: nat, colors: nat, u: Tracker)
    requires Inv(t) && colors > 0 && i > 0 && t.count > 0
    requires Ready(t, FrameNumber(i)) && u == FrameStep(t, FrameNumber(i), 0, colors)
    ensures u.count == t.count <= |u.aps|
    ensures t.aps[0].mac == ZERO_MAC && i <= WRAP ==> u.aps[0] == Received(t.aps[0], i == 1)
    ensures i > WRAP ==> u.aps[0] == t.aps[0]
  {
    FrameOnTable(t, FrameNumber(i), 0, colors);
    assert EvolvesTo(t.aps[0], FrameNumber(i), 0, u.aps[0]);
  }

  lemma {:induction false} WrappingRuns(n: nat, colors: nat)
    requires colors > 0 && n > 0
    ensures LegalRun(Wrapping(n), colors) && Arrivals(Wrapping(n)) == n
    ensures AfterWrapping(Run(Wrapping(n), colors), n)
  {
    if n == 1 {
      FirstOfWrapping(colors);
    } else {
      WrappingRuns(n - 1, colors);
      var es, e := Wrapping(n - 1), Arrival(FrameNumber(n - 1), 0);
      RunSnoc(es, e, colors);
      assert Wrapping(n)[..|Wrapping(n)| - 1] == es;
      DataFrameCounts(Run(es, colors), n - 1, colors, Run(Wrapping(n), colors));
    }
  }

  predicate Balanced(ap: Ap) {
    ap.retries <= ap.rx + ap.tx
  }

  // Retries never exceed the frames counted in both directions, in any slot of any run of n
  // frames, exactly up to n = 2^32: one frame more can wrap a counter.
  lemma RetriesAreBounded(n: nat, colors: nat)
    requires colors > 0
    ensures (forall es :: LegalRun(es, colors) && Arrivals(es) == n ==> AllSlots(Run(es, colors), Balanced))
            <==> n <= WRAP
  {
    if n <= WRAP {
      forall es | LegalRun(es, colors) && Arrivals(es) == n
        ensures AllSlots(Run(es, colors), Balanced)
      {
        RunCounters(es, colors);
      }
    } else {
      WrappingRuns(n, colors);
      var t := Run(Wrapping(n), colors);
      assert !Balanced(t.aps[0]) && t.aps[0] in t.aps;
    }
  }
}
