// When an access point was last heard, over whole runs, and what that means for sweeps.
module TrackerTimes {
  import opened ApTypes
  import opened TrackerModel
  import opened TrackerRuns
  import opened TrackerTable

  // The time that the record of an address holds, if it is tracked.
  ghost predicate TimeIs(t: Tracker, mac: Mac, time: int) {
    t.count <= |t.aps| && forall i | 0 <= i < t.count && t.aps[i].mac == mac :: t.aps[i].lastSeen == time
  }

  // A frame that counts as hearing the address: sent by it through the distribution system, or its
  // beacon.
  predicate HeardFrom(f: Frame, mac: Mac) {
    (f.hdr.fromds && f.hdr.src == mac) || (IsBeacon(f.hdr) && f.hdr.bssid == mac)
  }

  // The time after one more event. A newcomer that no beacon announces has the time that was left
  // in its slot.
  ghost function TimeAfter(t: Tracker, e: Event, mac: Mac, time: int): int
    requires t.count <= |t.aps|
  {
    if !e.Arrival? then time
    else if mac in Macs(t) then if HeardFrom(e.frame, mac) then e.now else time
    else if IsBeacon(e.frame.hdr) || t.count == |t.aps| then e.now
    else t.aps[t.count].lastSeen
  }

  lemma EvolvedTime(ap: Ap, f: Frame, now: int, after: Ap)
    requires EvolvesTo(ap, f, now, after)
    ensures after.mac == ap.mac
    ensures after.lastSeen == if HeardFrom(f, ap.mac) then now else ap.lastSeen
  {
    CreditedSame(ap, f, now);
  }

  lemma JoinedTime(stale: Ap, f: Frame, col: int, now: int, after: Ap)
    requires JoinsAs(stale, f, col, now, after)
    ensures after.mac == f.hdr.bssid
    ensures after.lastSeen == if IsBeacon(f.hdr) then now else stale.lastSeen
  {
    EnrolledCanBeTold(stale, f, col);
  }

  lemma FrameTime(t: Tracker, f: Frame, now: int, u: Tracker, mac: Mac, time: int)
    requires t.count <= |t.aps| && ActsOnTable(t, f, now, u) && TimeIs(t, mac, time)
    ensures TimeIs(u, mac, TimeAfter(t, Arrival(f, now), mac, time))
  {
    forall i | 0 <= i < u.count && u.aps[i].mac == mac
      ensures u.aps[i].lastSeen == TimeAfter(t, Arrival(f, now), mac, time)
    {
      if i < t.count {
        assert EvolvesTo(t.aps[i], f, now, u.aps[i]);
        EvolvedTime(t.aps[i], f, now, u.aps[i]);
        assert Macs(t)[i] == mac;
      } else {
        JoinedTime(t.aps[i], f, t.curCol + 1, now, u.aps[i]);
      }
    }
  }

  lemma StepTime(t: Tracker, e: Event, colors: nat, mac: Mac, time: int)
    requires Inv(t) && Legal(t, e) && colors > 0 && TimeIs(t, mac, time)
    ensures TimeIs(Step(t, e, colors), mac, TimeAfter(t, e, mac, time))
  {
    match e
    case Arrival(f, now) =>
      FrameOnTable(t, f, now, colors);
      FrameTime(t, f, now, Step(t, e, colors), mac, time);
    case Sweeping(now) =>
      SweepTime(t, now, mac, time);
    case Pressed(key, height) =>
      KeySlots(t, key, height);
      var u := KeyStep(t, key, height);
      assert forall i | 0 <= i < u.count :: SameButView(u.aps[i], t.aps[i]);
  }

  lemma SweepTime(t: Tracker, now: int, mac: Mac, time: int)
    requires Inv(t) && TimeIs(t, mac, time)
    ensures TimeIs(Sweep(t, now), mac, time)
  {
    SweepSlots(t, now);
    UnexpiredAreTheFresh(Tracked(t), now);
    var u := Sweep(t, now);
    forall i | 0 <= i < u.count && u.aps[i].mac == mac
      ensures u.aps[i].lastSeen == time
    {
      assert Tracked(u)[i] in Tracked(t);
    }
  }

  // The time of an address over a whole run: that of the last event at which it was heard since it
  // was added, or the one it found in its slot.
  ghost function TimeHistory(es: seq<Event>, colors: nat, mac: Mac): int
    requires colors > 0 && LegalRun(es, colors)
  {
    if es == [] then 0
    else
      var n := |es| - 1;
      TimeAfter(Run(es[..n], colors), es[n], mac, TimeHistory(es[..n], colors, mac))
  }

  lemma {:induction false} RunTimes(es: seq<Event>, colors: nat, mac: Mac)
    requires colors > 0 && LegalRun(es, colors)
    ensures TimeIs(Run(es, colors), mac, TimeHistory(es, colors, mac))
  {
    if es != [] {
      var n := |es| - 1;
      RunTimes(es[..n], colors, mac);
      StepTime(Run(es[..n], colors), es[n], colors, mac, TimeHistory(es[..n], colors, mac));
    }
  }

  lemma SweepKeepsHeard(t: Tracker, now: int, mac: Mac, time: int)
    requires Inv(t) && TimeIs(t, mac, time)
    ensures Inv(Sweep(t, now))
    ensures mac in Macs(Sweep(t, now)) <==> mac in Macs(t) && now - time <= EXPIRY
  {
    SweepKeepsInv(t, now);
    SweepSlots(t, now);
    UnexpiredAreTheFresh(Tracked(t), now);
    var u := Sweep(t, now);
    MacsAreTracked(t, mac);
    MacsAreTracked(u, mac);
    forall ap | ap in Tracked(t) && ap.mac == mac
      ensures ap.lastSeen == time
    {
      var i :| 0 <= i < t.count && Tracked(t)[i] == ap;
    }
  }

  lemma MacsAreTracked(t: Tracker, mac: Mac)
    requires t.count <= |t.aps|
    ensures mac in Macs(t) <==> exists ap :: ap in Tracked(t) && ap.mac == mac
  {
    if mac in Macs(t) {
      var i :| 0 <= i < t.count && Macs(t)[i] == mac;
      assert Tracked(t)[i] in Tracked(t);
    }
    if ap :| ap in Tracked(t) && ap.mac == mac {
      var i :| 0 <= i < t.count && Tracked(t)[i] == ap;
      assert Macs(t)[i] == mac;
    }
  }

  // After any run a sweep drops a tracked address exactly when its time is more than thirty seconds
  // old.
  lemma RunThenSweep(es: seq<Event>, colors: nat, mac: Mac, now: int)
    requires colors > 0 && LegalRun(es, colors)
    ensures LegalRun(es + [Sweeping(now)], colors)
    ensures mac in Macs(Run(es + [Sweeping(now)], colors)) <==>
            mac in Macs(Run(es, colors)) && now - TimeHistory(es, colors, mac) <= 30
  {
    RunSnoc(es, Sweeping(now), colors);
    RunTimes(es, colors, mac);
    SweepKeepsHeard(Run(es, colors), now, mac, TimeHistory(es, colors, mac));
  }
}
