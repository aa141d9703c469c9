// What holds of names, frequencies and stale records after any run of the tracker.
module TrackerHistory {
  import opened Bytes
  import opened Word32
  import opened InfoElements
  import opened ApTypes
  import opened SsidScan
  import opened ChannelHop
  import opened TrackerModel
  import opened TrackerRuns
  import opened TrackerTable

  // ---------- Names ----------

  // The name under which an address is tracked is this one.
  ghost predicate NameIs(t: Tracker, mac: Mac, name: seq<Byte>) {
    && t.count <= |t.aps|
    && forall i | 0 <= i < t.count && t.aps[i].mac == mac :: SlotOk(t.aps[i]) && Name(t.aps[i]) == name
  }

  // The name after one more event: a newcomer starts as "<hidden>", and every announcement is
  // folded in.
  ghost function NameAfter(t: Tracker, e: Event, mac: Mac, name: seq<Byte>): seq<Byte>
    requires t.count <= |t.aps|
  {
    var before := if mac in Macs(t) then name else HIDDEN;
    if e.Arrival? && Announces(e.frame.hdr) && e.frame.hdr.bssid == mac
    then RenameAll(before, DecodeBody(e.frame.body, e.frame.hdr.subtype, e.frame.beyond))
    else before
  }

  lemma EvolvedName(ap: Ap, f: Frame, now: int, after: Ap)
    requires SlotInv(ap) && Named(ap) && EvolvesTo(ap, f, now, after)
    ensures SlotOk(after) && after.mac == ap.mac
    ensures Name(after) == if Hears(ap, f) then RenameAll(Name(ap), DecodeBody(f.body, f.hdr.subtype, f.beyond))
                           else Name(ap)
  {
    var c := Credited(ap, f.hdr, now);
    CreditedSame(ap, f, now);
    SameStationInv(c, ap);
    if Hears(ap, f) {
      ToldInv(c, f, now);
    }
  }

  lemma JoinedName(stale: Ap, f: Frame, col: int, now: int, after: Ap)
    requires SlotInv(stale) && JoinsAs(stale, f, col, now, after)
    ensures SlotOk(after) && after.mac == f.hdr.bssid
    ensures Name(after) == RenameAll(HIDDEN, DecodeBody(f.body, f.hdr.subtype, f.beyond))
  {
    EnrolledInv(stale, f.hdr.bssid, col);
    EnrolledCanBeTold(stale, f, col);
    ToldInv(Enrolled(stale, f.hdr.bssid, col), f, now);
  }

  lemma FrameName(t: Tracker, f: Frame, now: int, colors: nat, mac: Mac, name: seq<Byte>)
    requires Inv(t) && Ready(t, f) && colors > 0 && NameIs(t, mac, name)
    ensures NameIs(FrameStep(t, f, now, colors), mac, NameAfter(t, Arrival(f, now), mac, name))
  {
    FrameOnTable(t, f, now, colors);
    NamesOnTable(t, f, now, FrameStep(t, f, now, colors), mac, name);
  }

  lemma NamesOnTable(t: Tracker, f: Frame, now: int, u: Tracker, mac: Mac, name: seq<Byte>)
    requires Inv(t) && ActsOnTable(t, f, now, u) && NameIs(t, mac, name)
    ensures NameIs(u, mac, NameAfter(t, Arrival(f, now), mac, name))
  {
    forall i | 0 <= i < u.count && u.aps[i].mac == mac
      ensures SlotOk(u.aps[i]) && Name(u.aps[i]) == NameAfter(t, Arrival(f, now), mac, name)
    {
      assert t.aps[i] in t.aps;
      if i < t.count {
        assert EvolvesTo(t.aps[i], f, now, u.aps[i]) && Tracked(t)[i] in Tracked(t);
        KnownName(t, f, now, i, u.aps[i]);
      } else {
        JoinedName(t.aps[i], f, t.curCol + 1, now, u.aps[i]);
      }
    }
  }

  lemma KnownName(t: Tracker, f: Frame, now: int, i: nat, after: Ap)
    requires i < t.count <= |t.aps| && SlotInv(t.aps[i]) && Named(t.aps[i])
    requires EvolvesTo(t.aps[i], f, now, after)
    ensures SlotOk(after) && after.mac == t.aps[i].mac
    ensures Name(after) == NameAfter(t, Arrival(f, now), after.mac, Name(t.aps[i]))
  {
    EvolvedName(t.aps[i], f, now, after);
    assert Macs(t)[i] == after.mac;
  }

  lemma SweepName(t: Tracker, now: int, mac: Mac, name: seq<Byte>)
    requires Inv(t) && NameIs(t, mac, name)
    ensures NameIs(Sweep(t, now), mac, if mac in Macs(t) then name else HIDDEN)
  {
    SweepSlots(t, now);
    UnexpiredAreTheFresh(Tracked(t), now);
    var u := Sweep(t, now);
    forall i | 0 <= i < u.count && u.aps[i].mac == mac
      ensures SlotOk(u.aps[i]) && Name(u.aps[i]) == name && mac in Macs(t)
    {
      assert Tracked(u)[i] in Tracked(t);
      var j :| 0 <= j < t.count && t.aps[j] == u.aps[i];
      assert Macs(t)[j] == mac;
    }
  }

  lemma KeyName(t: Tracker, key: Key, height: int, mac: Mac, name: seq<Byte>)
    requires Inv(t) && NameIs(t, mac, name)
    ensures NameIs(KeyStep(t, key, height), mac, if mac in Macs(t) then name else HIDDEN)
  {
    KeySlots(t, key, height);
    var u := KeyStep(t, key, height);
    forall i | 0 <= i < u.count && u.aps[i].mac == mac
      ensures SlotOk(u.aps[i]) && Name(u.aps[i]) == name && mac in Macs(t)
    {
      assert SameButView(u.aps[i], t.aps[i]);
      assert Macs(t)[i] == mac;
    }
  }

  lemma StepName(t: Tracker, e: Event, colors: nat, mac: Mac, name: seq<Byte>)
    requires Inv(t) && Legal(t, e) && colors > 0 && NameIs(t, mac, name)
    ensures NameIs(Step(t, e, colors), mac, NameAfter(t, e, mac, name))
  {
    match e
    case Arrival(f, now) => FrameName(t, f, now, colors, mac, name);
    case Sweeping(now) => SweepName(t, now, mac, name);
    case Pressed(key, height) => KeyName(t, key, height, mac, name);
  }

  // The name of an address over a whole run.
  ghost function NameHistory(es: seq<Event>, colors: nat, mac: Mac): seq<Byte>
    requires colors > 0 && LegalRun(es, colors)
  {
    if es == [] then HIDDEN
    else
      var n := |es| - 1;
      NameAfter(Run(es[..n], colors), es[n], mac, NameHistory(es[..n], colors, mac))
  }

  // Every tracked access point bears the fold, from "<hidden>", of the SSID elements in its
  // announcements since it was last added, through every sweep and reuse of its slot.
  lemma {:induction false} RunNames(es: seq<Event>, colors: nat, mac: Mac)
    requires colors > 0 && LegalRun(es, colors)
    ensures NameIs(Run(es, colors), mac, NameHistory(es, colors, mac))
  {
    if es != [] {
      var n := |es| - 1;
      RunNames(es[..n], colors, mac);
      StepName(Run(es[..n], colors), es[n], colors, mac, NameHistory(es[..n], colors, mac));
    }
  }

  // ---------- Properties of every slot ----------

  // A property that frames keep in every slot and that does not look at the view holds after
  // every event.
  ghost predicate AllSlots(t: Tracker, p: Ap -> bool) {
    forall ap | ap in t.aps :: p(ap)
  }

  ghost predicate IgnoresView(p: Ap -> bool) {
    forall ap: Ap, v: View :: p(ap) ==> p(ap.(view := v))
  }

  lemma SweepKeepsSlots(t: Tracker, now: int, p: Ap -> bool)
    requires Inv(t) && AllSlots(t, p)
    ensures AllSlots(Sweep(t, now), p)
  {
    SweepSlots(t, now);
  }

  lemma KeyKeepsSlots(t: Tracker, key: Key, height: int, p: Ap -> bool)
    requires Inv(t) && AllSlots(t, p) && IgnoresView(p)
    ensures AllSlots(KeyStep(t, key, height), p)
  {
    KeySlots(t, key, height);
    var u := KeyStep(t, key, height);
    forall i | 0 <= i < |u.aps|
      ensures p(u.aps[i])
    {
      assert SameButView(u.aps[i], t.aps[i]) && t.aps[i] in t.aps;
      assert u.aps[i] == t.aps[i].(view := u.aps[i].view);
    }
  }

  // What a frame can do to one slot.
  ghost predicate SlotChange(f: Frame, now: int, ap: Ap, after: Ap) {
    || after == ap
    || EvolvesTo(ap, f, now, after)
    || exists col :: JoinsAs(ap, f, col, now, after)
  }

  lemma FrameChangesSlots(t: Tracker, f: Frame, now: int, u: Tracker)
    requires t.count <= |t.aps| && ActsOnTable(t, f, now, u)
    ensures forall i | 0 <= i < |t.aps| :: SlotChange(f, now, t.aps[i], u.aps[i])
  {
    if t.count < u.count {
      assert JoinsAs(t.aps[t.count], f, t.curCol + 1, now, u.aps[t.count]);
    }
  }

  lemma ChangesKeep(was: seq<Ap>, aps: seq<Ap>, change: (Ap, Ap) -> bool, q: Ap -> bool)
    requires |was| == |aps| && forall i | 0 <= i < |was| :: change(was[i], aps[i])
    requires forall ap, after :: ap in was && change(ap, after) ==> q(after)
    ensures forall ap | ap in aps :: q(ap)
  {
  }

  lemma FrameKeepsSlots(t: Tracker, f: Frame, now: int, colors: nat, p: Ap -> bool, q: Ap -> bool)
    requires Inv(t) && Ready(t, f) && colors > 0 && AllSlots(t, p)
    requires forall ap, after :: p(ap) && SlotInv(ap) && SlotChange(f, now, ap, after) ==> q(after)
    ensures AllSlots(FrameStep(t, f, now, colors), q)
  {
    FrameOnTable(t, f, now, colors);
    var u := FrameStep(t, f, now, colors);
    FrameChangesSlots(t, f, now, u);
    ChangesKeep(t.aps, u.aps, (ap, after) => SlotChange(f, now, ap, after), q);
  }

  // ---------- Frequencies ----------

  ghost predicate HoppedOnly(ap: Ap) {
    ap.freqNum <= |ap.freqs| && forall f | f in Freqs(ap) :: Hopped(f)
  }

  // A beacon comes in on a channel that is hopped to.
  ghost predicate HeardOnHopped(e: Event) {
    e.Arrival? && IsBeacon(e.frame.hdr) ==> Hopped(e.frame.rt.freq)
  }

  // Seven distinct hopped frequencies are all there are: the list has room for any it lacks.
  lemma HoppedHasRoom(ap: Ap, freq: U16)
    requires SlotInv(ap) && HoppedOnly(ap) && Hopped(freq)
    ensures HasFreq(ap, freq) || ap.freqNum < CHANNELS_COUNT
  {
    HoppedFit(Freqs(ap));
    if ap.freqNum == CHANNELS_COUNT {
      assert freq in Freqs(ap);
    }
  }

  lemma AddedFreq(ap: Ap, freq: U16)
    requires SlotInv(ap) && (HasFreq(ap, freq) || ap.freqNum < CHANNELS_COUNT)
    requires HoppedOnly(ap) && Hopped(freq)
    ensures HoppedOnly(AddFreq(ap, freq))
  {
    FreqsGrow(ap, freq);
  }

  lemma ToldHopped(ap: Ap, f: Frame, now: int)
    requires CanBeTold(ap, f) && SlotInv(ap) && HoppedOnly(ap)
    requires IsBeacon(f.hdr) ==> Hopped(f.rt.freq)
    ensures HoppedOnly(Told(ap, f, now))
  {
    if IsBeacon(f.hdr) {
      var named := SetNames(ap, DecodeBody(f.body, f.hdr.subtype, f.beyond));
      AddedFreq(named.(lastSeen := now, beacons := Plus(named.beacons, 1)), f.rt.freq);
    }
  }

  lemma ChangeHopped(ap: Ap, f: Frame, now: int, after: Ap)
    requires HoppedOnly(ap) && SlotInv(ap) && SlotChange(f, now, ap, after)
    requires IsBeacon(f.hdr) ==> Hopped(f.rt.freq)
    ensures HoppedOnly(after)
  {
    if EvolvesTo(ap, f, now, after) {
      CreditedSame(ap, f, now);
      if Hears(ap, f) {
        ToldHopped(Credited(ap, f.hdr, now), f, now);
      }
    } else if after != ap {
      var col :| JoinsAs(ap, f, col, now, after);
      EnrolledInv(ap, f.hdr.bssid, col);
      EnrolledCanBeTold(ap, f, col);
      ToldHopped(Enrolled(ap, f.hdr.bssid, col), f, now);
    }
  }

  lemma StepHopped(t: Tracker, e: Event, colors: nat)
    requires Inv(t) && Legal(t, e) && colors > 0 && HeardOnHopped(e)
    requires AllSlots(t, HoppedOnly)
    ensures AllSlots(Step(t, e, colors), HoppedOnly)
  {
    match e
    case Arrival(f, now) =>
      forall ap, after | HoppedOnly(ap) && SlotInv(ap) && SlotChange(f, now, ap, after)
        ensures HoppedOnly(after)
      {
        ChangeHopped(ap, f, now, after);
      }
      FrameKeepsSlots(t, f, now, colors, HoppedOnly, HoppedOnly);
    case Sweeping(now) =>
      SweepKeepsSlots(t, now, HoppedOnly);
    case Pressed(key, height) =>
      KeyKeepsSlots(t, key, height, HoppedOnly);
  }

  // What the program's surroundings see to: a slot for every newcomer, names that fit, beacons on
  // hopped channels only. Nothing is asked about room for frequencies.
  ghost predicate Admitted(t: Tracker, e: Event)
    requires Shape(t)
  {
    match e
    case Arrival(f, _) =>
      && HeardOnHopped(e)
      && (Announces(f.hdr) ==>
            SlotOf(t, f.hdr.bssid) < AP_CAPACITY && SsidsFit(DecodeBody(f.body, f.hdr.subtype, f.beyond)))
    case Sweeping(_) => true
    case Pressed(_, height) => height >= 0
  }

  ghost predicate AdmittedRun(es: seq<Event>, colors: nat)
    requires colors > 0
  {
    es != [] ==>
      var n := |es| - 1;
      AdmittedRun(es[..n], colors) && (LegalRun(es[..n], colors) ==> Admitted(Run(es[..n], colors), es[n]))
  }

  lemma AdmittedIsLegal(t: Tracker, e: Event)
    requires Inv(t) && AllSlots(t, HoppedOnly) && Admitted(t, e)
    ensures Legal(t, e)
  {
    if e.Arrival? && Announces(e.frame.hdr) && IsBeacon(e.frame.hdr) {
      var ap := t.aps[SlotOf(t, e.frame.hdr.bssid)];
      assert ap in t.aps;
      HoppedHasRoom(ap, e.frame.rt.freq);
    }
  }

  // While beacons are heard on hopped channels only, no slot, however often reused, runs out of
  // room: every append of a frequency fits.
  lemma {:induction false} RoomNeverRunsOut(es: seq<Event>, colors: nat)
    requires colors > 0 && AdmittedRun(es, colors)
    ensures LegalRun(es, colors) && AllSlots(Run(es, colors), HoppedOnly)
  {
    if es == [] {
      assert Freqs(ZERO_AP) == [];
    } else {
      var n := |es| - 1;
      RoomNeverRunsOut(es[..n], colors);
      AdmittedIsLegal(Run(es[..n], colors), es[n]);
      StepHopped(Run(es[..n], colors), es[n], colors);
    }
  }

  // ---------- Stale slots ----------

  // The record of a newcomer beside the stale one in its slot.
  ghost predicate Inherits(ap: Ap, stale: Ap, f: Frame, now: int) {
    && ap.mac == f.hdr.bssid
    && ap.rx == stale.rx && ap.tx == stale.tx && ap.retries == stale.retries
    && (if IsBeacon(f.hdr) then ap.lastSeen == now && ap.beacons == Plus(stale.beacons, 1)
        else ap.lastSeen == stale.lastSeen && ap.beacons == stale.beacons
             && ap.freqs == stale.freqs && ap.freqNum == stale.freqNum)
  }

  // A new access point inherits the counters, the frequencies and, unless a beacon announced it,
  // the time of the slot's last tenant.
  lemma NewcomerInherits(t: Tracker, f: Frame, now: int, colors: nat, u: Tracker)
    requires Inv(t) && t.count < AP_CAPACITY && Ready(t, f) && colors > 0
    requires Announces(f.hdr) && f.hdr.bssid !in Macs(t)
    requires u == FrameStep(t, f, now, colors)
    ensures u.count == t.count + 1 <= |u.aps|
    ensures Inherits(u.aps[t.count], t.aps[t.count], f, now)
  {
    FrameOnTable(t, f, now, colors);
    var stale := t.aps[t.count];
    EnrolledCanBeTold(stale, f, t.curCol + 1);
    assert JoinsAs(stale, f, t.curCol + 1, now, u.aps[t.count]);
  }

  lemma LastSurvives(t: Tracker, now: int)
    requires Inv(t) && t.count > 0
    ensures Inv(Sweep(t, now))
    ensures t.aps[t.count - 1].mac in Macs(Sweep(t, now)) <==> Fresh(t.aps[t.count - 1], now)
  {
    SweepKeepsInv(t, now);
    SweepSlots(t, now);
    UnexpiredAreTheFresh(Tracked(t), now);
    var s, k := Sweep(t, now), t.count - 1;
    assert Tracked(t)[k] == t.aps[k];
    if Fresh(t.aps[k], now) {
      assert t.aps[k] in Tracked(s);
      var i :| 0 <= i < s.count && Tracked(s)[i] == t.aps[k];
      assert Macs(s)[i] == t.aps[k].mac;
    }
    if t.aps[k].mac in Macs(s) {
      var i :| 0 <= i < s.count && Macs(s)[i] == t.aps[k].mac;
      assert Tracked(s)[i] in Tracked(t);
      var j :| 0 <= j < t.count && Tracked(t)[j] == Tracked(s)[i];
      assert j == k;
    }
  }

  // So one that only a probe response announced outlives a sweep exactly when the last tenant of
  // its slot would.
  lemma ProbedNewcomerExpires(t: Tracker, f: Frame, now: int, colors: nat, u: Tracker, later: int)
    requires Inv(t) && t.count < AP_CAPACITY && Ready(t, f) && colors > 0
    requires Announces(f.hdr) && !IsBeacon(f.hdr) && f.hdr.bssid !in Macs(t)
    requires u == FrameStep(t, f, now, colors)
    ensures Inv(u) && (f.hdr.bssid in Macs(Sweep(u, later)) <==> Fresh(t.aps[t.count], later))
  {
    NewcomerInherits(t, f, now, colors, u);
    FrameKeepsInv(t, f, now, colors);
    LastSurvives(u, later);
  }
}
