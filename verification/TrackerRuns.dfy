// What every frame, sweep and key keeps, over whole runs of the tracker.
module TrackerRuns {
  import opened Bytes
  import opened Word32
  import opened Sequences
  import opened InfoElements
  import opened ApTypes
  import opened SsidScan
  import opened TrackerModel

  // ---------- The invariant ----------

  function Freqs(ap: Ap): seq<U16>
    requires ap.freqNum <= |ap.freqs|
  {
    ap.freqs[..ap.freqNum]
  }

  // Of every slot, stale ones included.
  ghost predicate SlotInv(ap: Ap) {
    SlotOk(ap) && Distinct(Freqs(ap))
  }

  ghost predicate UniqueMacs(aps: seq<Ap>) {
    forall i, j :: 0 <= i < j < |aps| ==> aps[i].mac != aps[j].mac
  }

  ghost predicate Named(ap: Ap) {
    SlotOk(ap) && GoodName(Name(ap))
  }

  function Tracked(t: Tracker): seq<Ap>
    requires t.count <= |t.aps|
  {
    t.aps[..t.count]
  }

  ghost predicate Inv(t: Tracker) {
    && Shape(t)
    && t.scroll <= t.count
    && UniqueMacs(Tracked(t))
    && (forall ap | ap in t.aps :: SlotInv(ap))
    && (forall ap | ap in Tracked(t) :: Named(ap))
  }

  // ---------- get_ap ----------

  // With unique addresses the linear scan is the lookup by key.
  lemma LookupIsByKey(t: Tracker, mac: Mac, i: nat)
    requires Inv(t) && i < t.count
    ensures Lookup(t.aps, t.count, mac) == Some(i) <==> t.aps[i].mac == mac
  {
    assert forall j | 0 <= j < t.count :: Tracked(t)[j] == t.aps[j];
  }

  // ---------- Frames ----------

  lemma SameStationInv(ap: Ap, was: Ap)
    requires SameStation(ap, was)
    ensures SlotInv(was) ==> SlotInv(ap)
    ensures Named(was) ==> Named(ap)
  {
  }

  lemma CountKeepsInv(t: Tracker, f: Frame, now: int)
    requires Inv(t)
    ensures Inv(Count(t, f, now))
  {
    CountSame(t, f, now);
    CountKeepsShape(t, f, now);
    var c := Count(t, f, now);
    forall i | 0 <= i < |t.aps|
      ensures SlotInv(c.aps[i]) && (i < t.count ==> Named(c.aps[i])) && c.aps[i].mac == t.aps[i].mac
    {
      assert t.aps[i] in t.aps;
      if i < t.count {
        assert Tracked(t)[i] in Tracked(t);
      }
      SameStationInv(c.aps[i], t.aps[i]);
    }
    forall i, j | 0 <= i < j < t.count
      ensures Tracked(c)[i].mac != Tracked(c)[j].mac
    {
      assert Tracked(t)[i].mac != Tracked(t)[j].mac;
    }
  }

  // A slot's new contents keep the invariant when they keep its own part of it.
  lemma WriteKeepsInv(t: Tracker, k: nat, ap: Ap)
    requires Inv(t) && k < t.count
    requires SlotInv(ap) && Named(ap) && ap.mac == t.aps[k].mac
    ensures Inv(t.(aps := t.aps[k := ap]))
  {
    var u := t.(aps := t.aps[k := ap]);
    forall i, j | 0 <= i < j < t.count
      ensures Tracked(u)[i].mac != Tracked(u)[j].mac
    {
      assert Tracked(t)[i].mac != Tracked(t)[j].mac;
    }
    forall i | 0 <= i < t.count
      ensures Named(Tracked(u)[i])
    {
      assert Tracked(t)[i] in Tracked(t);
    }
  }

  lemma EnrolledInv(ap: Ap, mac: Mac, col: int)
    requires SlotInv(ap)
    ensures SlotInv(Enrolled(ap, mac, col)) && Named(Enrolled(ap, mac, col))
    ensures Name(Enrolled(ap, mac, col)) == HIDDEN
  {
    var e := Enrolled(ap, mac, col);
    assert e.ssid[..8] == HIDDEN;
  }

  lemma EnrolKeepsInv(t: Tracker, mac: Mac, colors: nat)
    requires Inv(t) && colors > 0 && SlotOf(t, mac) < AP_CAPACITY
    ensures Inv(Enrol(t, mac, colors))
    ensures var u := Enrol(t, mac, colors);
            SlotOf(t, mac) < u.count && u.aps[SlotOf(t, mac)].mac == mac
  {
    if SlotOf(t, mac) == t.count {
      var u := Enrol(t, mac, colors);
      var new' := u.aps[t.count];
      assert t.aps[t.count] in t.aps;
      EnrolledInv(t.aps[t.count], mac, t.curCol + 1);
      assert Tracked(u) == Tracked(t) + [new'];
      forall i | 0 <= i < t.count
        ensures Tracked(t)[i].mac != mac
      {
        assert Tracked(t)[i] == t.aps[i];
      }
    }
  }

  lemma FreqsGrow(ap: Ap, freq: U16)
    requires SlotInv(ap) && (HasFreq(ap, freq) || ap.freqNum < CHANNELS_COUNT)
    ensures SlotInv(AddFreq(ap, freq))
    ensures Freqs(AddFreq(ap, freq)) == if freq in Freqs(ap) then Freqs(ap) else Freqs(ap) + [freq]
  {
    assert HasFreq(ap, freq) <==> freq in Freqs(ap);
  }

  lemma ToldInv(ap: Ap, f: Frame, now: int)
    requires SlotInv(ap) && Named(ap) && SsidsFit(DecodeBody(f.body, f.hdr.subtype, f.beyond))
    requires IsBeacon(f.hdr) ==> HasFreq(ap, f.rt.freq) || ap.freqNum < CHANNELS_COUNT
    ensures SlotInv(Told(ap, f, now)) && Named(Told(ap, f, now))
    ensures Told(ap, f, now).mac == ap.mac
    ensures Name(Told(ap, f, now)) == RenameAll(Name(ap), DecodeBody(f.body, f.hdr.subtype, f.beyond))
  {
    var es := DecodeBody(f.body, f.hdr.subtype, f.beyond);
    var named := SetNames(ap, es);
    SetNamesRenames(ap, es);
    NamesStayGood(Name(ap), es);
    if IsBeacon(f.hdr) {
      FreqsGrow(named.(lastSeen := now, beacons := Plus(named.beacons, 1)), f.rt.freq);
    }
  }

  // After enrolment the slot is ready for the rest of the announcement.
  lemma EnrolKeepsRoom(t: Tracker, f: Frame, colors: nat)
    requires Shape(t) && Ready(t, f) && Announces(f.hdr) && colors > 0
    ensures var ap := Enrol(t, f.hdr.bssid, colors).aps[SlotOf(t, f.hdr.bssid)];
            IsBeacon(f.hdr) ==> HasFreq(ap, f.rt.freq) || ap.freqNum < CHANNELS_COUNT
  {
    var k := SlotOf(t, f.hdr.bssid);
    var ap, was := Enrol(t, f.hdr.bssid, colors).aps[k], t.aps[k];
    assert ap.freqs == was.freqs && ap.freqNum == was.freqNum;
    if HasFreq(was, f.rt.freq) {
      var i :| 0 <= i < was.freqNum && i < |was.freqs| && was.freqs[i] == f.rt.freq;
      assert ap.freqs[i] == f.rt.freq;
    }
  }

  lemma AnnounceKeepsInv(t: Tracker, f: Frame, now: int, colors: nat)
    requires Inv(t) && Ready(t, f) && Announces(f.hdr) && colors > 0
    ensures Inv(Announce(t, f, now, colors))
  {
    var k, e := SlotOf(t, f.hdr.bssid), Enrol(t, f.hdr.bssid, colors);
    EnrolKeepsInv(t, f.hdr.bssid, colors);
    EnrolKeepsRoom(t, f, colors);
    assert e.aps[k] in e.aps && Tracked(e)[k] in Tracked(e);
    ToldInv(e.aps[k], f, now);
    WriteKeepsInv(e, k, Told(e.aps[k], f, now));
  }

  lemma FrameKeepsInv(t: Tracker, f: Frame, now: int, colors: nat)
    requires Inv(t) && Ready(t, f) && colors > 0
    ensures Inv(FrameStep(t, f, now, colors))
  {
    CountKeepsInv(t, f, now);
    CountKeepsShape(t, f, now);
    var c := Count(t, f, now);
    if Announces(f.hdr) {
      AnnounceKeepsInv(c, f, now, colors);
    }
  }

  // ---------- Sweeps ----------

  lemma {:induction false} UnexpiredAreTheFresh(aps: seq<Ap>, now: int)
    ensures forall ap :: ap in Unexpired(aps, now) <==> ap in aps && Fresh(ap, now)
  {
    if aps != [] {
      var n := |aps| - 1;
      UnexpiredAreTheFresh(aps[..n], now);
      assert aps == aps[..n] + [aps[n]];
    }
  }

  // The records left stand at increasing positions of the old list, which are those of the records
  // seen in the last thirty seconds.
  lemma {:induction false} UnexpiredInOrder(aps: seq<Ap>, now: int) returns (at: seq<nat>)
    ensures |at| == |Unexpired(aps, now)|
    ensures forall i | 0 <= i < |at| :: at[i] < |aps| && aps[at[i]] == Unexpired(aps, now)[i]
    ensures forall i, j | 0 <= i < j < |at| :: at[i] < at[j]
    ensures forall k | 0 <= k < |aps| :: k in at <==> now - aps[k].lastSeen <= 30
  {
    at := [];
    if aps != [] {
      var n := |aps| - 1;
      at := UnexpiredInOrder(aps[..n], now);
      assert forall k | 0 <= k < n :: aps[..n][k] == aps[k];
      if Fresh(aps[n], now) {
        at := at + [n];
      }
    }
  }

  lemma {:induction false} UnexpiredStayUnique(aps: seq<Ap>, now: int)
    requires UniqueMacs(aps)
    ensures UniqueMacs(Unexpired(aps, now))
  {
    if aps != [] {
      var n := |aps| - 1;
      var rest := aps[..n];
      assert UniqueMacs(rest);
      UnexpiredStayUnique(rest, now);
      UnexpiredAreTheFresh(rest, now);
      forall ap | ap in Unexpired(rest, now)
        ensures ap.mac != aps[n].mac
      {
        var i :| 0 <= i < n && rest[i] == ap;
      }
      AppendUnique(Unexpired(rest, now), aps[n]);
    }
  }

  lemma AppendUnique(aps: seq<Ap>, ap: Ap)
    requires UniqueMacs(aps)
    requires forall a | a in aps :: a.mac != ap.mac
    ensures UniqueMacs(aps + [ap])
  {
  }

  // The records left are the unexpired ones in order, every slot given up holds the last tracked
  // record, and the others are untouched.
  lemma SweepSlots(t: Tracker, now: int)
    requires t.count <= |t.aps| && t.scroll <= t.count
    ensures |Sweep(t, now).aps| == |t.aps|
    ensures forall ap | ap in Sweep(t, now).aps :: ap in t.aps
    ensures Sweep(t, now).count <= t.count
    ensures Tracked(Sweep(t, now)) == Unexpired(Tracked(t), now)
    ensures forall i | Sweep(t, now).count <= i < |t.aps| ::
              Sweep(t, now).aps[i] == if i < t.count then t.aps[t.count - 1] else t.aps[i]
    ensures Sweep(t, now).scroll == if t.scroll <= Sweep(t, now).count then t.scroll else Sweep(t, now).count
  {
    UnexpiredAreTheFresh(Tracked(t), now);
    if t.count > 0 {
      var u, last := Sweep(t, now), t.aps[t.count - 1];
      var kept := Unexpired(Tracked(t), now);
      forall ap | ap in u.aps
        ensures ap in t.aps
      {
        assert ap in kept || ap in Copies(last, t.count - |kept|) || ap in t.aps[t.count..];
        assert ap in kept ==> ap in Tracked(t);
      }
    }
  }

  lemma SweepKeepsInv(t: Tracker, now: int)
    requires Inv(t)
    ensures Inv(Sweep(t, now))
  {
    SweepSlots(t, now);
    UnexpiredAreTheFresh(Tracked(t), now);
    UnexpiredStayUnique(Tracked(t), now);
    var u := Sweep(t, now);
    forall i | 0 <= i < |u.aps|
      ensures SlotOk(u.aps[i])
    {
      assert u.aps[i] in t.aps;
    }
  }

  // ---------- Keys ----------

  predicate SameButView(ap: Ap, was: Ap) {
    ap == was.(view := ap.view)
  }

  lemma KeySlots(t: Tracker, key: Key, height: int)
    requires Inv(t)
    ensures var u := KeyStep(t, key, height);
            && |u.aps| == |t.aps| && u.count == t.count
            && forall i | 0 <= i < |t.aps| :: SameButView(u.aps[i], t.aps[i])
  {
  }

  lemma KeyKeepsInv(t: Tracker, key: Key, height: int)
    requires Inv(t) && height >= 0
    ensures Inv(KeyStep(t, key, height))
  {
    KeySlots(t, key, height);
    var u := KeyStep(t, key, height);
    forall i | 0 <= i < |u.aps|
      ensures SlotInv(u.aps[i]) && (i < u.count ==> Named(u.aps[i])) && u.aps[i].mac == t.aps[i].mac
    {
      assert SameButView(u.aps[i], t.aps[i]) && t.aps[i] in t.aps;
      if i < t.count {
        assert Tracked(t)[i] in Tracked(t);
      }
    }
    forall i, j | 0 <= i < j < u.count
      ensures Tracked(u)[i].mac != Tracked(u)[j].mac
    {
      assert Tracked(t)[i].mac != Tracked(t)[j].mac;
    }
  }

  // ---------- Runs ----------

  datatype Event =
    | Arrival(frame: Frame, now: int)
    | Sweeping(now: int)
    | Pressed(key: Key, height: int)

  ghost predicate Legal(t: Tracker, e: Event)
    requires Shape(t)
  {
    match e
    case Arrival(f, _) => Ready(t, f)
    case Sweeping(_) => true
    case Pressed(_, height) => height >= 0
  }

  ghost function Step(t: Tracker, e: Event, colors: nat): Tracker
    requires Inv(t) && Legal(t, e) && colors > 0
  {
    match e
    case Arrival(f, now) => FrameStep(t, f, now, colors)
    case Sweeping(now) => Sweep(t, now)
    case Pressed(key, height) => KeyStep(t, key, height)
  }

  lemma StepKeepsInv(t: Tracker, e: Event, colors: nat)
    requires Inv(t) && Legal(t, e) && colors > 0
    ensures Inv(Step(t, e, colors))
  {
    match e
    case Arrival(f, now) => FrameKeepsInv(t, f, now, colors);
    case Sweeping(now) => SweepKeepsInv(t, now);
    case Pressed(key, height) => KeyKeepsInv(t, key, height);
  }

  lemma StartInv()
    ensures Inv(Start())
  {
    assert ZERO_AP.ssid[0] == 0;
    assert SlotInv(ZERO_AP);
  }

  ghost predicate LegalRun(es: seq<Event>, colors: nat)
    requires colors > 0
    decreases |es|, 0
  {
    es != [] ==>
      var n := |es| - 1;
      LegalRun(es[..n], colors) && Legal(Run(es[..n], colors), es[n])
  }

  // The state after any sequence of frames, sweeps and keys.
  ghost function Run(es: seq<Event>, colors: nat): (t: Tracker)
    requires colors > 0 && LegalRun(es, colors)
    ensures Inv(t)
    decreases |es|, 1
  {
    if es == [] then StartInv(); Start()
    else
      var n := |es| - 1;
      var before := Run(es[..n], colors);
      StepKeepsInv(before, es[n], colors);
      Step(before, es[n], colors)
  }

  lemma RunSnoc(es: seq<Event>, e: Event, colors: nat)
    requires colors > 0 && LegalRun(es, colors) && Legal(Run(es, colors), e)
    ensures LegalRun(es + [e], colors)
    ensures Run(es + [e], colors) == Step(Run(es, colors), e, colors)
  {
    var all := es + [e];
    assert all[..|all| - 1] == es && all[|all| - 1] == e;
  }
}
