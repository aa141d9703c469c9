// The array of access points as a table keyed by address in order of insertion: what each event
// does to a record, without slots.
module TrackerTable {
  import opened Sequences
  import opened InfoElements
  import opened ApTypes
  import opened SsidScan
  import opened TrackerModel
  import opened TrackerRuns

  function Macs(t: Tracker): (macs: seq<Mac>)
    requires t.count <= |t.aps|
    ensures |macs| == t.count
  {
    seq(t.count, i requires 0 <= i < t.count => t.aps[i].mac)
  }

  lemma MacsAreDistinct(t: Tracker)
    requires Inv(t)
    ensures Distinct(Macs(t))
  {
    forall i, j | 0 <= i < j < t.count
      ensures Macs(t)[i] != Macs(t)[j]
    {
      assert Tracked(t)[i].mac != Tracked(t)[j].mac;
    }
  }

  lemma SlotOfIsByKey(t: Tracker, mac: Mac)
    requires Inv(t)
    ensures SlotOf(t, mac) < t.count <==> mac in Macs(t)
    ensures forall i | 0 <= i < t.count :: i == SlotOf(t, mac) <==> t.aps[i].mac == mac
  {
    forall i | 0 <= i < t.count
      ensures i == SlotOf(t, mac) <==> t.aps[i].mac == mac
    {
      LookupIsByKey(t, mac, i);
    }
    if mac in Macs(t) {
      var i :| 0 <= i < t.count && Macs(t)[i] == mac;
      assert t.aps[i].mac == mac;
    }
    if SlotOf(t, mac) < t.count {
      assert Macs(t)[SlotOf(t, mac)] == mac;
    }
  }

  // What a frame does to the counters of the record of one address.
  function Credited(ap: Ap, hdr: Header, now: int): Ap {
    var sent := if hdr.fromds && hdr.src == ap.mac then Sent(ap, hdr.retry, now) else ap;
    if hdr.tods && hdr.dst == ap.mac then Received(sent, hdr.retry) else sent
  }

  ghost predicate Hears(ap: Ap, f: Frame) {
    Announces(f.hdr) && f.hdr.bssid == ap.mac
  }

  ghost predicate CanBeTold(ap: Ap, f: Frame) {
    && SlotOk(ap)
    && SsidsFit(DecodeBody(f.body, f.hdr.subtype, f.beyond))
    && (IsBeacon(f.hdr) ==> HasFreq(ap, f.rt.freq) || ap.freqNum < CHANNELS_COUNT)
  }

  lemma CreditedSame(ap: Ap, f: Frame, now: int)
    ensures SameStation(Credited(ap, f.hdr, now), ap)
    ensures CanBeTold(ap, f) ==> CanBeTold(Credited(ap, f.hdr, now), f)
  {
    var c := Credited(ap, f.hdr, now);
    assert c.freqs == ap.freqs && c.freqNum == ap.freqNum;
    if HasFreq(ap, f.rt.freq) {
      var i :| 0 <= i < ap.freqNum && i < |ap.freqs| && ap.freqs[i] == f.rt.freq;
      assert c.freqs[i] == f.rt.freq;
    }
  }

  // What a frame does to the record of one address.
  ghost function Evolve(ap: Ap, f: Frame, now: int): Ap
    requires Hears(ap, f) ==> CanBeTold(ap, f)
  {
    CreditedSame(ap, f, now);
    if Hears(ap, f) then Told(Credited(ap, f.hdr, now), f, now) else Credited(ap, f.hdr, now)
  }

  ghost predicate EvolvesTo(ap: Ap, f: Frame, now: int, after: Ap) {
    (Hears(ap, f) ==> CanBeTold(ap, f)) && after == Evolve(ap, f, now)
  }

  lemma EnrolledCanBeTold(stale: Ap, f: Frame, col: int)
    requires CanBeTold(stale, f)
    ensures CanBeTold(Enrolled(stale, f.hdr.bssid, col), f)
  {
    var e := Enrolled(stale, f.hdr.bssid, col);
    assert e.freqs == stale.freqs && e.freqNum == stale.freqNum;
    if HasFreq(stale, f.rt.freq) {
      var i :| 0 <= i < stale.freqNum && i < |stale.freqs| && stale.freqs[i] == f.rt.freq;
      assert e.freqs[i] == f.rt.freq;
    }
  }

  // The record of a new access point, made in a slot with stale contents.
  ghost function Joined(stale: Ap, f: Frame, col: int, now: int): Ap
    requires CanBeTold(stale, f)
  {
    EnrolledCanBeTold(stale, f, col);
    Told(Enrolled(stale, f.hdr.bssid, col), f, now)
  }

  ghost predicate JoinsAs(stale: Ap, f: Frame, col: int, now: int, after: Ap) {
    CanBeTold(stale, f) && after == Joined(stale, f, col, now)
  }

  lemma CountOnTable(t: Tracker, f: Frame, now: int)
    requires Inv(t)
    ensures forall i | 0 <= i < |t.aps| ::
              Count(t, f, now).aps[i] == if i < t.count then Credited(t.aps[i], f.hdr, now) else t.aps[i]
  {
    var hdr := f.hdr;
    var mid := CountSource(t.aps, t.count, hdr, now);
    CountSourceSame(t.aps, t.count, hdr, now);
    SameLookup(mid, t.aps, t.count, hdr.dst);
    forall i | 0 <= i < |t.aps|
      ensures Count(t, f, now).aps[i] == if i < t.count then Credited(t.aps[i], hdr, now) else t.aps[i]
    {
      assert SameStation(mid[i], t.aps[i]);
      if i < t.count {
        LookupIsByKey(t, hdr.src, i);
        LookupIsByKey(t, hdr.dst, i);
      }
    }
  }

  // A frame changes the record of each tracked address on its own, and adds a record for an
  // announcing address that has none; the rest of the array stays as it is.
  ghost predicate ActsOnTable(t: Tracker, f: Frame, now: int, u: Tracker)
    requires t.count <= |t.aps|
  {
    && |u.aps| == |t.aps|
    && u.count == t.count + (if Announces(f.hdr) && f.hdr.bssid !in Macs(t) then 1 else 0) <= |u.aps|
    && (forall i | 0 <= i < t.count :: EvolvesTo(t.aps[i], f, now, u.aps[i]))
    && (u.count > t.count ==> JoinsAs(t.aps[t.count], f, t.curCol + 1, now, u.aps[t.count]))
    && (forall i | u.count <= i < |t.aps| :: u.aps[i] == t.aps[i])
  }

  lemma QuietFrame(t: Tracker, f: Frame, now: int)
    requires Inv(t) && !Announces(f.hdr)
    ensures ActsOnTable(t, f, now, Count(t, f, now))
  {
    CountOnTable(t, f, now);
  }

  lemma KnownAnnounces(t: Tracker, f: Frame, now: int, colors: nat)
    requires Inv(t) && Ready(t, f) && colors > 0 && Announces(f.hdr) && SlotOf(t, f.hdr.bssid) < t.count
    requires Ready(Count(t, f, now), f) && Shape(Count(t, f, now))
    ensures ActsOnTable(t, f, now, Announce(Count(t, f, now), f, now, colors))
  {
    CountOnTable(t, f, now);
    CountKeepsShape(t, f, now);
    SlotOfIsByKey(t, f.hdr.bssid);
    var c, u, k := Count(t, f, now), Announce(Count(t, f, now), f, now, colors), SlotOf(t, f.hdr.bssid);
    assert u == c.(aps := c.aps[k := Told(c.aps[k], f, now)]);
    forall i | 0 <= i < t.count
      ensures EvolvesTo(t.aps[i], f, now, u.aps[i])
    {
      assert i == k <==> Hears(t.aps[i], f);
    }
  }

  lemma NewcomerAnnounces(t: Tracker, f: Frame, now: int, colors: nat)
    requires Inv(t) && Ready(t, f) && colors > 0 && Announces(f.hdr) && SlotOf(t, f.hdr.bssid) == t.count
    requires Ready(Count(t, f, now), f) && Shape(Count(t, f, now))
    ensures ActsOnTable(t, f, now, Announce(Count(t, f, now), f, now, colors))
  {
    CountOnTable(t, f, now);
    CountKeepsShape(t, f, now);
    SlotOfIsByKey(t, f.hdr.bssid);
    var c, u, k := Count(t, f, now), Announce(Count(t, f, now), f, now, colors), t.count;
    var e := Enrolled(t.aps[k], f.hdr.bssid, t.curCol + 1);
    EnrolledCanBeTold(t.aps[k], f, t.curCol + 1);
    assert c.aps[k] == t.aps[k];
    assert u.aps == c.aps[k := e][k := Told(e, f, now)];
    forall i | 0 <= i < t.count
      ensures EvolvesTo(t.aps[i], f, now, u.aps[i])
    {
      assert !Hears(t.aps[i], f);
    }
  }

  lemma FrameOnTable(t: Tracker, f: Frame, now: int, colors: nat)
    requires Inv(t) && Ready(t, f) && colors > 0
    ensures ActsOnTable(t, f, now, FrameStep(t, f, now, colors))
  {
    CountKeepsShape(t, f, now);
    if !Announces(f.hdr) {
      QuietFrame(t, f, now);
    } else if SlotOf(t, f.hdr.bssid) < t.count {
      KnownAnnounces(t, f, now, colors);
    } else {
      NewcomerAnnounces(t, f, now, colors);
    }
  }

  lemma EvolvedMac(ap: Ap, f: Frame, now: int, after: Ap)
    requires EvolvesTo(ap, f, now, after)
    ensures after.mac == ap.mac
  {
    CreditedSame(ap, f, now);
  }

  lemma JoinedMac(stale: Ap, f: Frame, col: int, now: int, after: Ap)
    requires JoinsAs(stale, f, col, now, after)
    ensures after.mac == f.hdr.bssid
  {
    EnrolledCanBeTold(stale, f, col);
  }

  lemma MacsAfterFrame(t: Tracker, f: Frame, now: int, u: Tracker)
    requires t.count <= |t.aps| && ActsOnTable(t, f, now, u)
    ensures Macs(u) == Macs(t) + if Announces(f.hdr) && f.hdr.bssid !in Macs(t) then [f.hdr.bssid] else []
  {
    forall i | 0 <= i < t.count
      ensures u.aps[i].mac == t.aps[i].mac
    {
      EvolvedMac(t.aps[i], f, now, u.aps[i]);
    }
    if t.count < u.count {
      JoinedMac(t.aps[t.count], f, t.curCol + 1, now, u.aps[t.count]);
    }
  }

  // The keys: a frame appends the address of an unknown announcer, by a beacon (8) or a probe
  // response (5), and changes no other.
  lemma FrameOnMacs(t: Tracker, f: Frame, now: int, colors: nat, u: Tracker)
    requires Inv(t) && Ready(t, f) && colors > 0 && u == FrameStep(t, f, now, colors)
    ensures Inv(u) && Distinct(Macs(u))
    ensures Macs(u) == Macs(t) + if f.hdr.kind == 0 && (f.hdr.subtype == 8 || f.hdr.subtype == 5)
                                    && f.hdr.bssid !in Macs(t) then [f.hdr.bssid] else []
  {
    FrameKeepsInv(t, f, now, colors);
    MacsAreDistinct(u);
    FrameOnTable(t, f, now, colors);
    MacsAfterFrame(t, f, now, u);
  }
}
