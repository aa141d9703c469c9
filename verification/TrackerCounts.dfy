// Every counter over whole runs, in terms of the frames alone: what a tracked access point's
// counters, colour and frequencies are, and how many packets have been counted.
module TrackerCounts {
  import opened Bytes
  import opened Word32
  import opened HashBits
  import opened ApTypes
  import opened SsidScan
  import opened InfoElements
  import opened TrackerModel
  import opened TrackerRuns
  import opened TrackerTable
  import opened TrackerCounters

  // Frames that concern an address.
  datatype Tally = Tally(rx: nat, tx: nat, retries: nat, beacons: nat)

  function One(yes: bool): nat {
    if yes then 1 else 0
  }

  function Sum(n: Tally, m: Tally): Tally {
    Tally(n.rx + m.rx, n.tx + m.tx, n.retries + m.retries, n.beacons + m.beacons)
  }

  // What one frame adds for an address.
  function Share(hdr: Header, mac: Mac): Tally {
    var from, to := hdr.fromds && hdr.src == mac, hdr.tods && hdr.dst == mac;
    Tally(One(to), One(from), One(hdr.retry && from) + One(hdr.retry && to),
          One(hdr.kind == 0 && hdr.subtype == 8 && hdr.bssid == mac))
  }

  // The counters of `was` and so many frames more, modulo 2^32.
  ghost predicate CountsOn(ap: Ap, was: Ap, n: Tally) {
    && ap.rx == (was.rx + n.rx) % 0x1_0000_0000
    && ap.tx == (was.tx + n.tx) % 0x1_0000_0000
    && ap.retries == (was.retries + n.retries) % 0x1_0000_0000
    && ap.beacons == (was.beacons + n.beacons) % 0x1_0000_0000
  }

  lemma Wraps(x: nat, n: nat, m: nat)
    ensures ((x + n) % 0x1_0000_0000 + m) % 0x1_0000_0000 == (x + (n + m)) % 0x1_0000_0000
  {
  }

  lemma OneMoreIs(x: U32, yes: bool)
    ensures OneMore(x, yes) == (x + One(yes)) % 0x1_0000_0000
  {
  }

  lemma CreditedCounts(ap: Ap, hdr: Header, now: int)
    ensures var c, n := Credited(ap, hdr, now), Share(hdr, ap.mac);
      CountsOn(c, ap, n.(beacons := 0)) && c.mac == ap.mac && c.colPair == ap.colPair
  {
    var from, to := hdr.fromds && hdr.src == ap.mac, hdr.tods && hdr.dst == ap.mac;
    OneMoreIs(ap.tx, from);
    OneMoreIs(ap.rx, to);
    OneMoreIs(ap.retries, hdr.retry && from);
    OneMoreIs(OneMore(ap.retries, hdr.retry && from), hdr.retry && to);
    Wraps(ap.retries, One(hdr.retry && from), One(hdr.retry && to));
  }

  lemma ToldCounts(ap: Ap, f: Frame, now: int)
    requires CanBeTold(ap, f) && Announces(f.hdr)
    ensures var after := Told(ap, f, now);
      && CountsOn(after, ap, Tally(0, 0, 0, One(f.hdr.kind == 0 && f.hdr.subtype == 8)))
      && after.mac == ap.mac && after.colPair == ap.colPair
  {
    OneMoreIs(ap.beacons, true);
  }

  lemma EvolvedCounts(ap: Ap, f: Frame, now: int, after: Ap)
    requires EvolvesTo(ap, f, now, after)
    ensures after.mac == ap.mac && after.colPair == ap.colPair
    ensures CountsOn(after, ap, Share(f.hdr, ap.mac))
  {
    var c, n := Credited(ap, f.hdr, now), Share(f.hdr, ap.mac);
    CreditedSame(ap, f, now);
    CreditedCounts(ap, f.hdr, now);
    if Hears(ap, f) {
      ToldCounts(c, f, now);
      CountsAddUp(after, c, ap, n.(beacons := 0), Tally(0, 0, 0, n.beacons));
    }
  }

  lemma JoinedCounts(stale: Ap, f: Frame, col: int, now: int, after: Ap)
    requires JoinsAs(stale, f, col, now, after) && Announces(f.hdr)
    ensures after.mac == f.hdr.bssid && after.colPair == col
    ensures CountsOn(after, stale, Tally(0, 0, 0, One(f.hdr.kind == 0 && f.hdr.subtype == 8)))
  {
    EnrolledCanBeTold(stale, f, col);
    ToldCounts(Enrolled(stale, f.hdr.bssid, col), f, now);
  }

  lemma CountsAddUp(ap: Ap, mid: Ap, was: Ap, n: Tally, m: Tally)
    requires CountsOn(mid, was, n) && CountsOn(ap, mid, m)
    ensures CountsOn(ap, was, Sum(n, m))
  {
    WrapsOn(was.rx, n.rx, m.rx, mid.rx, ap.rx);
    WrapsOn(was.tx, n.tx, m.tx, mid.tx, ap.tx);
    WrapsOn(was.retries, n.retries, m.retries, mid.retries, ap.retries);
    WrapsOn(was.beacons, n.beacons, m.beacons, mid.beacons, ap.beacons);
  }

  lemma WrapsOn(x: nat, n: nat, m: nat, mid: nat, after: nat)
    requires mid == (x + n) % 0x1_0000_0000 && after == (mid + m) % 0x1_0000_0000
    ensures after == (x + (n + m)) % 0x1_0000_0000
  {
    Wraps(x, n, m);
  }

  // ---------- Counters ----------

  // What its slot held when an address was added, the frames that concern it since, and the number
  // of addresses that had been added before it.
  datatype Past = Past(was: Ap, since: Tally, rank: nat)

  ghost predicate PastIs(t: Tracker, mac: Mac, past: Past, colors: nat)
    requires colors > 0
  {
    && t.count <= |t.aps|
    && forall i | 0 <= i < t.count && t.aps[i].mac == mac ::
         CountsOn(t.aps[i], past.was, past.since) && t.aps[i].colPair == past.rank % colors + 1
  }

  // An address is added by a beacon or a probe response when it is not tracked.
  predicate AddedBy(t: Tracker, e: Event, mac: Mac)
    requires t.count <= |t.aps|
  {
    && e.Arrival? && mac !in Macs(t)
    && e.frame.hdr.kind == 0 && (e.frame.hdr.subtype == 8 || e.frame.hdr.subtype == 5)
    && e.frame.hdr.bssid == mac
  }

  // The past of an address after one more event; `added` addresses have been added so far.
  ghost function PastAfter(t: Tracker, e: Event, mac: Mac, past: Past, added: nat): Past
    requires t.count <= |t.aps|
  {
    if AddedBy(t, e, mac) then
      Past(if t.count < |t.aps| then t.aps[t.count] else past.was, Tally(0, 0, 0, One(e.frame.hdr.subtype == 8)), added)
    else if e.Arrival? then Past(past.was, Sum(past.since, Share(e.frame.hdr, mac)), past.rank)
    else past
  }

  lemma FramePast(t: Tracker, f: Frame, now: int, u: Tracker, mac: Mac, past: Past, added: nat, colors: nat)
    requires colors > 0 && t.count <= |t.aps| && ActsOnTable(t, f, now, u) && PastIs(t, mac, past, colors)
    requires t.curCol == added % colors
    ensures PastIs(u, mac, PastAfter(t, Arrival(f, now), mac, past, added), colors)
  {
    forall i | 0 <= i < u.count && u.aps[i].mac == mac
      ensures var after := PastAfter(t, Arrival(f, now), mac, past, added);
        CountsOn(u.aps[i], after.was, after.since) && u.aps[i].colPair == after.rank % colors + 1
    {
      if i < t.count {
        assert EvolvesTo(t.aps[i], f, now, u.aps[i]);
        EvolvedCounts(t.aps[i], f, now, u.aps[i]);
        assert Macs(t)[i] == mac;
        CountsAddUp(u.aps[i], t.aps[i], past.was, past.since, Share(f.hdr, mac));
      } else {
        JoinedCounts(t.aps[i], f, t.curCol + 1, now, u.aps[i]);
      }
    }
  }

  lemma SweepPast(t: Tracker, now: int, mac: Mac, past: Past, colors: nat)
    requires Inv(t) && colors > 0 && PastIs(t, mac, past, colors)
    ensures PastIs(Sweep(t, now), mac, past, colors)
  {
    SweepSlots(t, now);
    UnexpiredAreTheFresh(Tracked(t), now);
    var u := Sweep(t, now);
    forall i | 0 <= i < u.count && u.aps[i].mac == mac
      ensures CountsOn(u.aps[i], past.was, past.since) && u.aps[i].colPair == past.rank % colors + 1
    {
      assert Tracked(u)[i] in Tracked(t);
    }
  }

  lemma KeyPast(t: Tracker, key: Key, height: int, mac: Mac, past: Past, colors: nat)
    requires Inv(t) && colors > 0 && PastIs(t, mac, past, colors)
    ensures PastIs(KeyStep(t, key, height), mac, past, colors)
  {
    KeySlots(t, key, height);
    var u := KeyStep(t, key, height);
    assert forall i | 0 <= i < u.count :: SameButView(u.aps[i], t.aps[i]);
  }

  // ---------- The scalars ----------

  ghost predicate Adds(t: Tracker, e: Event)
    requires t.count <= |t.aps|
  {
    e.Arrival? && AddedBy(t, e, e.frame.hdr.bssid)
  }

  lemma FrameScalars(t: Tracker, f: Frame, now: int, colors: nat, u: Tracker)
    requires Inv(t) && Ready(t, f) && colors > 0 && u == FrameStep(t, f, now, colors)
    ensures u.packets == (t.packets + 1) % 0x1_0000_0000
    ensures u.curCol == if Adds(t, Arrival(f, now)) then (t.curCol + 1) % colors else t.curCol
  {
    CountKeepsShape(t, f, now);
    SlotOfIsByKey(t, f.hdr.bssid);
    var c := Count(t, f, now);
    OneMoreIs(t.packets, true);
    assert c.packets == (t.packets + 1) % 0x1_0000_0000 && c.curCol == t.curCol && c.count == t.count;
    if Announces(f.hdr) {
      AnnounceScalars(c, f, now, colors);
    }
  }

  lemma AnnounceScalars(c: Tracker, f: Frame, now: int, colors: nat)
    requires Shape(c) && Ready(c, f) && Announces(f.hdr) && colors > 0
    ensures var u := Announce(c, f, now, colors);
      && u.packets == c.packets
      && u.curCol == if SlotOf(c, f.hdr.bssid) < c.count then c.curCol else (c.curCol + 1) % colors
  {
  }

  // The remainder of n by c, counted up.
  function Turn(n: nat, c: nat): (r: nat)
    requires c > 0
    ensures r < c
  {
    if n == 0 then 0
    else
      var r := Turn(n - 1, c);
      if r + 1 == c then 0 else r + 1
  }

  lemma NextTurn(r: nat, c: nat)
    requires r < c
    ensures (r + 1) % c == if r + 1 == c then 0 else r + 1
  {
    QuotientIs(r + 1, c, if r + 1 == c then 1 else 0, if r + 1 == c then 0 else r + 1);
  }

  lemma {:induction false} TurnIsRemainder(n: nat, c: nat)
    requires c > 0
    ensures Turn(n, c) == n % c
  {
    if n == 0 {
      QuotientIs(0, c, 0, 0);
    } else {
      TurnIsRemainder(n - 1, c);
      var q, r := (n - 1) / c, (n - 1) % c;
      assert n - 1 == c * q + r;
      if r + 1 == c {
        assert c * (q + 1) == c * q + c;
        QuotientIs(n, c, q + 1, 0);
      } else {
        QuotientIs(n, c, q, r + 1);
      }
    }
  }

  ghost function PacketsAfter(e: Event, packets: nat): nat {
    if e.Arrival? then (packets + 1) % 0x1_0000_0000 else packets
  }

  ghost function PacketHistory(es: seq<Event>): nat {
    if es == [] then 0 else PacketsAfter(es[|es| - 1], PacketHistory(es[..|es| - 1]))
  }

  lemma {:induction false} PacketsAreArrivals(es: seq<Event>)
    ensures PacketHistory(es) == Arrivals(es) % 0x1_0000_0000
  {
    if es != [] {
      PacketsAreArrivals(es[..|es| - 1]);
      Wraps(0, Arrivals(es[..|es| - 1]), 1);
    }
  }

  // How many of a list are true, and the colour after as many have been handed out.
  function CountTrue(bs: seq<bool>): nat {
    if bs == [] then 0 else CountTrue(bs[..|bs| - 1]) + One(bs[|bs| - 1])
  }

  function ColorAfter(color: nat, add: bool, colors: nat): nat
    requires colors > 0
  {
    if add then (color + 1) % colors else color
  }

  function ColorOf(bs: seq<bool>, colors: nat): nat
    requires colors > 0
  {
    if bs == [] then 0 else ColorAfter(ColorOf(bs[..|bs| - 1], colors), bs[|bs| - 1], colors)
  }

  lemma {:induction false} ColorIsTurn(bs: seq<bool>, colors: nat)
    requires colors > 0
    ensures ColorOf(bs, colors) == Turn(CountTrue(bs), colors)
  {
    if bs != [] {
      ColorIsTurn(bs[..|bs| - 1], colors);
      NextTurn(ColorOf(bs[..|bs| - 1], colors), colors);
    }
  }

  // For every event of a run, whether it adds an address.
  ghost function Additions(es: seq<Event>, colors: nat): seq<bool>
    requires colors > 0 && LegalRun(es, colors)
  {
    if es == [] then []
    else
      var n := |es| - 1;
      Additions(es[..n], colors) + [Adds(Run(es[..n], colors), es[n])]
  }

  ghost function Added(es: seq<Event>, colors: nat): nat
    requires colors > 0 && LegalRun(es, colors)
  {
    CountTrue(Additions(es, colors))
  }

  lemma StepScalars(t: Tracker, e: Event, colors: nat, u: Tracker)
    requires Inv(t) && Legal(t, e) && colors > 0 && u == Step(t, e, colors)
    ensures u.packets == PacketsAfter(e, t.packets)
    ensures u.curCol == ColorAfter(t.curCol, Adds(t, e), colors)
  {
    if e.Arrival? {
      FrameScalars(t, e.frame, e.now, colors, u);
    }
  }

  lemma ColorSnoc(bs: seq<bool>, add: bool, colors: nat)
    requires colors > 0
    ensures ColorOf(bs + [add], colors) == ColorAfter(ColorOf(bs, colors), add, colors)
  {
    assert (bs + [add])[..|bs|] == bs;
  }

  lemma {:induction false} RunHistories(es: seq<Event>, colors: nat)
    requires colors > 0 && LegalRun(es, colors)
    ensures Run(es, colors).packets == PacketHistory(es)
    ensures Run(es, colors).curCol == ColorOf(Additions(es, colors), colors)
  {
    if es != [] {
      var n := |es| - 1;
      RunHistories(es[..n], colors);
      StepScalars(Run(es[..n], colors), es[n], colors, Run(es, colors));
      ColorSnoc(Additions(es[..n], colors), Adds(Run(es[..n], colors), es[n]), colors);
    }
  }

  // All frames are counted, and the colours are handed out in turn.
  lemma RunScalars(es: seq<Event>, colors: nat)
    requires colors > 0 && LegalRun(es, colors)
    ensures Run(es, colors).packets == Arrivals(es) % 0x1_0000_0000
    ensures Run(es, colors).curCol == Added(es, colors) % colors
  {
    RunHistories(es, colors);
    PacketsAreArrivals(es);
    ColorIsTurn(Additions(es, colors), colors);
    TurnIsRemainder(Added(es, colors), colors);
  }

  // ---------- The past of an address ----------

  ghost function History(es: seq<Event>, colors: nat, mac: Mac): Past
    requires colors > 0 && LegalRun(es, colors)
  {
    if es == [] then Past(Start().aps[0], Tally(0, 0, 0, 0), 0)
    else
      var n := |es| - 1;
      PastAfter(Run(es[..n], colors), es[n], mac, History(es[..n], colors, mac), Added(es[..n], colors))
  }

  lemma StepPast(t: Tracker, e: Event, colors: nat, mac: Mac, past: Past, added: nat)
    requires Inv(t) && Legal(t, e) && colors > 0 && PastIs(t, mac, past, colors) && t.curCol == added % colors
    ensures PastIs(Step(t, e, colors), mac, PastAfter(t, e, mac, past, added), colors)
  {
    match e
    case Arrival(f, now) =>
      FrameOnTable(t, f, now, colors);
      FramePast(t, f, now, Step(t, e, colors), mac, past, added, colors);
    case Sweeping(now) =>
      SweepPast(t, now, mac, past, colors);
    case Pressed(key, height) =>
      KeyPast(t, key, height, mac, past, colors);
  }

  // After any run the counters of a tracked address are, modulo 2^32, what its slot held when it was
  // added and the frames since that were sent through, received through, repeated, or its beacons;
  // its colour is the next in turn when it was added.
  lemma {:induction false} RunCounts(es: seq<Event>, colors: nat, mac: Mac)
    requires colors > 0 && LegalRun(es, colors)
    ensures PastIs(Run(es, colors), mac, History(es, colors, mac), colors)
  {
    if es != [] {
      var n := |es| - 1;
      RunCounts(es[..n], colors, mac);
      RunScalars(es[..n], colors);
      StepPast(Run(es[..n], colors), es[n], colors, mac, History(es[..n], colors, mac), Added(es[..n], colors));
    }
  }

  // ---------- Frequencies ----------

  ghost predicate FreqsAre(t: Tracker, mac: Mac, freqs: seq<U16>) {
    && t.count <= |t.aps|
    && forall i | 0 <= i < t.count && t.aps[i].mac == mac ::
         t.aps[i].freqNum <= |t.aps[i].freqs| && Freqs(t.aps[i]) == freqs
  }

  function Listed(freqs: seq<U16>, freq: U16): seq<U16> {
    if freq in freqs then freqs else freqs + [freq]
  }

  // The frequencies of an address after one more event: those of its slot when it is added, and
  // that of each of its beacons that has a new one.
  ghost function FreqsAfter(t: Tracker, e: Event, mac: Mac, freqs: seq<U16>): seq<U16>
    requires Shape(t)
  {
    var base := if AddedBy(t, e, mac) && t.count < |t.aps| then Freqs(t.aps[t.count]) else freqs;
    if e.Arrival? && e.frame.hdr.kind == 0 && e.frame.hdr.subtype == 8 && e.frame.hdr.bssid == mac
    then Listed(base, e.frame.rt.freq) else base
  }

  lemma ToldFreqs(ap: Ap, f: Frame, now: int)
    requires SlotInv(ap) && CanBeTold(ap, f) && Announces(f.hdr)
    ensures SlotOk(Told(ap, f, now))
    ensures Freqs(Told(ap, f, now)) ==
            if f.hdr.kind == 0 && f.hdr.subtype == 8 then Listed(Freqs(ap), f.rt.freq) else Freqs(ap)
  {
    if IsBeacon(f.hdr) {
      var named := SetNames(ap, DecodeBody(f.body, f.hdr.subtype, f.beyond));
      FreqsGrow(named.(lastSeen := now, beacons := Plus(named.beacons, 1)), f.rt.freq);
    }
  }

  lemma EvolvedFreqs(ap: Ap, f: Frame, now: int, after: Ap)
    requires SlotInv(ap) && EvolvesTo(ap, f, now, after)
    ensures SlotOk(after) && after.mac == ap.mac
    ensures Freqs(after) == if f.hdr.kind == 0 && f.hdr.subtype == 8 && f.hdr.bssid == ap.mac
                            then Listed(Freqs(ap), f.rt.freq) else Freqs(ap)
  {
    CreditedSame(ap, f, now);
    SameStationInv(Credited(ap, f.hdr, now), ap);
    if Hears(ap, f) {
      ToldFreqs(Credited(ap, f.hdr, now), f, now);
    }
  }

  lemma JoinedFreqs(stale: Ap, f: Frame, col: int, now: int, after: Ap)
    requires SlotInv(stale) && JoinsAs(stale, f, col, now, after) && Announces(f.hdr)
    ensures SlotOk(after) && after.mac == f.hdr.bssid
    ensures Freqs(after) == if f.hdr.kind == 0 && f.hdr.subtype == 8 then Listed(Freqs(stale), f.rt.freq) else Freqs(stale)
  {
    EnrolledInv(stale, f.hdr.bssid, col);
    EnrolledCanBeTold(stale, f, col);
    ToldFreqs(Enrolled(stale, f.hdr.bssid, col), f, now);
  }

  lemma FrameFreqs(t: Tracker, f: Frame, now: int, u: Tracker, mac: Mac, freqs: seq<U16>)
    requires Inv(t) && ActsOnTable(t, f, now, u) && FreqsAre(t, mac, freqs)
    ensures FreqsAre(u, mac, FreqsAfter(t, Arrival(f, now), mac, freqs))
  {
    forall i | 0 <= i < u.count && u.aps[i].mac == mac
      ensures SlotOk(u.aps[i]) && Freqs(u.aps[i]) == FreqsAfter(t, Arrival(f, now), mac, freqs)
    {
      assert t.aps[i] in t.aps;
      if i < t.count {
        assert EvolvesTo(t.aps[i], f, now, u.aps[i]);
        EvolvedFreqs(t.aps[i], f, now, u.aps[i]);
        assert Macs(t)[i] == mac;
      } else {
        JoinedFreqs(t.aps[i], f, t.curCol + 1, now, u.aps[i]);
      }
    }
  }

  lemma StepFreqs(t: Tracker, e: Event, colors: nat, mac: Mac, freqs: seq<U16>)
    requires Inv(t) && Legal(t, e) && colors > 0 && FreqsAre(t, mac, freqs)
    ensures FreqsAre(Step(t, e, colors), mac, FreqsAfter(t, e, mac, freqs))
  {
    match e
    case Arrival(f, now) =>
      FrameOnTable(t, f, now, colors);
      FrameFreqs(t, f, now, Step(t, e, colors), mac, freqs);
    case Sweeping(now) =>
      SweepSlots(t, now);
      UnexpiredAreTheFresh(Tracked(t), now);
      var u := Sweep(t, now);
      forall i | 0 <= i < u.count && u.aps[i].mac == mac
        ensures u.aps[i].freqNum <= |u.aps[i].freqs| && Freqs(u.aps[i]) == freqs
      {
        assert Tracked(u)[i] in Tracked(t);
      }
    case Pressed(key, height) =>
      KeySlots(t, key, height);
      var u := KeyStep(t, key, height);
      assert forall i | 0 <= i < u.count :: SameButView(u.aps[i], t.aps[i]);
  }

  ghost function FreqHistory(es: seq<Event>, colors: nat, mac: Mac): seq<U16>
    requires colors > 0 && LegalRun(es, colors)
  {
    if es == [] then []
    else
      var n := |es| - 1;
      FreqsAfter(Run(es[..n], colors), es[n], mac, FreqHistory(es[..n], colors, mac))
  }

  // After any run a tracked address lists the frequencies its slot held when it was added and then
  // those of its beacons, each once, in order of hearing.
  lemma {:induction false} RunFreqs(es: seq<Event>, colors: nat, mac: Mac)
    requires colors > 0 && LegalRun(es, colors)
    ensures FreqsAre(Run(es, colors), mac, FreqHistory(es, colors, mac))
  {
    if es != [] {
      var n := |es| - 1;
      RunFreqs(es[..n], colors, mac);
      StepFreqs(Run(es[..n], colors), es[n], colors, mac, FreqHistory(es[..n], colors, mac));
    }
  }
}
