// Short runs from the start that show where the tracker forgets an access point too early and
// where its cursor ends up behind the last one.
module TrackerCases {
  import opened Bytes
  import opened InfoElements
  import opened ApTypes
  import opened IeIterator
  import opened SsidScan
  import opened TrackerModel
  import opened TrackerRuns
  import opened TrackerTable
  import opened TrackerHistory

  // An access point that a probe response announces to a program just started is gone with the
  // first sweep, however soon it comes.
  lemma ProbedAloneIsLost(f: Frame, now: int, later: int, colors: nat)
    requires Announces(f.hdr) && !IsBeacon(f.hdr) && SsidsFit(DecodeBody(f.body, f.hdr.subtype, f.beyond))
    requires colors > 0 && later > EXPIRY
    ensures var seen, swept := [Arrival(f, now)], [Arrival(f, now), Sweeping(later)];
      && LegalRun(seen, colors) && Macs(Run(seen, colors)) == [f.hdr.bssid]
      && LegalRun(swept, colors) && Macs(Run(swept, colors)) == []
  {
    var e := Arrival(f, now);
    StartInv();
    RunSnoc([], e, colors);
    assert [] + [e] == [e];
    var u := Run([e], colors);
    NewcomerInherits(Start(), f, now, colors, u);
    RunSnoc([e], Sweeping(later), colors);
    assert [e] + [Sweeping(later)] == [e, Sweeping(later)];
    SweepSlots(u, later);
    UnexpiredAreTheFresh(Tracked(u), later);
    assert forall ap | ap in Tracked(u) :: ap == u.aps[0];
  }

  function BeaconOf(mac: Mac): Frame {
    Frame(Header(ZERO_MAC, ZERO_MAC, mac, MANAGEMENT, BEACON, false, 0, false, false), Radiotap(0, 2412, 0), [], (i: nat) => 0)
  }

  const OTHER_MAC: Mac := [1, 0, 0, 0, 0, 0]

  lemma BeaconIsReady(t: Tracker, mac: Mac)
    requires Shape(t) && t.count < AP_CAPACITY
    requires t.aps[SlotOf(t, mac)].freqNum < CHANNELS_COUNT
    ensures Ready(t, BeaconOf(mac))
  {
    assert ElementBytes([], BEACON) == [];
  }

  // Two access points, seen at times 0 and 100.
  lemma TwoBeacons(colors: nat, u: Tracker)
    requires colors > 0
    requires Inv(Start()) && Ready(Start(), BeaconOf(ZERO_MAC))
    requires u == FrameStep(Start(), BeaconOf(ZERO_MAC), 0, colors)
    ensures Inv(u) && Ready(u, BeaconOf(OTHER_MAC))
    ensures var v := FrameStep(u, BeaconOf(OTHER_MAC), 100, colors);
      && v.count == 2 <= |v.aps| && v.scroll == 0
      && v.aps[0].lastSeen == 0 && v.aps[1].lastSeen == 100
  {
    var a, b := BeaconOf(ZERO_MAC), BeaconOf(OTHER_MAC);
    FrameKeepsInv(Start(), a, 0, colors);
    FrameOnMacs(Start(), a, 0, colors, u);
    NewcomerInherits(Start(), a, 0, colors, u);
    assert Macs(u)[0] == ZERO_MAC;
    SlotOfIsByKey(u, OTHER_MAC);
    FrameOnTable(Start(), a, 0, colors);
    assert u.aps[1] == ZERO_AP;
    BeaconIsReady(u, OTHER_MAC);
    var v := FrameStep(u, b, 100, colors);
    NewcomerInherits(u, b, 100, colors, v);
    FrameOnTable(u, b, 100, colors);
    assert EvolvesTo(u.aps[0], b, 100, v.aps[0]);
  }

  lemma ScrollOfSweep(t: Tracker, now: int)
    requires Inv(t) && t.count == 2 && t.scroll == 1
    requires !Fresh(t.aps[0], now) && Fresh(t.aps[1], now)
    ensures Sweep(t, now).scroll == Sweep(t, now).count == 1
  {
    var s := Tracked(t);
    assert s[..1][..0] == [] && s == s[..1] + [s[1]];
    assert Unexpired(s[..1], now) == [];
  }

  lemma TwoSeen(colors: nat, e1: Event, e2: Event)
    requires colors > 0
    requires e1 == Arrival(BeaconOf(ZERO_MAC), 0) && e2 == Arrival(BeaconOf(OTHER_MAC), 100)
    ensures LegalRun([e1, e2], colors)
    ensures var t := Run([e1, e2], colors);
      t.count == 2 && t.scroll == 0 && t.aps[0].lastSeen == 0 && t.aps[1].lastSeen == 100
  {
    StartInv();
    BeaconIsReady(Start(), ZERO_MAC);
    RunSnoc([], e1, colors);
    assert [] + [e1] == [e1];
    TwoBeacons(colors, Run([e1], colors));
    RunSnoc([e1], e2, colors);
    assert [e1] + [e2] == [e1, e2];
  }

  lemma DownMoves(t: Tracker)
    requires t.scroll == 0 && t.count == 2 <= |t.aps|
    ensures KeyStep(t, Down, 1) == t.(scroll := 1)
  {
  }

  lemma SweepAfter(es: seq<Event>, colors: nat)
    requires colors > 0 && LegalRun(es, colors)
    requires var t := Run(es, colors);
      t.count == 2 && t.scroll == 1 && t.aps[0].lastSeen == 0 && t.aps[1].lastSeen == 100
    ensures LegalRun(es + [Sweeping(100)], colors)
    ensures var u := Run(es + [Sweeping(100)], colors); u.scroll == u.count == 1
  {
    RunSnoc(es, Sweeping(100), colors);
    ScrollOfSweep(Run(es, colors), 100);
  }

  lemma DownThenSweep(es: seq<Event>, colors: nat)
    requires colors > 0 && LegalRun(es, colors)
    requires var t := Run(es, colors);
      t.count == 2 && t.scroll == 0 && t.aps[0].lastSeen == 0 && t.aps[1].lastSeen == 100
    ensures var all := es + [Pressed(Down, 1)] + [Sweeping(100)];
      LegalRun(all, colors) && Run(all, colors).scroll == Run(all, colors).count == 1
  {
    var t, es' := Run(es, colors), es + [Pressed(Down, 1)];
    RunSnoc(es, Pressed(Down, 1), colors);
    DownMoves(t);
    SweepAfter(es', colors);
  }

  // The cursor behind the last access point: the first of two expires while the cursor is on the
  // second.
  lemma CursorPastTheEnd(colors: nat)
    requires colors > 0
    ensures var es := [Arrival(BeaconOf(ZERO_MAC), 0), Arrival(BeaconOf(OTHER_MAC), 100)]
                      + [Pressed(Down, 1)] + [Sweeping(100)];
      LegalRun(es, colors) && Run(es, colors).scroll == Run(es, colors).count == 1
  {
    var e1, e2 := Arrival(BeaconOf(ZERO_MAC), 0), Arrival(BeaconOf(OTHER_MAC), 100);
    TwoSeen(colors, e1, e2);
    DownThenSweep([e1, e2], colors);
  }

  // The first beacon after the start, with one SSID element: its bytes become the name if they are
  // printable and not the start of "<hidden>".
  lemma FirstBeaconNames(hdr: Header, rt: Radiotap, fixed: seq<Byte>, s: seq<Byte>, beyond: Beyond, now: int, colors: nat)
    requires colors > 0 && hdr.kind == 0 && hdr.subtype == 8 && |fixed| == 12
    requires |s| <= 32 && (forall b | b in s :: 32 <= b <= 126)
    requires !(s <= [60, 104, 105, 100, 100, 101, 110, 62])
    ensures var es := [Arrival(Frame(hdr, rt, fixed + [0, |s|] + s, beyond), now)];
      && LegalRun(es, colors) && Run(es, colors).count == 1
      && SlotOk(Run(es, colors).aps[0]) && Name(Run(es, colors).aps[0]) == s
  {
    var f := Frame(hdr, rt, fixed + [0, |s|] + s, beyond);
    var ssid := Element(0, s);
    assert Encode([ssid]) == [0, |s|] + s && f.body == fixed + Encode([ssid]);
    ShortBodyRoundTrip(fixed, [ssid], 8, beyond);
    OneBeacon(f, now, colors, [ssid]);
    OneName(s);
  }

  lemma OneName(s: seq<Byte>)
    requires (forall b | b in s :: 32 <= b <= 126) && !(s <= [60, 104, 105, 100, 100, 101, 110, 62])
    ensures RenameAll(HIDDEN, [Element(0, s)]) == s
  {
    var e := Element(0, s);
    assert forall i | 0 <= i < |s| :: s[i] in s;
    assert Printable(s);
    assert Rename(HIDDEN, e) == s && [e][1..] == [];
  }

  // With no element at all the name is "<hidden>".
  lemma FirstBeaconHides(hdr: Header, rt: Radiotap, fixed: seq<Byte>, beyond: Beyond, now: int, colors: nat)
    requires colors > 0 && hdr.kind == 0 && hdr.subtype == 8 && |fixed| == 12
    ensures var es := [Arrival(Frame(hdr, rt, fixed, beyond), now)];
      && LegalRun(es, colors) && Run(es, colors).count == 1
      && SlotOk(Run(es, colors).aps[0])
      && Name(Run(es, colors).aps[0]) == [60, 104, 105, 100, 100, 101, 110, 62]
  {
    OneBeacon(Frame(hdr, rt, fixed, beyond), now, colors, []);
  }

  lemma OneBeacon(f: Frame, now: int, colors: nat, elements: seq<Element>)
    requires colors > 0 && IsBeacon(f.hdr) && SsidsFit(elements)
    requires DecodeBody(f.body, f.hdr.subtype, f.beyond) == elements
    ensures LegalRun([Arrival(f, now)], colors)
    ensures var u := Run([Arrival(f, now)], colors);
      u.count == 1 && SlotOk(u.aps[0]) && Name(u.aps[0]) == RenameAll(HIDDEN, elements)
  {
    var e := Arrival(f, now);
    StartInv();
    RunSnoc([], e, colors);
    assert [] + [e] == [e];
    var u := Run([e], colors);
    FrameOnTable(Start(), f, now, colors);
    assert JoinsAs(Start().aps[0], f, Start().curCol + 1, now, u.aps[0]);
    assert Start().aps[0] in Start().aps;
    JoinedName(Start().aps[0], f, Start().curCol + 1, now, u.aps[0]);
  }
}
