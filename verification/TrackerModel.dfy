// The tracker of main.c as values: the state in struct ctx and what one frame, one sweep and one
// key do to it.
module TrackerModel {
  import opened Bytes
  import opened Word32
  import opened Sequences
  import opened InfoElements
  import opened ApTypes
  import opened SsidScan

  // struct ctx and the static cur_col of handle_frame_info.
  datatype Tracker = Tracker(
    aps: seq<Ap>,
    count: nat,
    scroll: Byte,
    packets: U32,
    ring: seq<Packet>,
    index: nat,
    curCol: nat)

  // A frame as it arrives: headers, body, and the bytes that follow what is read of the body.
  datatype Frame = Frame(hdr: Header, rt: Radiotap, body: seq<Byte>, beyond: Beyond)

  const HIDDEN: seq<Byte> := [60, 104, 105, 100, 100, 101, 110, 62]  // "<hidden>"

  // Every slot, tracked or stale.
  ghost predicate SlotOk(ap: Ap) {
    SsidOk(ap) && |ap.freqs| == CHANNELS_COUNT && ap.freqNum <= CHANNELS_COUNT
  }

  ghost predicate Shape(t: Tracker) {
    && |t.aps| == AP_CAPACITY && t.count <= AP_CAPACITY
    && |t.ring| == PACKET_BUF_SIZE && t.index < PACKET_BUF_SIZE
    && forall i | 0 <= i < |t.aps| :: SlotOk(t.aps[i])
  }

  function Start(): Tracker {
    Tracker(seq(AP_CAPACITY, i => ZERO_AP), 0, 0, 0, seq(PACKET_BUF_SIZE, i => ZERO_PACKET), 0, 0)
  }

  // ---------- get_ap ----------

  datatype Found = None | Some(at: nat)

  ghost function Lookup(aps: seq<Ap>, count: nat, mac: Mac): (r: Found)
    requires count <= |aps|
    ensures r.Some? ==> r.at < count && aps[r.at].mac == mac && forall j | 0 <= j < r.at :: aps[j].mac != mac
    ensures r.None? ==> forall j | 0 <= j < count :: aps[j].mac != mac
  {
    LookupFrom(aps, count, mac, 0)
  }

  ghost function LookupFrom(aps: seq<Ap>, count: nat, mac: Mac, i: nat): (r: Found)
    requires i <= count <= |aps|
    ensures r.Some? ==> i <= r.at < count && aps[r.at].mac == mac && forall j | i <= j < r.at :: aps[j].mac != mac
    ensures r.None? ==> forall j | i <= j < count :: aps[j].mac != mac
    decreases count - i
  {
    if i == count then None
    else if aps[i].mac == mac then Some(i)
    else LookupFrom(aps, count, mac, i + 1)
  }

  // ---------- handle_frame_info ----------

  function OneMore(x: U32, yes: bool): U32 {
    if yes then Plus(x, 1) else x
  }

  function Sent(ap: Ap, retry: bool, now: int): Ap {
    ap.(tx := OneMore(ap.tx, true), lastSeen := now, retries := OneMore(ap.retries, retry))
  }

  function Received(ap: Ap, retry: bool): Ap {
    ap.(rx := OneMore(ap.rx, true), retries := OneMore(ap.retries, retry))
  }

  ghost function CountSource(aps: seq<Ap>, count: nat, hdr: Header, now: int): seq<Ap>
    requires count <= |aps|
  {
    var found := Lookup(aps, count, hdr.src);
    if hdr.fromds && found.Some? then aps[found.at := Sent(aps[found.at], hdr.retry, now)] else aps
  }

  ghost function CountDestination(aps: seq<Ap>, count: nat, hdr: Header): seq<Ap>
    requires count <= |aps|
  {
    var found := Lookup(aps, count, hdr.dst);
    if hdr.tods && found.Some? then aps[found.at := Received(aps[found.at], hdr.retry)] else aps
  }

  // The frame in the slot at the ring's index, and all the counters.
  ghost function Count(t: Tracker, f: Frame, now: int): Tracker
    requires Shape(t)
  {
    t.(ring := t.ring[t.index := Packet(f.hdr, f.rt, Action(0, 0))],
       packets := Plus(t.packets, 1),
       aps := CountDestination(CountSource(t.aps, t.count, f.hdr, now), t.count, f.hdr))
  }

  predicate Announces(hdr: Header) {
    hdr.kind == MANAGEMENT && (hdr.subtype == BEACON || hdr.subtype == PROBE_RESPONSE)
  }

  predicate IsBeacon(hdr: Header) {
    hdr.kind == MANAGEMENT && hdr.subtype == BEACON
  }

  predicate IsAction(hdr: Header) {
    hdr.kind == MANAGEMENT && (hdr.subtype == ACTION || hdr.subtype == ACTION_NOACK)
  }

  // A frame whose packet stays in the ring.
  predicate Kept(hdr: Header) {
    !(hdr.kind == MANAGEMENT && (hdr.subtype == BEACON || hdr.subtype == PROBE_REQUEST))
  }

  // A new access point in a slot: everything else in the slot stays as it was left.
  ghost function Enrolled(ap: Ap, mac: Mac, col: int): (r: Ap)
    requires SlotOk(ap)
    ensures SlotOk(r)
  {
    ap.(mac := mac, ssid := HIDDEN + [0] + ap.ssid[9..], ssidLen := 8, colPair := col)
  }

  ghost function SlotOf(t: Tracker, mac: Mac): (k: nat)
    requires Shape(t)
    ensures k <= t.count
  {
    var found := Lookup(t.aps, t.count, mac);
    if found.Some? then found.at else t.count
  }

  ghost function Enrol(t: Tracker, mac: Mac, colors: nat): Tracker
    requires Shape(t) && colors > 0 && SlotOf(t, mac) < AP_CAPACITY
  {
    if SlotOf(t, mac) < t.count then t
    else
      t.(aps := t.aps[t.count := Enrolled(t.aps[t.count], mac, t.curCol + 1)],
         count := t.count + 1,
         curCol := (t.curCol + 1) % colors)
  }

  predicate HasFreq(ap: Ap, freq: U16) {
    exists i :: 0 <= i < ap.freqNum && i < |ap.freqs| && ap.freqs[i] == freq
  }

  ghost function AddFreq(ap: Ap, freq: U16): (r: Ap)
    requires SlotOk(ap) && (HasFreq(ap, freq) || ap.freqNum < CHANNELS_COUNT)
    ensures SlotOk(r)
  {
    if HasFreq(ap, freq) then ap
    else ap.(freqs := ap.freqs[ap.freqNum as int := freq], freqNum := ap.freqNum + 1)
  }

  ghost function Heard(ap: Ap, freq: U16, now: int): (r: Ap)
    requires SlotOk(ap) && (HasFreq(ap, freq) || ap.freqNum < CHANNELS_COUNT)
    ensures SlotOk(r)
  {
    AddFreq(ap.(lastSeen := now, beacons := Plus(ap.beacons, 1)), freq)
  }

  // The record of an announcing access point after its frame.
  ghost function Told(ap: Ap, f: Frame, now: int): (r: Ap)
    requires SlotOk(ap) && SsidsFit(DecodeBody(f.body, f.hdr.subtype, f.beyond))
    requires IsBeacon(f.hdr) ==> HasFreq(ap, f.rt.freq) || ap.freqNum < CHANNELS_COUNT
    ensures SlotOk(r)
  {
    var named := SetNames(ap, DecodeBody(f.body, f.hdr.subtype, f.beyond));
    if IsBeacon(f.hdr) then Heard(named, f.rt.freq, now) else named
  }

  // What an announcement needs: a slot, names that fit, and room for the frequency.
  ghost predicate Ready(t: Tracker, f: Frame)
    requires Shape(t)
  {
    Announces(f.hdr) ==>
      && SlotOf(t, f.hdr.bssid) < AP_CAPACITY
      && SsidsFit(DecodeBody(f.body, f.hdr.subtype, f.beyond))
      && (IsBeacon(f.hdr) ==>
            var ap := t.aps[SlotOf(t, f.hdr.bssid)];
            HasFreq(ap, f.rt.freq) || ap.freqNum < CHANNELS_COUNT)
  }

  ghost function Announce(t: Tracker, f: Frame, now: int, colors: nat): Tracker
    requires Shape(t) && Ready(t, f) && Announces(f.hdr) && colors > 0
  {
    var k := SlotOf(t, f.hdr.bssid);
    var e := Enrol(t, f.hdr.bssid, colors);
    e.(aps := e.aps[k := Told(e.aps[k], f, now)])
  }

  // The action category and code of the frame in the ring.
  function NoteAction(t: Tracker, f: Frame): Tracker
    requires t.index < |t.ring|
  {
    if IsAction(f.hdr)
    then t.(ring := t.ring[t.index := t.ring[t.index].(action :=
                Action(ReadAt(f.body, f.beyond, 0), ReadAt(f.body, f.beyond, 1)))])
    else t
  }

  function Advance(t: Tracker, hdr: Header): Tracker {
    if Kept(hdr) then t.(index := (t.index + 1) % PACKET_BUF_SIZE) else t
  }

  // The counters apart, the record is the same.
  predicate SameStation(ap: Ap, was: Ap) {
    ap == was.(lastSeen := ap.lastSeen, rx := ap.rx, tx := ap.tx, retries := ap.retries)
  }

  ghost predicate SameStations(aps: seq<Ap>, were: seq<Ap>) {
    |aps| == |were| && forall i | 0 <= i < |were| :: SameStation(aps[i], were[i])
  }

  lemma CountSourceSame(aps: seq<Ap>, count: nat, hdr: Header, now: int)
    requires count <= |aps|
    ensures SameStations(CountSource(aps, count, hdr, now), aps)
  {
  }

  lemma CountDestinationSame(aps: seq<Ap>, count: nat, hdr: Header)
    requires count <= |aps|
    ensures SameStations(CountDestination(aps, count, hdr), aps)
  {
  }

  lemma CountSame(t: Tracker, f: Frame, now: int)
    requires Shape(t)
    ensures SameStations(Count(t, f, now).aps, t.aps)
  {
    CountSourceSame(t.aps, t.count, f.hdr, now);
    CountDestinationSame(CountSource(t.aps, t.count, f.hdr, now), t.count, f.hdr);
  }

  lemma SameLookup(aps: seq<Ap>, were: seq<Ap>, count: nat, mac: Mac)
    requires SameStations(aps, were) && count <= |aps|
    ensures Lookup(aps, count, mac) == Lookup(were, count, mac)
  {
  }

  lemma CountKeepsShape(t: Tracker, f: Frame, now: int)
    requires Shape(t)
    ensures Shape(Count(t, f, now))
    ensures Ready(t, f) ==> Ready(Count(t, f, now), f)
    ensures SlotOf(Count(t, f, now), f.hdr.bssid) == SlotOf(t, f.hdr.bssid)
  {
    CountSame(t, f, now);
    var c := Count(t, f, now);
    assert forall i | 0 <= i < |t.aps| :: SameStation(c.aps[i], t.aps[i]);
    SameLookup(c.aps, t.aps, t.count, f.hdr.bssid);
  }

  // What the branch on the frame's type adds.
  ghost function Noted(t: Tracker, f: Frame, now: int, colors: nat): Tracker
    requires Shape(t) && Ready(t, f) && colors > 0
  {
    NoteAction(if Announces(f.hdr) then Announce(t, f, now, colors) else t, f)
  }

  ghost function FrameStep(t: Tracker, f: Frame, now: int, colors: nat): Tracker
    requires Shape(t) && Ready(t, f) && colors > 0
  {
    CountKeepsShape(t, f, now);
    Advance(Noted(Count(t, f, now), f, now, colors), f.hdr)
  }

  // ---------- The sweep ----------

  const EXPIRY: int := 30

  predicate Fresh(ap: Ap, now: int) {
    now - ap.lastSeen <= EXPIRY
  }

  function Unexpired(aps: seq<Ap>, now: int): (r: seq<Ap>)
    ensures |r| <= |aps|
  {
    if aps == [] then []
    else
      var last := aps[|aps| - 1];
      Unexpired(aps[..|aps| - 1], now) + if Fresh(last, now) then [last] else []
  }

  // What the sweep leaves: the unexpired records in order, then copies of the last tracked record
  // in the slots given up, then the slots that were not in use.
  function Sweep(t: Tracker, now: int): Tracker
    requires t.count <= |t.aps| && t.scroll <= t.count
  {
    if t.count == 0 then t
    else
      var kept := Unexpired(t.aps[..t.count], now);
      t.(aps := kept + Copies(t.aps[t.count - 1], t.count - |kept|) + t.aps[t.count..],
         count := |kept|,
         scroll := Min(t.scroll, |kept|))
  }

  function Copies(ap: Ap, n: nat): seq<Ap> {
    seq(n, i => ap)
  }

  // ---------- Keys ----------

  datatype Key = Up | Down | Top | Bottom | Open | Close | OpenAll | CloseAll

  function SetViews(aps: seq<Ap>, n: nat, view: View): seq<Ap> {
    seq(|aps|, i requires 0 <= i < |aps| => if i < n then aps[i].(view := view) else aps[i])
  }

  // height is the height of the window of access points; scroll is eight bits wide. The test of
  // Down is unsigned, so that a negative sum is not below the count.
  function KeyStep(t: Tracker, key: Key, height: int): Tracker
    requires t.scroll < |t.aps|
  {
    match key
    case Up => if t.scroll > 0 then t.(scroll := t.scroll - 1) else t
    case Down => if 0 <= t.scroll + height < t.count then t.(scroll := (t.scroll + 1) % 0x100) else t
    case Top => t.(scroll := 0)
    case Bottom => t.(scroll := if t.count > height then (t.count - height) % 0x100 else 0)
    case Open => t.(aps := t.aps[t.scroll as int := t.aps[t.scroll].(view := Detail)])
    case Close => t.(aps := t.aps[t.scroll as int := t.aps[t.scroll].(view := Main)])
    case OpenAll => t.(aps := SetViews(t.aps, t.count, Detail))
    case CloseAll => t.(aps := SetViews(t.aps, t.count, Main))
  }
}
