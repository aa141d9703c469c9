// The tracker of main.c and ctx.c in place: struct ctx, get_ap, handle_frame_info, and the sweep
// and the keys of main().
module ApTracker {
  import opened Bytes
  import opened Word32
  import opened Sequences
  import opened InfoElements
  import opened ApTypes
  import opened SsidScan
  import opened TrackerModel
  import opened PacketRing

  const SIZE_MAX: nat := 0xffff_ffff_ffff_ffff

  class Ctx {
    var scroll: Byte
    const aps: array<Ap>
    var count: nat
    var packets: U32
    const ring: array<Packet>
    var index: nat
    var curCol: nat  // the static variable of handle_frame_info

    // init_ctx: everything is zero.
    constructor ()
      ensures fresh(aps) && fresh(ring)
      ensures View() == Start() && Shape(View())
    {
      scroll, count, packets, index, curCol := 0, 0, 0, 0, 0;
      aps := new Ap[AP_CAPACITY](i => ZERO_AP);
      ring := new Packet[PACKET_BUF_SIZE](i => ZERO_PACKET);
      new;
      assert ZERO_AP.ssid[0] == 0;
      assert aps[..] == Start().aps;
      assert ring[..] == Start().ring;
    }

    ghost function View(): Tracker
      reads this, aps, ring
    {
      Tracker(aps[..], count, scroll, packets, ring[..], index, curCol)
    }

    // get_ap.
    method GetAp(mac: Mac) returns (found: Found)
      requires count <= aps.Length
      ensures found == Lookup(aps[..], count, mac)
    {
      var i := 0;
      while i < count
        invariant i <= count
        invariant LookupFrom(aps[..], count, mac, i) == Lookup(aps[..], count, mac)
      {
        if aps[i].mac == mac {
          return Some(i);
        }
        i := i + 1;
      }
      return None;
    }

    // ---------- handle_frame_info ----------

    method CountFrame(f: Frame, now: int)
      requires Shape(View())
      modifies this, aps, ring
      ensures View() == Count(old(View()), f, now)
    {
      ring[index] := Packet(f.hdr, f.rt, Action(0, 0));
      packets := Plus(packets, 1);
      if f.hdr.fromds {
        var src := GetAp(f.hdr.src);
        if src.Some? {
          aps[src.at] := aps[src.at].(tx := OneMore(aps[src.at].tx, true));
          aps[src.at] := aps[src.at].(lastSeen := now);
          if f.hdr.retry {
            aps[src.at] := aps[src.at].(retries := OneMore(aps[src.at].retries, true));
          }
        }
      }
      assert aps[..] == CountSource(old(aps[..]), count, f.hdr, now);
      if f.hdr.tods {
        var dst := GetAp(f.hdr.dst);
        if dst.Some? {
          aps[dst.at] := aps[dst.at].(rx := OneMore(aps[dst.at].rx, true));
          if f.hdr.retry {
            aps[dst.at] := aps[dst.at].(retries := OneMore(aps[dst.at].retries, true));
          }
        }
      }
    }

    // The slot of the announcing access point, a new one when it has none.
    method EnrolAp(mac: Mac, colors: nat, known: Found) returns (k: nat)
      requires Shape(View()) && colors > 0 && known == Lookup(aps[..], count, mac)
      requires SlotOf(View(), mac) < AP_CAPACITY
      modifies this`count, this`curCol, aps
      ensures View() == Enrol(old(View()), mac, colors) && k == SlotOf(old(View()), mac)
    {
      if known.Some? {
        return known.at;
      }
      k := count;
      count := count + 1;
      aps[k] := aps[k].(mac := mac);
      aps[k] := aps[k].(ssid := HIDDEN + aps[k].ssid[|HIDDEN|..]);
      aps[k] := aps[k].(ssid := aps[k].ssid[|HIDDEN| := 0]);
      aps[k] := aps[k].(ssidLen := |HIDDEN|);
      assert aps[k].ssid == HIDDEN + [0] + old(aps[count].ssid)[9..];
      aps[k] := aps[k].(colPair := curCol + 1);
      curCol := (curCol + 1) % colors;
    }

    // The beacon branch: the time, the count and the list of frequencies.
    method HearBeacon(k: nat, freq: U16, now: int)
      requires k < aps.Length && SlotOk(aps[k])
      requires HasFreq(aps[k], freq) || aps[k].freqNum < CHANNELS_COUNT
      modifies aps
      ensures aps[..] == old(aps[..])[k := Heard(old(aps[k]), freq, now)]
    {
      aps[k] := aps[k].(lastSeen := now);
      aps[k] := aps[k].(beacons := Plus(aps[k].beacons, 1));
      var flag := false;
      for i := 0 to aps[k].freqNum
        invariant flag <==> exists j :: 0 <= j < i && aps[k].freqs[j] == freq
      {
        if aps[k].freqs[i] == freq {
          flag := true;
        }
      }
      assert flag <==> HasFreq(aps[k], freq);
      if !flag {
        var n := aps[k].freqNum;
        aps[k] := aps[k].(freqNum := n + 1);
        aps[k] := aps[k].(freqs := aps[k].freqs[n as int := freq]);
      }
    }

    method AnnounceAp(f: Frame, now: int, colors: nat, known: Found)
      requires Shape(View()) && Ready(View(), f) && Announces(f.hdr) && colors > 0
      requires known == Lookup(aps[..], count, f.hdr.bssid)
      modifies this`count, this`curCol, aps
      ensures View() == Announce(old(View()), f, now, colors)
    {
      var k := EnrolAp(f.hdr.bssid, colors, known);
      ghost var _ := IterPacketIes(aps, k, f.body, f.hdr.subtype, f.beyond);
      if f.hdr.subtype == BEACON {
        HearBeacon(k, f.rt.freq, now);
      }
    }

    method RecordAction(f: Frame)
      requires index < ring.Length && IsAction(f.hdr)
      modifies ring
      ensures View() == NoteAction(old(View()), f)
    {
      ring[index] := ring[index].(action := ring[index].action.(cat := ReadAt(f.body, f.beyond, 0)));
      ring[index] := ring[index].(action := ring[index].action.(code := ReadAt(f.body, f.beyond, 1)));
    }

    // The branches for management frames; false when the packet is not kept.
    method HandleManagement(f: Frame, now: int, colors: nat, known: Found) returns (kept: bool)
      requires Shape(View()) && Ready(View(), f) && colors > 0 && f.hdr.kind == MANAGEMENT
      requires known == Lookup(aps[..], count, f.hdr.bssid)
      modifies this`count, this`curCol, aps, ring
      ensures View() == Noted(old(View()), f, now, colors)
      ensures kept == Kept(f.hdr)
    {
      if f.hdr.subtype == BEACON || f.hdr.subtype == PROBE_RESPONSE {
        AnnounceAp(f, now, colors, known);
        if f.hdr.subtype == BEACON {
          return false;
        }
      } else if f.hdr.subtype == ACTION || f.hdr.subtype == ACTION_NOACK {
        RecordAction(f);
      } else if f.hdr.subtype == PROBE_REQUEST {
        return false;
      }
      return true;
    }

    method HandleFrameInfo(f: Frame, now: int, colors: nat)
      requires Shape(View()) && Ready(View(), f) && colors > 0
      modifies this, aps, ring
      ensures View() == FrameStep(old(View()), f, now, colors)
    {
      CountKeepsShape(View(), f, now);
      CountSame(View(), f, now);
      var ap := GetAp(f.hdr.bssid);
      CountFrame(f, now);
      if f.hdr.kind == MANAGEMENT {
        SameLookup(View().aps, old(View()).aps, count, f.hdr.bssid);
        var kept := HandleManagement(f, now, colors, ap);
        if !kept {
          return;
        }
      }
      index := (index + 1) % PACKET_BUF_SIZE;
    }

    // ---------- The sweep ----------

    // Moves the records after slot i one slot down.
    method ShiftDown(i: nat)
      requires i < count <= aps.Length
      modifies aps
      ensures aps[..] == WithoutSlot(old(aps[..]), i, count)
    {
      ghost var was := aps[..];
      var j := i + 1;
      while j < count
        invariant i < j <= count
        invariant forall k | 0 <= k < aps.Length && !(i <= k < j - 1) :: aps[k] == was[k]
        invariant forall k | i <= k < j - 1 :: aps[k] == was[k + 1]
      {
        aps[j - 1] := aps[j];
        j := j + 1;
      }
      ShiftedSlots(was, aps[..], i, count);
    }

    // One turn of the sweep. i is a size_t: i-- at 0 wraps, and the i++ that follows wraps back.
    method SweepSlot(i: nat, now: int, ghost turn: Turn, ghost next: Turn) returns (i': nat)
      requires i < count <= aps.Length <= SIZE_MAX && scroll <= count
      requires Turn(aps[..], i) == turn && TurnsTo(turn, next, count - i, now)
      modifies this`count, this`scroll, aps
      ensures Turn(aps[..], i') == next
      ensures count - i' == old(count) - i - 1
      ensures scroll == Min(old(scroll), count)
    {
      assert aps[..][i] == aps[i];
      i' := i;
      if now - aps[i].lastSeen > EXPIRY {
        ShiftDown(i);
        if scroll >= count {
          scroll := scroll - 1;
        }
        if count > 0 {
          count := count - 1;
        }
        i' := if i' == 0 then SIZE_MAX else i' - 1;
      }
      i' := if i' == SIZE_MAX then 0 else i' + 1;
    }

    method SweepAps(now: int)
      requires scroll <= count <= aps.Length <= SIZE_MAX
      modifies this`count, this`scroll, aps
      ensures View() == Sweep(old(View()), now)
    {
      ghost var n, p := count, 0;
      ghost var turns := SweepTurns(View(), now);
      var i: nat := 0;
      while i < count
        invariant p <= n && i == turns[p].left && count == i + (n - p)
        invariant aps[..] == turns[p].slots
        invariant scroll == Min(old(scroll), count)
        decreases count - i
      {
        assert TurnsAt(turns, n, p, now);
        i := SweepSlot(i, now, turns[p], turns[p + 1]);
        p := p + 1;
      }
    }

    // ---------- Keys ----------

    method SetAllViews(view: View)
      requires count <= aps.Length
      modifies aps
      ensures aps[..] == SetViews(old(aps[..]), count, view)
    {
      for i := 0 to count
        invariant aps[..] == SetViews(old(aps[..]), i, view)
      {
        aps[i] := aps[i].(view := view);
      }
    }

    // The switch of main(); height is what getmaxy returns.
    method PressKey(key: Key, height: int)
      requires scroll < aps.Length && count <= aps.Length
      modifies this`scroll, aps
      ensures View() == KeyStep(old(View()), key, height)
    {
      match key {
        case Up =>
          if scroll > 0 {
            scroll := scroll - 1;
          }
        case Down =>
          if 0 <= scroll + height < count {
            scroll := (scroll + 1) % 0x100;
          }
        case Top =>
          scroll := 0;
        case Bottom =>
          var val := count - height;
          scroll := if val > 0 then val % 0x100 else 0;
        case Open =>
          aps[scroll] := aps[scroll].(view := Detail);
        case Close =>
          aps[scroll] := aps[scroll].(view := Main);
        case OpenAll =>
          SetAllViews(Detail);
        case CloseAll =>
          SetAllViews(Main);
      }
    }

    // ---------- The packet window ----------

    // draw_packet_win: what each row reads; an all-zero packet leaves its row blank.
    method DrawPacketWin() returns (rows: seq<Row>)
      requires index < PACKET_BUF_SIZE == ring.Length
      ensures rows == Rows(ring[..], index)
    {
      rows := [];
      for i := 0 to PACKET_BUF_SIZE
        invariant |rows| == i
        invariant forall r | 0 <= r < i :: rows[r] == RowOf(ring[RowIndex(index, r)])
      {
        var at := index - 1 - i;
        if at < 0 {
          at := at + PACKET_BUF_SIZE;
        }
        rows := rows + [if ring[at] == ZERO_PACKET then Blank else Shows(ring[at])];
      }
    }
  }

  // The slots and the index before a turn of the sweep.
  datatype Turn = Turn(slots: seq<Ap>, left: nat)

  // One turn, with `ahead` tracked records from the index on.
  ghost predicate TurnsTo(now': Turn, next: Turn, ahead: int, clock: int) {
    && 0 < ahead && now'.left + ahead <= |now'.slots|
    && next == if Fresh(now'.slots[now'.left], clock) then Turn(now'.slots, now'.left + 1)
               else Turn(WithoutSlot(now'.slots, now'.left, now'.left + ahead), now'.left)
  }

  ghost predicate TurnsAt(turns: seq<Turn>, n: nat, p: nat, clock: int) {
    p + 1 < |turns| && TurnsTo(turns[p], turns[p + 1], n - p, clock)
  }

  // All turns of the sweep, and what the last one leaves.
  lemma SweepTurns(t: Tracker, now: int) returns (turns: seq<Turn>)
    requires t.scroll <= t.count <= |t.aps|
    ensures |turns| == t.count + 1 && turns[0] == Turn(t.aps, 0)
    ensures forall p | 0 <= p < t.count :: TurnsAt(turns, t.count, p, now)
    ensures Sweep(t, now) == t.(aps := turns[t.count].slots, count := turns[t.count].left,
                                scroll := Min(t.scroll, turns[t.count].left))
  {
    turns := seq(t.count + 1, p requires 0 <= p <= t.count => MidwayTurn(t.aps, t.count, p, now));
    StartOfSweep(t.aps, t.count, now);
    EndOfSweep(t, now);
    forall p | 0 <= p < t.count
      ensures TurnsAt(turns, t.count, p, now)
    {
      MidwayTurns(t.aps, t.count, p, now);
    }
  }

  function MidwayTurn(was: seq<Ap>, n: nat, p: nat, now: int): Turn
    requires p <= n <= |was|
  {
    Turn(Midway(was, n, p, now), Left(was, n, p, now))
  }

  lemma MidwayTurns(was: seq<Ap>, n: nat, p: nat, now: int)
    requires p < n <= |was|
    ensures TurnsTo(MidwayTurn(was, n, p, now), MidwayTurn(was, n, p + 1, now), n - p, now)
  {
    UnexpiredNext(was, p, now);
    LayoutTurns(was, n, p, Unexpired(was[..p], now), now);
  }

  // The slots with the record in slot i taken out of the first `count`.
  function WithoutSlot(aps: seq<Ap>, i: nat, count: nat): seq<Ap>
    requires i < count <= |aps|
  {
    aps[..i] + aps[i + 1..count] + aps[count - 1..]
  }

  // How many of the first p records are left.
  function Left(was: seq<Ap>, n: nat, p: nat, now: int): nat
    requires p <= n <= |was|
  {
    |Unexpired(was[..p], now)|
  }

  // The slots when p of the n tracked records have been looked at and `kept` are left of them.
  function Layout(was: seq<Ap>, n: nat, p: nat, kept: seq<Ap>): seq<Ap>
    requires |kept| <= p <= n <= |was| && n > 0
  {
    kept + was[p..n] + Copies(was[n - 1], p - |kept|) + was[n..]
  }

  function Midway(was: seq<Ap>, n: nat, p: nat, now: int): seq<Ap>
    requires p <= n <= |was|
  {
    if n == 0 then was else Layout(was, n, p, Unexpired(was[..p], now))
  }

  lemma StartOfSweep(was: seq<Ap>, n: nat, now: int)
    requires n <= |was|
    ensures Left(was, n, 0, now) == 0 && Midway(was, n, 0, now) == was
  {
  }

  lemma EndOfSweep(t: Tracker, now: int)
    requires t.scroll <= t.count <= |t.aps|
    ensures Sweep(t, now) == t.(aps := Midway(t.aps, t.count, t.count, now),
                                count := Left(t.aps, t.count, t.count, now),
                                scroll := Min(t.scroll, Left(t.aps, t.count, t.count, now)))
  {
    if t.count > 0 {
      assert t.aps[t.count..t.count] == [];
    }
  }

  lemma UnexpiredNext(was: seq<Ap>, p: nat, now: int)
    requires p < |was|
    ensures Unexpired(was[..p + 1], now)
            == if Fresh(was[p], now) then Unexpired(was[..p], now) + [was[p]] else Unexpired(was[..p], now)
  {
    assert was[..p + 1][..p] == was[..p];
  }

  // A record that is kept moves from one side to the other.
  lemma LayoutKeeps(was: seq<Ap>, n: nat, p: nat, kept: seq<Ap>)
    requires |kept| <= p < n <= |was|
    ensures Layout(was, n, p + 1, kept + [was[p]]) == Layout(was, n, p, kept)
    ensures |kept| + (n - p) <= |Layout(was, n, p, kept)|
    ensures Layout(was, n, p, kept)[|kept|] == was[p]
  {
    assert was[p..n] == [was[p]] + was[p + 1..n];
  }

  // One that is not kept is taken out, with the last tracked one left behind once more.
  lemma LayoutDrops(was: seq<Ap>, n: nat, p: nat, kept: seq<Ap>)
    requires |kept| <= p < n <= |was|
    ensures |kept| + (n - p) <= |Layout(was, n, p, kept)|
    ensures Layout(was, n, p + 1, kept) == WithoutSlot(Layout(was, n, p, kept), |kept|, |kept| + (n - p))
  {
    var x, rest, copies := was[p], was[p + 1..n], Copies(was[n - 1], p - |kept|);
    assert was[p..n] == [x] + rest;
    TakeOut(kept, x, rest, copies, was[n..]);
    OneMoreCopy(was[n - 1], p - |kept|);
  }

  lemma LayoutTurns(was: seq<Ap>, n: nat, p: nat, kept: seq<Ap>, now: int)
    requires |kept| <= p < n <= |was|
    ensures TurnsTo(Turn(Layout(was, n, p, kept), |kept|),
                    if Fresh(was[p], now) then Turn(Layout(was, n, p + 1, kept + [was[p]]), |kept| + 1)
                    else Turn(Layout(was, n, p + 1, kept), |kept|),
                    n - p, now)
  {
    LayoutKeeps(was, n, p, kept);
    LayoutDrops(was, n, p, kept);
  }

  lemma TakeOut(kept: seq<Ap>, x: Ap, rest: seq<Ap>, copies: seq<Ap>, unused: seq<Ap>)
    ensures WithoutSlot(kept + ([x] + rest) + copies + unused, |kept|, |kept| + 1 + |rest|)
            == kept + rest + ([([x] + rest)[|rest|]] + copies) + unused
  {
    var m := kept + ([x] + rest) + copies + unused;
    var i, count := |kept|, |kept| + 1 + |rest|;
    assert m[..i] == kept;
    assert m[i + 1..count] == rest;
    assert m[count - 1..] == [([x] + rest)[|rest|]] + copies + unused;
  }

  lemma ShiftedSlots(was: seq<Ap>, aps: seq<Ap>, i: nat, count: nat)
    requires i < count <= |was| == |aps|
    requires forall k | 0 <= k < |aps| && !(i <= k < count - 1) :: aps[k] == was[k]
    requires forall k | i <= k < count - 1 :: aps[k] == was[k + 1]
    ensures aps == WithoutSlot(was, i, count)
  {
  }

  lemma OneMoreCopy(ap: Ap, n: nat)
    ensures Copies(ap, n + 1) == [ap] + Copies(ap, n)
  {
  }
}
