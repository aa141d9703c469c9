// The ring of the last packets: what handle_frame_info writes and draw_packet_win reads.
module PacketRing {
  import opened InfoElements
  import opened ApTypes
  import opened TrackerModel
  import opened TrackerRuns

  datatype Row = Blank | Shows(packet: Packet)

  function RowOf(packet: Packet): Row {
    if packet == ZERO_PACKET then Blank else Shows(packet)
  }

  // The slot that a row of the window reads.
  function RowIndex(index: nat, row: nat): (at: nat)
    requires index < PACKET_BUF_SIZE && row < PACKET_BUF_SIZE
    ensures at < PACKET_BUF_SIZE
  {
    if index > row then index - 1 - row else index - 1 - row + PACKET_BUF_SIZE
  }

  function Rows(ring: seq<Packet>, index: nat): seq<Row>
    requires index < PACKET_BUF_SIZE == |ring|
  {
    seq(PACKET_BUF_SIZE, r requires 0 <= r < PACKET_BUF_SIZE => RowOf(ring[RowIndex(index, r)]))
  }

  // The window reads every slot once.
  lemma RowsReadEverySlotOnce(index: nat, at: nat)
    requires index < PACKET_BUF_SIZE && at < PACKET_BUF_SIZE
    ensures exists row: nat :: row < PACKET_BUF_SIZE && RowIndex(index, row) == at
    ensures forall r: nat, q: nat | r < PACKET_BUF_SIZE && q < PACKET_BUF_SIZE ::
              RowIndex(index, r) == RowIndex(index, q) ==> r == q
  {
    var row := if index > at then index - 1 - at else index - 1 - at + PACKET_BUF_SIZE;
    assert RowIndex(index, row) == at;
  }

  // The packet of a frame as it ends up in the ring.
  function PacketOf(f: Frame): Packet {
    Packet(f.hdr, f.rt,
           if IsAction(f.hdr) then Action(ReadAt(f.body, f.beyond, 0), ReadAt(f.body, f.beyond, 1))
           else Action(0, 0))
  }

  lemma FrameInRing(t: Tracker, f: Frame, now: int, colors: nat)
    requires Shape(t) && Ready(t, f) && colors > 0
    ensures FrameStep(t, f, now, colors).ring == t.ring[t.index := PacketOf(f)]
    ensures FrameStep(t, f, now, colors).index ==
            if Kept(f.hdr) then (t.index + 1) % PACKET_BUF_SIZE else t.index
  {
    CountKeepsShape(t, f, now);
  }

  // The same with the frame types written out: management frames are of kind 0, and of these action
  // frames are 13 and 14, beacons 8 and probe requests 4.
  lemma FrameInRingByNumber(t: Tracker, f: Frame, now: int, colors: nat, u: Tracker)
    requires Shape(t) && Ready(t, f) && colors > 0 && u == FrameStep(t, f, now, colors)
    ensures |u.ring| == |t.ring| == 20 && forall i | 0 <= i < 20 && i != t.index :: u.ring[i] == t.ring[i]
    ensures u.ring[t.index].hdr == f.hdr && u.ring[t.index].rt == f.rt
    ensures var action := u.ring[t.index].action;
      if f.hdr.kind == 0 && (f.hdr.subtype == 13 || f.hdr.subtype == 14)
      then action.cat == ReadAt(f.body, f.beyond, 0) && action.code == ReadAt(f.body, f.beyond, 1)
      else action.cat == 0 && action.code == 0
    ensures u.index == if f.hdr.kind == 0 && (f.hdr.subtype == 8 || f.hdr.subtype == 4) then t.index
                       else if t.index == 19 then 0 else t.index + 1
  {
    FrameInRing(t, f, now, colors);
  }

  // ---------- The frames of a run ----------

  function KeptOf(e: Event): seq<Packet> {
    if e.Arrival? && Kept(e.frame.hdr) then [PacketOf(e.frame)] else []
  }

  // The packets of a run that are neither beacons nor probe requests, oldest first.
  function KeptPackets(es: seq<Event>): seq<Packet> {
    if es == [] then [] else KeptPackets(es[..|es| - 1]) + KeptOf(es[|es| - 1])
  }

  // The packet that was kept k packets before the last, or the zero packet of the start.
  function Recent(kept: seq<Packet>, k: nat): Packet {
    if k < |kept| then kept[|kept| - 1 - k] else ZERO_PACKET
  }

  // What the slot at the index holds: the last frame if it was skipped, else the oldest packet.
  function Scratch(es: seq<Event>): Packet {
    if es == [] then ZERO_PACKET
    else ScratchAfter(es[|es| - 1], KeptPackets(es), Scratch(es[..|es| - 1]))
  }

  function ScratchAfter(e: Event, kept: seq<Packet>, scratch: Packet): Packet {
    if !e.Arrival? then scratch
    else if Kept(e.frame.hdr) then Recent(kept, PACKET_BUF_SIZE - 1)
    else PacketOf(e.frame)
  }

  ghost predicate Shown(ring: seq<Packet>, index: nat, kept: seq<Packet>, scratch: Packet) {
    && index < PACKET_BUF_SIZE == |ring|
    && (forall r: nat | r < PACKET_BUF_SIZE - 1 :: ring[RowIndex(index, r)] == Recent(kept, r))
    && ring[RowIndex(index, PACKET_BUF_SIZE - 1)] == scratch
  }

  lemma SkippedShown(ring: seq<Packet>, index: nat, kept: seq<Packet>, scratch: Packet, p: Packet)
    requires Shown(ring, index, kept, scratch)
    ensures Shown(ring[index := p], index, kept, p)
  {
    assert RowIndex(index, PACKET_BUF_SIZE - 1) == index;
    assert forall r: nat | r < PACKET_BUF_SIZE - 1 :: RowIndex(index, r) != index;
  }

  lemma KeptShown(ring: seq<Packet>, index: nat, kept: seq<Packet>, scratch: Packet, p: Packet)
    requires Shown(ring, index, kept, scratch)
    ensures var kept' := kept + [p];
            Shown(ring[index := p], (index + 1) % PACKET_BUF_SIZE, kept', Recent(kept', PACKET_BUF_SIZE - 1))
  {
    var next := (index + 1) % PACKET_BUF_SIZE;
    forall r: nat | r < PACKET_BUF_SIZE
      ensures ring[index := p][RowIndex(next, r)] == Recent(kept + [p], r)
    {
      if r == 0 {
        assert RowIndex(next, 0) == index;
      } else {
        assert RowIndex(next, r) == RowIndex(index, r - 1) != index;
      }
    }
  }

  lemma StepShown(t: Tracker, e: Event, colors: nat, kept: seq<Packet>, scratch: Packet)
    requires Inv(t) && Legal(t, e) && colors > 0
    requires Shown(t.ring, t.index, kept, scratch)
    ensures var u, kept' := Step(t, e, colors), kept + KeptOf(e);
            Shown(u.ring, u.index, kept', ScratchAfter(e, kept', scratch))
  {
    if e.Arrival? {
      FrameInRing(t, e.frame, e.now, colors);
      if Kept(e.frame.hdr) {
        KeptShown(t.ring, t.index, kept, scratch, PacketOf(e.frame));
      } else {
        SkippedShown(t.ring, t.index, kept, scratch, PacketOf(e.frame));
        assert kept + [] == kept;
      }
    } else {
      assert kept + [] == kept;
    }
  }

  lemma StartShown()
    ensures Shown(Start().ring, 0, [], ZERO_PACKET)
  {
    assert forall i | 0 <= i < PACKET_BUF_SIZE :: Start().ring[i] == ZERO_PACKET;
  }

  // After any run, rows 0 to 18 read the latest packets that were kept, newest first, and blanks
  // while there are fewer; only the last row can read a frame that was not kept.
  lemma {:induction false} RowsShowLatest(es: seq<Event>, colors: nat)
    requires colors > 0 && LegalRun(es, colors)
    ensures Shown(Run(es, colors).ring, Run(es, colors).index, KeptPackets(es), Scratch(es))
  {
    if es == [] {
      StartShown();
    } else {
      var n := |es| - 1;
      RowsShowLatest(es[..n], colors);
      StepShown(Run(es[..n], colors), es[n], colors, KeptPackets(es[..n]), Scratch(es[..n]));
    }
  }

  // What the window shows after any run: in row r below 19 the r-th latest kept packet, in row 19
  // the scratch slot, and nothing where there is no such packet or all of it is zero.
  lemma WindowShowsLatest(es: seq<Event>, colors: nat, rows: seq<Row>)
    requires colors > 0 && LegalRun(es, colors)
    requires rows == Rows(Run(es, colors).ring, Run(es, colors).index)
    ensures |rows| == 20
    ensures var kept := KeptPackets(es);
      forall r | 0 <= r < 19 ::
        rows[r] == if r < |kept| && kept[|kept| - 1 - r] != ZERO_PACKET then Shows(kept[|kept| - 1 - r]) else Blank
    ensures rows[19] == if Scratch(es) != ZERO_PACKET then Shows(Scratch(es)) else Blank
  {
    RowsShowLatest(es, colors);
    var t := Run(es, colors);
    forall r: nat | r < 19
      ensures rows[r] == RowOf(Recent(KeptPackets(es), r))
    {
      assert t.ring[RowIndex(t.index, r)] == Recent(KeptPackets(es), r);
    }
  }
}
