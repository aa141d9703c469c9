// iter_packet_ies: the name of an access point from the SSID elements of a frame body.
module SsidScan {
  import opened Bytes
  import opened ApTypes
  import opened InfoElements
  import opened IeIterator

  // The name is terminated inside its buffer.
  ghost predicate SsidOk(ap: Ap) {
    |ap.ssid| == SSID_BUF && ap.ssidLen < SSID_BUF && ap.ssid[ap.ssidLen] == 0
  }

  ghost function Name(ap: Ap): seq<Byte>
    requires SsidOk(ap)
  {
    ap.ssid[..ap.ssidLen]
  }

  // SSID elements have at most 32 bytes (section 9.4.2.2 of IEEE Std 802.11-2020).
  ghost predicate SsidsFit(es: seq<Element>) {
    forall e | e in es && e.id == SSID :: |e.body| < SSID_BUF
  }

  // The effect of one element on the record.
  ghost function SetName(ap: Ap, e: Element): (r: Ap)
    requires SsidOk(ap) && (e.id == SSID ==> |e.body| < SSID_BUF)
    ensures SsidOk(r)
    ensures r == ap.(ssid := r.ssid, ssidLen := r.ssidLen)
  {
    var n := |e.body|;
    if e.id == SSID && ap.ssid[..n] != e.body && Printable(e.body)
    then ap.(ssid := e.body + [0] + ap.ssid[n + 1..], ssidLen := n)
    else ap
  }

  ghost function SetNames(ap: Ap, es: seq<Element>): (r: Ap)
    requires SsidOk(ap) && SsidsFit(es)
    ensures SsidOk(r)
    ensures r == ap.(ssid := r.ssid, ssidLen := r.ssidLen)
    decreases |es|
  {
    if es == [] then ap else SetNames(SetName(ap, es[0]), es[1..])
  }

  // The SSID branch of the loop, for an element with these bytes.
  method TakeName(aps: array<Ap>, k: nat, cur: seq<Byte>)
    requires k < aps.Length && SsidOk(aps[k]) && |cur| < SSID_BUF
    modifies aps
    ensures aps[..] == old(aps[..])[k := SetName(old(aps[k]), Element(SSID, cur))]
  {
    var n := |cur|;
    if aps[k].ssid[..n] != cur {
      var printable := IsPrintable(cur);
      if printable {
        aps[k] := aps[k].(ssid := cur + aps[k].ssid[n..]);
        aps[k] := aps[k].(ssid := aps[k].ssid[n := 0]);
        aps[k] := aps[k].(ssidLen := n);
        assert aps[k].ssid == cur + [0] + old(aps[k].ssid)[n + 1..];
      }
    }
  }

  // The loop body.
  method TakeElement(aps: array<Ap>, k: nat, iter: Iterator, ghost e: Element)
    requires k < aps.Length && SsidOk(aps[k]) && iter.cur.At? && e == iter.Current()
    requires e.id == SSID ==> |e.body| < SSID_BUF
    modifies aps, iter`high
    ensures aps[..] == old(aps[..])[k := SetName(old(aps[k]), e)]
    ensures iter.high == Max(old(iter.high), if e.id == SSID then iter.NextOffset() else 0)
    ensures iter.Pending() == old(iter.Pending()) && iter.NextOffset() == old(iter.NextOffset())
  {
    if iter.curId == SSID {
      var cur := iter.ReadCurrent();
      TakeName(aps, k, cur);
    }
  }

  // The loop: the record so far, the elements to come with the current one first, and where its
  // header stands.
  datatype Scan = Scan(ap: Ap, pending: seq<Element>, at: nat)

  ghost predicate Stands(iter: Iterator?, done: bool, s: Scan, readEnd: nat)
    reads iter
  {
    && SsidOk(s.ap) && SsidsFit(s.pending)
    && if done then s.pending == [] && ReadSoFar(iter) == readEnd
       else iter != null && iter.cur.At? && s.pending == [iter.Current()] + Upcoming(iter)
            && iter.cur.offset == s.at + 2 <= iter.high && Max(iter.high, ReadsOf(s.pending, s.at)) == readEnd
  }

  // The first element's reads, then the others'.
  lemma ReadsStep(high: nat, es: seq<Element>, at: nat)
    requires es != [] && at + 2 <= high
    ensures var end := at + 2 + |es[0].body|;
            Max(high, ReadsOf(es, at)) == Max(Max(high, if es[0].id == SSID then end else 0), ReadsOf(es[1..], end))
  {
  }

  lemma ScanStep(s: Scan, e: Element, rest: seq<Element>, high: nat) returns (s': Scan)
    requires SsidOk(s.ap) && SsidsFit(s.pending) && s.pending == [e] + rest && s.at + 2 <= high
    ensures s' == Scan(SetName(s.ap, e), rest, s.at + 2 + |e.body|)
    ensures SsidOk(s'.ap) && SsidsFit(rest) && (e.id == SSID ==> |e.body| < SSID_BUF)
    ensures SetNames(s'.ap, rest) == SetNames(s.ap, s.pending)
    ensures Max(high, ReadsOf(s.pending, s.at))
            == Max(Max(high, if e.id == SSID then s'.at else 0), ReadsOf(rest, s'.at))
  {
    assert s.pending[0] == e && s.pending[1..] == rest;
    ReadsStep(high, s.pending, s.at);
    s' := Scan(SetName(s.ap, e), rest, s.at + 2 + |e.body|);
  }

  method ScanElement(aps: array<Ap>, k: nat, iter: Iterator, ghost s: Scan, ghost readEnd: nat)
    returns (done: bool, ghost s': Scan)
    requires k < aps.Length && aps[k] == s.ap && Stands(iter, false, s, readEnd)
    modifies aps, iter
    ensures Stands(iter, done, s', readEnd) && aps[k] == s'.ap
    ensures forall i | 0 <= i < aps.Length && i != k :: aps[i] == old(aps[i])
    ensures SetNames(s'.ap, s'.pending) == SetNames(s.ap, s.pending) && |s'.pending| < |s.pending|
  {
    ghost var e := iter.Current();
    s' := ScanStep(s, e, iter.Pending(), iter.high);
    TakeElement(aps, k, iter, e);
    done := NextElement(iter);
  }

  method StartScan(body: seq<Byte>, subtype: Byte, beyond: Beyond, ghost ap: Ap)
    returns (iter: Iterator?, done: bool, ghost s: Scan)
    requires SsidOk(ap) && SsidsFit(DecodeBody(body, subtype, beyond))
    ensures iter != null ==> fresh(iter)
    ensures s == Scan(ap, DecodeBody(body, subtype, beyond), 0)
    ensures Stands(iter, done, s, ReadsEnd(ElementBytes(body, subtype), beyond))
  {
    s := Scan(ap, DecodeBody(body, subtype, beyond), 0);
    iter := NewIterator(body, subtype, beyond);
    done := NextElement(iter);
  }

  // The result is the end of what has been read of the bytes after the fixed parameters.
  method IterPacketIes(aps: array<Ap>, k: nat, body: seq<Byte>, subtype: Byte, beyond: Beyond) returns (ghost readEnd: nat)
    requires k < aps.Length && SsidOk(aps[k])
    requires SsidsFit(DecodeBody(body, subtype, beyond))
    modifies aps
    ensures aps[..] == old(aps[..])[k := SetNames(old(aps[k]), DecodeBody(body, subtype, beyond))]
    ensures readEnd == ReadsEnd(ElementBytes(body, subtype), beyond)
  {
    ghost var before, end := aps[..], ReadsEnd(ElementBytes(body, subtype), beyond);
    ghost var named := SetNames(aps[k], DecodeBody(body, subtype, beyond));
    var iter, done;
    ghost var s;
    iter, done, s := StartScan(body, subtype, beyond, aps[k]);
    while !done
      invariant iter != null ==> fresh(iter)
      invariant Stands(iter, done, s, end) && aps[k] == s.ap
      invariant forall i | 0 <= i < aps.Length && i != k :: aps[i] == before[i]
      invariant SetNames(s.ap, s.pending) == named
      decreases |s.pending|
    {
      done, s := ScanElement(aps, k, iter, s, end);
    }
    readEnd := ReadSoFar(iter);
  }

  // ---------- The name alone ----------

  // A name gives way to printable bytes that are not the start of it.
  ghost function Rename(name: seq<Byte>, e: Element): seq<Byte> {
    if e.id == SSID && Printable(e.body) && !(e.body <= name) then e.body else name
  }

  ghost function RenameAll(name: seq<Byte>, es: seq<Element>): seq<Byte>
    decreases |es|
  {
    if es == [] then name else RenameAll(Rename(name, es[0]), es[1..])
  }

  // Comparing with the buffer is comparing with the name: the terminator differs from every
  // printable byte.
  lemma BufferComparesAsName(ap: Ap, s: seq<Byte>)
    requires SsidOk(ap) && |s| < SSID_BUF && Printable(s)
    ensures ap.ssid[..|s|] == s <==> s <= Name(ap)
  {
    if |s| > ap.ssidLen {
      assert s[ap.ssidLen] != 0 == ap.ssid[..|s|][ap.ssidLen];
    } else {
      assert Name(ap)[..|s|] == ap.ssid[..|s|];
    }
  }

  lemma SetNameRenames(ap: Ap, e: Element)
    requires SsidOk(ap) && (e.id == SSID ==> |e.body| < SSID_BUF)
    ensures Name(SetName(ap, e)) == Rename(Name(ap), e)
  {
    if e.id == SSID && Printable(e.body) {
      BufferComparesAsName(ap, e.body);
    }
  }

  // The same in numbers: element 0 gives its bytes as the name if all of them are from 32 to 126 and
  // the name does not start with them.
  lemma NameAfterElement(ap: Ap, e: Element)
    requires SsidOk(ap) && (e.id == 0 ==> |e.body| <= 32)
    ensures Name(SetName(ap, e)) ==
            if e.id == 0 && (forall b | b in e.body :: 32 <= b <= 126) && !(e.body <= Name(ap)) then e.body else Name(ap)
  {
    SetNameRenames(ap, e);
    assert forall i | 0 <= i < |e.body| :: e.body[i] in e.body;
  }

  // iter_packet_ies is the left fold of Rename over the decoded elements.
  lemma {:induction false} SetNamesRenames(ap: Ap, es: seq<Element>)
    requires SsidOk(ap) && SsidsFit(es)
    ensures Name(SetNames(ap, es)) == RenameAll(Name(ap), es)
    decreases |es|
  {
    if es != [] {
      SetNameRenames(ap, es[0]);
      SetNamesRenames(SetName(ap, es[0]), es[1..]);
    }
  }

  ghost predicate GoodName(name: seq<Byte>) {
    1 <= |name| <= 32 && Printable(name)
  }

  lemma {:induction false} NamesStayGood(name: seq<Byte>, es: seq<Element>)
    requires GoodName(name) && SsidsFit(es)
    ensures GoodName(RenameAll(name, es))
    decreases |es|
  {
    if es != [] {
      if es[0].body == [] {
        assert es[0].body <= name;
      }
      NamesStayGood(Rename(name, es[0]), es[1..]);
    }
  }
}
