// Management frame bodies: fixed parameters, then elements of an id, a length and that many
// bytes (section 9.4.2.1 of IEEE Std 802.11-2020), and what ie_iter makes of such a body.
module InfoElements {
  import opened Bytes

  const SSID: Byte := 0

  datatype Element = Element(id: Byte, body: seq<Byte>)

  // The bytes that follow the copied ones in memory; nothing is known about them.
  type Beyond = nat -> Byte

  // The length of the fixed parameters of each management subtype.
  function FixedParams(subtype: Byte): Byte {
    match subtype
    case 8 | 6 | 5 => 12
    case 13 | 14 | 10 | 12 => 2
    case 9 | 4 => 0
    case 0 => 4
    case 11 | 1 | 2 | 3 => 6
    case _ => 0
  }

  // ---------- The format ----------

  ghost predicate Fits(es: seq<Element>) {
    forall e | e in es :: |e.body| < 0x100
  }

  function EncodeOne(e: Element): seq<Byte>
    requires |e.body| < 0x100
  {
    [e.id, |e.body|] + e.body
  }

  function Encode(es: seq<Element>): (r: seq<Byte>)
    requires Fits(es)
    ensures es != [] ==> |r| >= 2
  {
    if es == [] then [] else EncodeOne(es[0]) + Encode(es[1..])
  }

  // ---------- What the iterator reads ----------

  function ReadAt(ies: seq<Byte>, beyond: Beyond, i: nat): Byte {
    if i < |ies| then ies[i] else beyond(i)
  }

  function Read(ies: seq<Byte>, beyond: Beyond, at: nat, n: nat): (r: seq<Byte>)
    ensures |r| == n
    ensures forall i | 0 <= i < n :: r[i] == ReadAt(ies, beyond, at + i)
  {
    seq<Byte>(n, i requires 0 <= i < n => ReadAt(ies, beyond, at + i))
  }

  function ElementAt(ies: seq<Byte>, beyond: Beyond, at: nat): (e: Element)
    ensures |e.body| < 0x100
  {
    Element(ReadAt(ies, beyond, at), Read(ies, beyond, at + 2, ReadAt(ies, beyond, at + 1)))
  }

  // The elements from offset `at` on: only the offset of a header is checked.
  function ElementsFrom(ies: seq<Byte>, beyond: Beyond, at: nat): (es: seq<Element>)
    ensures Fits(es)
    decreases |ies| - at
  {
    if at >= |ies| then []
    else
      var e := ElementAt(ies, beyond, at);
      [e] + ElementsFrom(ies, beyond, at + 2 + |e.body|)
  }

  // The first call gives up on two bytes or fewer.
  function Decode(ies: seq<Byte>, beyond: Beyond): (es: seq<Element>)
    ensures Fits(es)
  {
    if |ies| <= 2 then [] else ElementsFrom(ies, beyond, 0)
  }

  // The bytes that ie_iter copies out of a body whose length is narrowed to eight bits.
  function ElementBytes(body: seq<Byte>, subtype: Byte): seq<Byte> {
    var n := |body| % 0x100;
    if n <= FixedParams(subtype) then [] else body[FixedParams(subtype)..n]
  }

  function DecodeBody(body: seq<Byte>, subtype: Byte, beyond: Beyond): (es: seq<Element>)
    ensures Fits(es)
  {
    Decode(ElementBytes(body, subtype), beyond)
  }

  // ---------- Round trip ----------

  lemma StartsWith(ies: seq<Byte>, at: nat, head: seq<Byte>, rest: seq<Byte>)
    requires at <= |ies| && ies[at..] == head + rest
    ensures at + |head| <= |ies| && ies[at + |head|..] == rest
    ensures forall i | 0 <= i < |head| :: ies[at + i] == head[i]
  {
    assert ies[at..][|head|..] == rest;
    forall i | 0 <= i < |head|
      ensures ies[at + i] == head[i]
    {
      assert ies[at + i] == ies[at..][i];
    }
  }

  lemma ElementReadBack(ies: seq<Byte>, beyond: Beyond, at: nat, e: Element)
    requires |e.body| < 0x100 && at + 2 + |e.body| <= |ies|
    requires forall i | 0 <= i < 2 + |e.body| :: ies[at + i] == EncodeOne(e)[i]
    ensures ElementAt(ies, beyond, at) == e
  {
    var bytes := EncodeOne(e);
    assert ies[at + 0] == bytes[0] && ies[at + 1] == bytes[1];
    forall i | 0 <= i < |e.body|
      ensures ies[at + 2 + i] == e.body[i]
    {
      assert ies[at + (2 + i)] == bytes[2 + i];
    }
  }

  // Where the elements from `at` on fill the buffer, they are read back, whatever lies beyond.
  lemma {:induction false} ElementsReadBack(ies: seq<Byte>, beyond: Beyond, at: nat, es: seq<Element>)
    requires Fits(es) && at <= |ies| && ies[at..] == Encode(es)
    ensures ElementsFrom(ies, beyond, at) == es
    decreases |ies| - at
  {
    if es != [] {
      var e := es[0];
      var rest := Encode(es[1..]);
      var next := at + 2 + |e.body|;
      StartsWith(ies, at, EncodeOne(e), rest);
      ElementReadBack(ies, beyond, at, e);
      ElementsReadBack(ies, beyond, next, es[1..]);
    }
  }

  // The decoder returns exactly the encoded list, except for a lone element with no bytes,
  // which it drops.
  lemma RoundTrip(es: seq<Element>, beyond: Beyond)
    requires Fits(es)
    ensures Decode(Encode(es), beyond) == es <==> |Encode(es)| != 2
    ensures |Encode(es)| == 2 <==> |es| == 1 && es[0].body == []
  {
    if |Encode(es)| > 2 {
      assert Encode(es)[0..] == Encode(es);
      ElementsReadBack(Encode(es), beyond, 0, es);
    }
    if |es| > 1 {
      assert es[1..] != [];
    }
  }

  lemma BytesOfBody(fixed: seq<Byte>, ies: seq<Byte>, subtype: Byte)
    requires |fixed| == FixedParams(subtype) && |fixed + ies| < 0x100
    ensures ElementBytes(fixed + ies, subtype) == ies
  {
    var n := |fixed + ies|;
    assert n % 0x100 == n;
    assert (fixed + ies)[|fixed|..n] == ies;
  }

  // The same through a frame body of at most 255 bytes.
  lemma ShortBodyRoundTrip(fixed: seq<Byte>, es: seq<Element>, subtype: Byte, beyond: Beyond)
    requires Fits(es) && |fixed| == FixedParams(subtype)
    requires |fixed + Encode(es)| < 0x100
    ensures DecodeBody(fixed + Encode(es), subtype, beyond) == es <==> |Encode(es)| != 2
  {
    BytesOfBody(fixed, Encode(es), subtype);
    RoundTrip(es, beyond);
  }

  // ---------- Arbitrary bytes ----------

  // At most one element for every two bytes, rounded up.
  lemma {:induction false} FewElements(ies: seq<Byte>, beyond: Beyond, at: nat)
    requires at <= |ies|
    ensures |ElementsFrom(ies, beyond, at)| <= (|ies| - at + 1) / 2
    decreases |ies| - at
  {
    if at < |ies| {
      var next := at + 2 + |ElementAt(ies, beyond, at).body|;
      if next <= |ies| {
        FewElements(ies, beyond, next);
      }
    }
  }

  lemma DecodeIsShort(ies: seq<Byte>, beyond: Beyond)
    ensures |Decode(ies, beyond)| <= (|ies| + 1) / 2
  {
    FewElements(ies, beyond, 0);
  }

  // Nothing between the headers is skipped: encoding again gives back every byte, and then the
  // bytes that were read from beyond the end.
  lemma {:induction false} ElementsCover(ies: seq<Byte>, beyond: Beyond, at: nat)
    requires at <= |ies|
    ensures ies[at..] <= Encode(ElementsFrom(ies, beyond, at))
    decreases |ies| - at
  {
    if at < |ies| {
      var e := ElementAt(ies, beyond, at);
      var next := at + 2 + |e.body|;
      var es := ElementsFrom(ies, beyond, at);
      var rest := ElementsFrom(ies, beyond, next);
      assert es[1..] == rest;
      var head := EncodeOne(e);
      if next <= |ies| {
        ElementsCover(ies, beyond, next);
        ElementRead(ies, beyond, at);
        assert Encode(es) == head + Encode(rest);
        PrefixAfter(head, ies[next..], Encode(rest));
      } else {
        assert ies[at..] <= head;
      }
    }
  }

  lemma PrefixAfter(h: seq<Byte>, s: seq<Byte>, t: seq<Byte>)
    requires s <= t
    ensures h + s <= h + t
  {
    assert (h + t)[..|h + s|] == h + t[..|s|];
  }

  ghost predicate WellFormed(ies: seq<Byte>) {
    exists es :: Fits(es) && Encode(es) == ies
  }

  // An element that runs over the end depends on what is there.
  lemma BeyondShows(ies: seq<Byte>, beyond: Beyond, other: Beyond, at: nat)
    requires at < |ies| < at + 2 + |ElementAt(ies, beyond, at).body|
    requires forall i :: beyond(i) != other(i)
    ensures ElementAt(ies, beyond, at) != ElementAt(ies, other, at)
  {
    var e, e' := ElementAt(ies, beyond, at), ElementAt(ies, other, at);
    if at + 1 < |ies| {
      var i := |ies| - at - 2;
      assert e.body[i] == beyond(|ies|) && e'.body[i] == other(|ies|);
    } else {
      assert |e.body| == beyond(at + 1) && |e'.body| == other(at + 1);
    }
  }

  // Changing everything beyond the end changes what is decoded, unless the decoded elements end
  // where the buffer ends.
  lemma {:induction false} BeyondMatters(ies: seq<Byte>, beyond: Beyond, other: Beyond, at: nat)
    requires at <= |ies|
    requires forall i :: beyond(i) != other(i)
    requires ElementsFrom(ies, beyond, at) == ElementsFrom(ies, other, at)
    ensures Encode(ElementsFrom(ies, beyond, at)) == ies[at..]
    decreases |ies| - at
  {
    if at < |ies| {
      var e, e' := ElementAt(ies, beyond, at), ElementAt(ies, other, at);
      var es, es' := ElementsFrom(ies, beyond, at), ElementsFrom(ies, other, at);
      assert e == es[0] == es'[0] == e';
      var next := at + 2 + |e.body|;
      if next > |ies| {
        BeyondShows(ies, beyond, other, at);
        assert false;
      }
      assert es[1..] == ElementsFrom(ies, beyond, next);
      assert es'[1..] == ElementsFrom(ies, other, next);
      BeyondMatters(ies, beyond, other, next);
      ElementRead(ies, beyond, at);
    }
  }

  lemma ElementRead(ies: seq<Byte>, beyond: Beyond, at: nat)
    requires at + 2 + |ElementAt(ies, beyond, at).body| <= |ies|
    ensures ies[at..] == EncodeOne(ElementAt(ies, beyond, at))
                         + ies[at + 2 + |ElementAt(ies, beyond, at).body|..]
  {
  }

  // What is decoded is independent of what lies beyond the end exactly on a well-formed list.
  // (Two bytes or fewer are never read.)
  lemma BeyondIsIrrelevant(ies: seq<Byte>)
    requires |ies| > 2
    ensures WellFormed(ies) <==> forall b: Beyond, c: Beyond :: Decode(ies, b) == Decode(ies, c)
  {
    if WellFormed(ies) {
      var es :| Fits(es) && Encode(es) == ies;
      forall b: Beyond, c: Beyond
        ensures Decode(ies, b) == Decode(ies, c)
      {
        RoundTrip(es, b);
        RoundTrip(es, c);
      }
    }
    if forall b: Beyond, c: Beyond :: Decode(ies, b) == Decode(ies, c) {
      var zeros: Beyond, ones: Beyond := (i: nat) => 0, (i: nat) => 1;
      assert Decode(ies, zeros) == Decode(ies, ones);
      BeyondMatters(ies, zeros, ones, 0);
      assert ies[0..] == ies;
    }
  }

  // ---------- Round trip, bodies of any length ----------

  // A list that the decoder gives back for two unlike continuations is all there is in the bytes.
  lemma DecodedIsAll(ies: seq<Byte>, es: seq<Element>, beyond: Beyond, other: Beyond)
    requires forall i :: beyond(i) != other(i)
    requires Decode(ies, beyond) == es == Decode(ies, other)
    ensures Fits(es) && |Encode(es)| <= |ies|
  {
    if |ies| > 2 {
      BeyondMatters(ies, beyond, other, 0);
    }
  }

  // Whatever lies beyond it, an encoded list comes back from a frame body exactly when the body
  // has at most 255 bytes and the list is not a lone element with no bytes.
  lemma BodyRoundTrip(fixed: seq<Byte>, es: seq<Element>, subtype: Byte)
    requires Fits(es) && |fixed| == FixedParams(subtype)
    ensures (forall beyond: Beyond :: DecodeBody(fixed + Encode(es), subtype, beyond) == es)
            <==> |fixed + Encode(es)| < 0x100 && |Encode(es)| != 2
  {
    var body := fixed + Encode(es);
    if |body| < 0x100 {
      forall beyond: Beyond
        ensures DecodeBody(body, subtype, beyond) == es <==> |Encode(es)| != 2
      {
        ShortBodyRoundTrip(fixed, es, subtype, beyond);
      }
      var some: Beyond := (i: nat) => 0;
      assert DecodeBody(body, subtype, some) == es <==> |Encode(es)| != 2;
    } else if forall beyond: Beyond :: DecodeBody(body, subtype, beyond) == es {
      var zeros: Beyond, ones: Beyond := (i: nat) => 0, (i: nat) => 1;
      assert DecodeBody(body, subtype, zeros) == es == DecodeBody(body, subtype, ones);
      DecodedIsAll(ElementBytes(body, subtype), es, zeros, ones);
    }
  }

  // ---------- What the iterator reads ----------

  function Max(a: nat, b: nat): nat {
    if a < b then b else a
  }

  // How far iter_packet_ies reads when the elements stand from offset `at` on: two bytes of every
  // header, and the bytes of SSID elements.
  function ReadsOf(es: seq<Element>, at: nat): nat {
    if es == [] then 0
    else
      var e := es[0];
      Max(at + 2 + (if e.id == SSID then |e.body| else 0), ReadsOf(es[1..], at + 2 + |e.body|))
  }

  function ReadsEnd(ies: seq<Byte>, beyond: Beyond): nat {
    ReadsOf(Decode(ies, beyond), 0)
  }

  // A condition on the bytes alone: no header straddles the end, and no SSID element runs over it.
  // Any other last element may.
  predicate HeadersFit(ies: seq<Byte>, at: nat)
    decreases |ies| - at
  {
    at < |ies| ==>
      && at + 1 < |ies|
      && (ies[at] == SSID ==> at + 2 + ies[at + 1] <= |ies|)
      && HeadersFit(ies, at + 2 + ies[at + 1])
  }

  lemma {:induction false} ReadsFit(ies: seq<Byte>, beyond: Beyond, at: nat)
    ensures ReadsOf(ElementsFrom(ies, beyond, at), at) <= |ies| <==> HeadersFit(ies, at)
    decreases |ies| - at
  {
    if at < |ies| {
      var es := ElementsFrom(ies, beyond, at);
      assert es[1..] == ElementsFrom(ies, beyond, at + 2 + |es[0].body|);
    }
    if at + 1 < |ies| {
      ReadsFit(ies, beyond, at + 2 + ies[at + 1]);
    }
  }

  // Every read is inside the bytes exactly under that condition, whatever lies beyond them.
  lemma ReadsStayInside(ies: seq<Byte>, beyond: Beyond)
    ensures ReadsEnd(ies, beyond) <= |ies| <==> |ies| <= 2 || HeadersFit(ies, 0)
  {
    ReadsFit(ies, beyond, 0);
  }

  lemma {:induction false} EncodedHeadersFit(ies: seq<Byte>, at: nat, es: seq<Element>)
    requires Fits(es) && at <= |ies| && ies[at..] == Encode(es)
    ensures HeadersFit(ies, at)
    decreases |ies| - at
  {
    if es != [] {
      var e := es[0];
      StartsWith(ies, at, EncodeOne(e), Encode(es[1..]));
      assert ies[at + 1] == EncodeOne(e)[1];
      EncodedHeadersFit(ies, at + 2 + |e.body|, es[1..]);
    }
  }

  lemma FirstBodyFits(es: seq<Element>)
    requires Fits(es)
    ensures Encode(es) != [] ==> |Encode(es)| - 2 >= Encode(es)[1]
  {
    if es != [] {
      assert Encode(es)[1] == |es[0].body|;
    }
  }

  // A well-formed list is read inside its bytes; so are lists that are cut short in the body of an
  // element of another kind.
  lemma WellFormedFits(ies: seq<Byte>, kind: Byte)
    ensures WellFormed(ies) ==> HeadersFit(ies, 0)
    ensures kind != SSID ==> HeadersFit([kind, 200, 5], 0) && !WellFormed([kind, 200, 5])
  {
    if WellFormed(ies) {
      var es :| Fits(es) && Encode(es) == ies;
      assert ies[0..] == Encode(es);
      EncodedHeadersFit(ies, 0, es);
    }
    forall es | Fits(es)
      ensures Encode(es) != [kind, 200, 5]
    {
      FirstBodyFits(es);
    }
  }

  // Three bytes from which seven are read, by an SSID element that is cut short, and three from
  // which four are read, by a header that is.
  lemma ReadsThatPassTheEnd(beyond: Beyond)
    ensures ReadsEnd([SSID, 5, 65], beyond) == 7
    ensures ReadsEnd([1, 0, 9], beyond) == 4
  {
    var ssid, other: seq<Byte> := [SSID, 5, 65], [1, 0, 9];
    var e, last := ElementAt(ssid, beyond, 0), ElementAt(other, beyond, 2);
    assert e.id == SSID && |e.body| == 5;
    assert ElementsFrom(ssid, beyond, 7) == [];
    assert Decode(ssid, beyond) == [e];
    assert ReadsOf([e], 0) == 7;
    assert ElementsFrom(other, beyond, 4 + |last.body|) == [];
    assert Decode(other, beyond)[1..] == [last] && last.id == 9;
    assert ReadsOf([last], 2) == 4;
  }
}
