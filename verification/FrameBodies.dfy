// The fixed parameters of each management frame, field by field, in front of its elements.
module FrameBodies {
  import opened Bytes
  import opened InfoElements

  // The elements es come back from the body, whatever lies beyond it.
  ghost predicate ComesBack(body: seq<Byte>, subtype: Byte, es: seq<Element>) {
    forall beyond: Beyond :: DecodeBody(body, subtype, beyond) == es
  }

  // Beacons and probe responses: timestamp, beacon interval and capabilities.
  lemma BeaconBody(timestamp: seq<Byte>, interval: seq<Byte>, capability: seq<Byte>, es: seq<Element>, subtype: Byte)
    requires Fits(es) && |timestamp| == 8 && |interval| == 2 && |capability| == 2
    requires subtype == 8 || subtype == 5
    ensures ComesBack(timestamp + interval + capability + Encode(es), subtype, es) <==>
            |Encode(es)| <= 243 && |Encode(es)| != 2
  {
    BodyRoundTrip(timestamp + interval + capability, es, subtype);
  }

  // Timing advertisements are read like beacons.
  lemma TimingBody(fixed: seq<Byte>, es: seq<Element>)
    requires Fits(es) && |fixed| == 12
    ensures ComesBack(fixed + Encode(es), 6, es) <==> |Encode(es)| <= 243 && |Encode(es)| != 2
  {
    BodyRoundTrip(fixed, es, 6);
  }

  // Action frames, acknowledged or not: category and code.
  lemma ActionBody(category: Byte, code: Byte, es: seq<Element>, subtype: Byte)
    requires Fits(es) && (subtype == 13 || subtype == 14)
    ensures ComesBack([category, code] + Encode(es), subtype, es) <==> |Encode(es)| <= 253 && |Encode(es)| != 2
  {
    BodyRoundTrip([category, code], es, subtype);
  }

  // Disassociation and deauthentication: a reason code.
  lemma ReasonBody(reason: seq<Byte>, es: seq<Element>, subtype: Byte)
    requires Fits(es) && |reason| == 2 && (subtype == 10 || subtype == 12)
    ensures ComesBack(reason + Encode(es), subtype, es) <==> |Encode(es)| <= 253 && |Encode(es)| != 2
  {
    BodyRoundTrip(reason, es, subtype);
  }

  // Probe requests, announcements of traffic, and subtypes that are not in the table: nothing.
  lemma BareBody(es: seq<Element>, subtype: Byte)
    requires Fits(es) && (subtype == 4 || subtype == 9 || subtype == 7 || subtype > 14)
    ensures ComesBack(Encode(es), subtype, es) <==> |Encode(es)| <= 255 && |Encode(es)| != 2
  {
    assert [] + Encode(es) == Encode(es);
    BodyRoundTrip([], es, subtype);
  }

  // Association requests: capabilities and listen interval.
  lemma AssociationRequestBody(capability: seq<Byte>, listen: seq<Byte>, es: seq<Element>)
    requires Fits(es) && |capability| == 2 && |listen| == 2
    ensures ComesBack(capability + listen + Encode(es), 0, es) <==> |Encode(es)| <= 251 && |Encode(es)| != 2
  {
    BodyRoundTrip(capability + listen, es, 0);
  }

  // Authentication, and the responses to association and reassociation: three fields of two bytes.
  // Reassociation requests are read the same way.
  lemma ThreeFieldBody(first: seq<Byte>, second: seq<Byte>, third: seq<Byte>, es: seq<Element>, subtype: Byte)
    requires Fits(es) && |first| == 2 && |second| == 2 && |third| == 2
    requires subtype == 11 || subtype == 1 || subtype == 2 || subtype == 3
    ensures ComesBack(first + second + third + Encode(es), subtype, es) <==> |Encode(es)| <= 249 && |Encode(es)| != 2
  {
    BodyRoundTrip(first + second + third, es, subtype);
  }

  // Of a body of 256 bytes or more only the remainder by 256 counts.
  lemma LongBody(body: seq<Byte>, subtype: Byte, beyond: Beyond)
    ensures DecodeBody(body, subtype, beyond) == DecodeBody(body[..|body| % 256], subtype, beyond)
  {
    var n := |body| % 256;
    assert |body[..n]| % 256 == n;
    if FixedParams(subtype) < n {
      assert body[..n][FixedParams(subtype)..n] == body[FixedParams(subtype)..n];
    }
  }
}
