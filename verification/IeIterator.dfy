// ie_iter.c: the iterator over the elements of a management frame body.
module IeIterator {
  import opened Bytes
  import opened InfoElements

  // iter->cur: NULL before the first element, later an offset into the copied bytes.
  datatype Cursor = Null | At(offset: nat)

  class Iterator {
    const ies: seq<Byte>
    const beyond: Beyond
    var cur: Cursor
    var curId: Byte
    var curLen: Byte
    ghost var high: nat  // the end of what has been read of the bytes

    constructor (ies: seq<Byte>, beyond: Beyond)
      ensures this.ies == ies && this.beyond == beyond
      ensures cur == Null && high == 0
    {
      this.ies, this.beyond := ies, beyond;
      cur, curId, curLen, high := Null, 0, 0, 0;
    }

    // What the calls to come will yield.
    ghost function Pending(): seq<Element>
      reads this`cur, this`curId, this`curLen
    {
      if cur.Null? then Decode(ies, beyond) else ElementsFrom(ies, beyond, cur.offset + curLen)
    }

    // Where the next header stands.
    ghost function NextOffset(): nat
      reads this`cur, this`curId, this`curLen
    {
      if cur.Null? then 0 else cur.offset + curLen
    }

    function Current(): Element
      requires cur.At?
      reads this`cur, this`curId, this`curLen
    {
      Element(curId, Read(ies, beyond, cur.offset, curLen))
    }

    // ie_iter_next: true when there is no further element. Once it is true it stays true.
    method Next() returns (done: bool)
      modifies this
      ensures done <==> old(Pending()) == []
      ensures if done then Pending() == []
              else cur.At? && old(Pending()) == [Current()] + Pending()
      ensures if done then high == old(high)
              else cur.offset == old(NextOffset()) + 2 && high == Max(old(high), cur.offset)
    {
      if cur.Null? {
        if |ies| <= 2 {
          return true;
        }
        cur := At(2);
        curId := ies[0];
        curLen := ies[1];
        high := Max(high, 2);
      } else {
        var at := cur.offset + curLen;
        cur := At(at);
        if at >= |ies| {
          return true;
        }
        curId := ReadAt(ies, beyond, at);
        curLen := ReadAt(ies, beyond, at + 1);
        cur := At(at + 2);
        high := Max(high, at + 2);
      }
      return false;
    }

    // iter->cur with its length, as a caller reads it.
    method ReadCurrent() returns (body: seq<Byte>)
      requires cur.At?
      modifies this`high
      ensures body == Current().body
      ensures high == Max(old(high), cur.offset + curLen)
      ensures Pending() == old(Pending()) && NextOffset() == old(NextOffset())
    {
      body := Read(ies, beyond, cur.offset, curLen);
      high := Max(high, cur.offset + curLen);
    }
  }

  // ie_iter: no iterator when nothing follows the fixed parameters.
  method NewIterator(body: seq<Byte>, subtype: Byte, beyond: Beyond) returns (iter: Iterator?)
    ensures iter != null ==> fresh(iter)
    ensures Upcoming(iter) == DecodeBody(body, subtype, beyond)
    ensures ReadSoFar(iter) == Offset(iter) == 0
  {
    var length := |body| % 0x100;
    var fixed := FixedParams(subtype);
    if length - fixed <= 0 {
      return null;
    }
    iter := new Iterator(body[fixed..length], beyond);
  }

  ghost function Upcoming(iter: Iterator?): seq<Element>
    reads iter
  {
    if iter == null then [] else iter.Pending()
  }

  ghost function Offset(iter: Iterator?): nat
    reads iter
  {
    if iter == null then 0 else iter.NextOffset()
  }

  ghost function ReadSoFar(iter: Iterator?): nat
    reads iter
  {
    if iter == null then 0 else iter.high
  }

  // ie_iter_next on what NewIterator returned.
  method NextElement(iter: Iterator?) returns (done: bool)
    modifies iter
    ensures done <==> old(Upcoming(iter)) == []
    ensures if done then Upcoming(iter) == []
            else iter != null && iter.cur.At? && old(Upcoming(iter)) == [iter.Current()] + Upcoming(iter)
    ensures if done then ReadSoFar(iter) == old(ReadSoFar(iter))
            else iter.cur.offset == old(Offset(iter)) + 2
                 && iter.high == Max(old(ReadSoFar(iter)), iter.cur.offset)
  {
    if iter == null {
      return true;
    }
    done := iter.Next();
  }

  ghost predicate Printable(s: seq<Byte>) {
    forall i | 0 <= i < |s| :: 32 <= s[i] <= 126
  }

  // is_printable.
  method IsPrintable(s: seq<Byte>) returns (r: bool)
    ensures r <==> Printable(s)
    ensures r <==> forall b | b in s :: 32 <= b <= 126
  {
    for i := 0 to |s|
      invariant Printable(s[..i])
    {
      if s[i] < 32 || s[i] > 126 {
        assert s[i] in s;
        return false;
      }
      assert s[..i + 1] == s[..i] + [s[i]];
    }
    assert s[..|s|] == s;
    return true;
  }
}
