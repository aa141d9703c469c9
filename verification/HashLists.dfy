// The application-order list on the heap: linking an element in, unlinking it, finding its place.
module HashLists {
  import opened Sequences
  import opened StableSort
  import opened HashTypes
  import opened HashModel

  ghost predicate ListRep(t: Table, head: Node?, s: seq<Node>)
    reads t`tail, s`prev, s`next
  {
    s != [] && head == s[0] && t.tail == s[|s| - 1] && AppLinks(s)
  }

  // HASH_APPEND_LIST.
  method AppendList(t: Table, head: Node, x: Node, ghost s: seq<Node>)
    requires ListRep(t, head, s) && Distinct(s) && x !in s
    modifies t`tail, x`prev, x`next, s`next
    ensures ListRep(t, head, Splice(s, |s|, x))
  {
    ghost var r := Splice(s, |s|, x);
    assert r == s + [x];
    x.next := null;
    x.prev := t.tail;
    assert t.tail == s[|s| - 1];
    t.tail.next := x;
    t.tail := x;
  }

  // HASH_AKBI_INNER_LOOP: the first element that compares greater than x.
  method FindPlace(cmp: Compare<Node>, head: Node, x: Node, ghost s: seq<Node>) returns (iter: Node?)
    requires s != [] && head == s[0] && AppLinks(s)
    ensures iter == At(s, InsertPos(cmp, s, x))
  {
    iter := head;
    ghost var k := 0;
    assert s[0..] == s;
    while true
      invariant k < |s| && iter == s[k]
      invariant InsertPos(cmp, s, x) == k + InsertPos(cmp, s[k..], x)
      decreases |s| - k
    {
      if cmp(iter, x) > 0 {
        break;
      }
      iter := iter.next;
      k := k + 1;
      assert s[k - 1..][1..] == s[k..];
      if iter == null {
        break;
      }
    }
  }

  lemma SpliceAt(s: seq<Node>, k: nat, x: Node)
    requires k <= |s|
    ensures var r := Splice(s, k, x);
      && |r| == |s| + 1 && r[k] == x
      && (forall i :: 0 <= i < k ==> r[i] == s[i])
      && (forall i :: k <= i < |s| ==> r[i + 1] == s[i])
      && (forall i :: k < i < |r| ==> r[i] == s[i - 1])
  {
  }

  // The element is linked in before iter; r is the list that comes of it.
  method InsertBefore(t: Table, head: Node, iter: Node, x: Node, ghost s: seq<Node>, ghost k: nat, ghost r: seq<Node>) returns (head': Node)
    requires ListRep(t, head, s) && Distinct(s) && x !in s && k < |s| && iter == s[k]
    requires |r| == |s| + 1 && r[k] == x
    requires forall i :: 0 <= i < k ==> r[i] == s[i]
    requires forall i :: k <= i < |s| ==> r[i + 1] == s[i]
    requires forall i :: k < i < |r| ==> r[i] == s[i - 1]
    modifies x`prev, x`next, s`prev, s`next
    ensures ListRep(t, head', r)
  {
    head' := head;
    x.next := iter;
    x.prev := iter.prev;
    if x.prev != null {
      assert x.prev == s[k - 1];
      x.prev.next := x;
    } else {
      head' := x;
    }
    iter.prev := x;
  }

  // The list part of HASH_ADD_INORDER.
  method InsertInOrder(t: Table, head: Node, x: Node, cmp: Compare<Node>, ghost s: seq<Node>) returns (head': Node)
    requires ListRep(t, head, s) && Distinct(s) && x !in s
    modifies t`tail, x`prev, x`next, s`prev, s`next
    ensures ListRep(t, head', Splice(s, InsertPos(cmp, s, x), x))
  {
    var iter := FindPlace(cmp, head, x, s);
    head' := head;
    if iter != null {
      ghost var k := InsertPos(cmp, s, x);
      SpliceAt(s, k, x);
      head' := InsertBefore(t, head, iter, x, s, k, Splice(s, k, x));
    } else {
      AppendList(t, head, x, s);
    }
  }

  // The patch-up of HASH_DELETE_HH for an element that is not alone.
  method Unlink(t: Table, head: Node, x: Node, ghost s: seq<Node>, ghost k: nat) returns (head': Node)
    requires ListRep(t, head, s) && Distinct(s) && k < |s| && x == s[k] && |s| > 1
    modifies t`tail, s`prev, s`next
    ensures ListRep(t, head', s[..k] + s[k + 1..])
  {
    ghost var r := s[..k] + s[k + 1..];
    assert forall i :: 0 <= i < k ==> r[i] == s[i];
    assert forall i :: k < i < |s| ==> r[i - 1] == s[i];
    assert forall i :: k <= i < |r| ==> r[i] == s[i + 1];
    if x == t.tail {
      t.tail := x.prev;
    }
    head' := head;
    if x.prev != null {
      assert x.prev == s[k - 1];
      x.prev.next := x.next;
    } else {
      head' := x.next;
    }
    if x.next != null {
      assert x.next == s[k + 1];
      x.next.prev := x.prev;
    }
  }
}
