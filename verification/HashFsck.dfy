// HASH_FSCK, the authors' own integrity check, on any heap in which its walks come to an end.
module HashFsck {
  import opened HashTypes
  import opened HashModel
  import opened HashPolicy
  import opened HashTable

  // What hh_next leads through, from the head of a bucket on.
  ghost predicate ChainWalk(hhHead: Node?, chain: seq<Node>)
    reads chain`hhNext
  {
    && hhHead == At(chain, 0)
    && forall i {:trigger chain[i].hhNext} :: 0 <= i < |chain| ==> chain[i].hhNext == At(chain, i + 1)
  }

  ghost predicate ChainSound(bkt: Bucket, chain: seq<Node>)
    reads chain`hhPrev
  {
    && bkt.count == |chain|
    && forall i {:trigger chain[i].hhPrev} :: 0 <= i < |chain| ==> chain[i].hhPrev == At(chain, i - 1)
  }

  ghost predicate ListWalk(head: Node, s: seq<Node>)
    reads s`next
  {
    && s != [] && head == s[0]
    && forall i {:trigger s[i].next} :: 0 <= i < |s| ==> s[i].next == At(s, i + 1)
  }

  ghost predicate ListSound(s: seq<Node>)
    reads s`prev
  {
    forall i {:trigger s[i].prev} :: 0 <= i < |s| ==> s[i].prev == At(s, i - 1)
  }

  ghost predicate BucketsWalk(t: Table, chains: seq<seq<Node>>, nodes: set<Node>)
    reads t`buckets, t`numBuckets, t.buckets, nodes`hhNext
  {
    && t.buckets.Length == t.numBuckets == |chains|
    && (forall b :: 0 <= b < |chains| ==> Elements(chains[b]) <= nodes)
    && (forall b :: 0 <= b < |chains| ==> ChainWalk(t.buckets[b].hhHead, chains[b]))
  }

  ghost predicate BucketsSound(bs: seq<Bucket>, chains: seq<seq<Node>>, nodes: set<Node>)
    requires |chains| <= |bs|
    reads nodes`hhPrev
  {
    forall b :: 0 <= b < |chains| ==> Elements(chains[b]) <= nodes && ChainSound(bs[b], chains[b])
  }

  // The walk along one bucket's chain.
  method FsckBucket(bkt: Bucket, ghost chain: seq<Node>) returns (ok: bool, bktCount: nat)
    requires ChainWalk(bkt.hhHead, chain)
    ensures ok <==> ChainSound(bkt, chain)
    ensures bktCount == |chain|
  {
    var thh: Node?, prev: Node? := bkt.hhHead, null;
    bktCount, ok := 0, true;
    while thh != null
      invariant bktCount <= |chain| && thh == At(chain, bktCount) && prev == At(chain, bktCount - 1)
      invariant ok <==> forall i {:trigger chain[i].hhPrev} :: 0 <= i < bktCount ==> chain[i].hhPrev == At(chain, i - 1)
      decreases |chain| - bktCount
    {
      assert thh == chain[bktCount];
      ok := ok && prev == thh.hhPrev;
      bktCount := bktCount + 1;
      prev := thh;
      thh := thh.hhNext;
    }
    ok := ok && bkt.count == bktCount;
  }

  // The walk along the application-order list.
  method FsckList(head: Node, ghost s: seq<Node>) returns (ok: bool, count: nat)
    requires ListWalk(head, s)
    ensures ok <==> ListSound(s)
    ensures count == |s|
  {
    var thh: Node?, prev: Node? := head, null;
    count, ok := 0, true;
    while thh != null
      invariant count <= |s| && thh == At(s, count) && prev == At(s, count - 1)
      invariant ok <==> forall i {:trigger s[i].prev} :: 0 <= i < count ==> s[i].prev == At(s, i - 1)
      decreases |s| - count
    {
      assert thh == s[count];
      ok := ok && prev == thh.prev;
      count := count + 1;
      prev := thh;
      thh := thh.next;
    }
  }

  method FsckBuckets(t: Table, ghost chains: seq<seq<Node>>, ghost nodes: set<Node>) returns (ok: bool, count: nat)
    requires BucketsWalk(t, chains, nodes)
    ensures ok <==> BucketsSound(t.buckets[..], chains, nodes)
    ensures count == SumCounts(chains)
  {
    ok, count := true, 0;
    for i := 0 to t.numBuckets
      invariant ok <==> BucketsSound(t.buckets[..], chains[..i], nodes)
      invariant count == SumCounts(chains[..i])
    {
      assert ChainWalk(t.buckets[i].hhHead, chains[i]);
      var good, bktCount := FsckBucket(t.buckets[i], chains[i]);
      ok, count := ok && good, count + bktCount;
      assert chains[..i + 1] == chains[..i] + [chains[i]] && chains[..i + 1][..i] == chains[..i];
    }
    assert chains[..|chains|] == chains;
  }

  // HASH_FSCK finds nothing wrong exactly when the links back mirror the links forward in every
  // chain and in the list, every bucket counts its chain, and num_items counts both structures.
  method Fsck(head: Node?, ghost s: seq<Node>, ghost chains: seq<seq<Node>>, ghost nodes: set<Node>) returns (ok: bool)
    requires head != null ==> head.tbl != null && BucketsWalk(head.tbl, chains, nodes) && ListWalk(head, s)
    ensures head != null ==>
              (ok <==> && BucketsSound(head.tbl.buckets[..], chains, nodes) && ListSound(s)
                       && SumCounts(chains) == head.tbl.numItems == |s|)
    ensures head == null ==> ok
  {
    ok := true;
    if head != null {
      var t := head.tbl;
      var good, count := FsckBuckets(t, chains, nodes);
      ok := good && count == t.numItems;
      good, count := FsckList(head, s);
      ok := ok && good && count == t.numItems;
    }
  }

  // A table in which the invariant holds passes: the conditions of Fsck hold with its own list
  // and chains.
  lemma InvariantPasses(head: Node, st: State)
    requires Rep(head, st) && Inv(st)
    ensures st.Full? && BucketsWalk(head.tbl, st.chains, Elements(st.app)) && ListWalk(head, st.app)
    ensures BucketsSound(head.tbl.buckets[..], st.chains, Elements(st.app)) && ListSound(st.app)
    ensures SumCounts(st.chains) == head.tbl.numItems == |st.app|
  {
    CountsAddUp(st);
    forall b | 0 <= b < |st.chains|
      ensures Elements(st.chains[b]) <= Elements(st.app)
      ensures ChainWalk(head.tbl.buckets[b].hhHead, st.chains[b])
      ensures ChainSound(head.tbl.buckets[b], st.chains[b])
    {
    }
  }
}
