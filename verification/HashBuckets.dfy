// The bucket chains on the heap: HASH_ADD_TO_BKT, HASH_DEL_IN_BKT and HASH_EXPAND_BUCKETS.
module HashBuckets {
  import opened HashBits
  import opened HashTypes
  import opened HashModel

  // No node occurs in two places of the chains.
  ghost predicate Apart(chains: seq<seq<Node>>) {
    forall b, i, c, j ::
      0 <= b < |chains| && 0 <= i < |chains[b]| && 0 <= c < |chains| && 0 <= j < |chains[c]| && (b != c || i != j)
      ==> chains[b][i] != chains[c][j]
  }

  // hh_prev and hh_next link the nodes of every chain; all of them are in nodes.
  ghost predicate ChainLinks(chains: seq<seq<Node>>, nodes: set<Node>)
    reads nodes`hhPrev, nodes`hhNext
  {
    && (forall b, i {:trigger chains[b][i]} :: 0 <= b < |chains| && 0 <= i < |chains[b]| ==> chains[b][i] in nodes)
    && (forall b, i {:trigger chains[b][i].hhPrev} :: 0 <= b < |chains| && 0 <= i < |chains[b]| ==>
      chains[b][i].hhPrev == At(chains[b], i - 1))
    && (forall b, i {:trigger chains[b][i].hhNext} :: 0 <= b < |chains| && 0 <= i < |chains[b]| ==>
      chains[b][i].hhNext == At(chains[b], i + 1))
  }

  // The bucket array points at these chains and counts them.
  ghost predicate BucketsRep(bs: array<Bucket>, chains: seq<seq<Node>>, mults: seq<nat>)
    reads bs
  {
    && bs.Length == |chains| == |mults|
    && forall b {:trigger bs[b]} :: 0 <= b < |chains| ==> bs[b] == Bucket(At(chains[b], 0), |chains[b]|, mults[b])
  }

  // The common part of adding to a bucket and of moving an item to a new bucket.
  method PushItem(bs: array<Bucket>, b: nat, x: Node, ghost chains: seq<seq<Node>>, ghost mults: seq<nat>, ghost nodes: set<Node>)
    requires BucketsRep(bs, chains, mults) && ChainLinks(chains, nodes) && Apart(chains)
    requires b < |chains| && x !in nodes
    modifies bs, x`hhPrev, x`hhNext, nodes`hhPrev
    ensures BucketsRep(bs, chains[b := [x] + chains[b]], mults)
    ensures ChainLinks(chains[b := [x] + chains[b]], nodes + {x}) && Apart(chains[b := [x] + chains[b]])
  {
    var head := bs[b].hhHead;
    x.hhNext := head;
    x.hhPrev := null;
    if head != null {
      assert head == chains[b][0];
      head.hhPrev := x;
    }
    bs[b] := bs[b].(hhHead := x, count := bs[b].count + 1);
  }

  // The buckets after HASH_ROLLBACK_BKT: bucket b counts one item that is in no chain.
  ghost predicate CountsOneMore(bs: array<Bucket>, b: nat, chains: seq<seq<Node>>, mults: seq<nat>)
    reads bs
  {
    && bs.Length == |chains| == |mults| && b < |chains|
    && forall c {:trigger bs[c]} :: 0 <= c < |chains| ==>
      bs[c] == Bucket(At(chains[c], 0), |chains[c]| + (if c == b then 1 else 0), mults[c])
  }

  ghost predicate IsWithoutAt(chain': seq<Node>, chain: seq<Node>, k: int)
    requires 0 <= k < |chain|
  {
    && |chain'| == |chain| - 1
    && (forall i :: 0 <= i < k ==> chain'[i] == chain[i])
    && (forall i :: k < i < |chain| ==> chain'[i - 1] == chain[i])
    && (forall i :: k <= i < |chain'| ==> chain'[i] == chain[i + 1])
  }

  lemma WithoutAt(chain: seq<Node>, k: int)
    requires 0 <= k < |chain|
    ensures IsWithoutAt(chain[..k] + chain[k + 1..], chain, k)
  {
  }

  // HASH_DEL_IN_BKT on the node at position k of chain b, or, when k is negative, on a node that
  // bucket b counts but does not hold. The chain is left without that position.
  method DelInBkt(bs: array<Bucket>, b: nat, x: Node, ghost k: int, ghost chain': seq<Node>,
                  ghost chains: seq<seq<Node>>, ghost mults: seq<nat>, ghost nodes: set<Node>)
    requires ChainLinks(chains, nodes) && Apart(chains) && b < |chains|
    requires k < 0 ==> CountsOneMore(bs, b, chains, mults) && x !in nodes && x.hhPrev == null && x.hhNext == null
    requires k >= 0 ==> BucketsRep(bs, chains, mults) && k < |chains[b]| && chains[b][k] == x && IsWithoutAt(chain', chains[b], k)
    modifies bs, nodes`hhPrev, nodes`hhNext
    ensures k < 0 ==> BucketsRep(bs, chains, mults) && ChainLinks(chains, nodes)
    ensures k >= 0 ==>
      var chains' := chains[b := chain'];
      BucketsRep(bs, chains', mults) && ChainLinks(chains', nodes - {x})
  {
    bs[b] := bs[b].(count := bs[b].count - 1);
    if bs[b].hhHead == x {
      bs[b] := bs[b].(hhHead := x.hhNext);
    }
    if x.hhPrev != null {
      assert x.hhPrev == chains[b][k - 1];
      x.hhPrev.hhNext := x.hhNext;
    }
    if x.hhNext != null {
      assert x.hhNext == chains[b][k + 1];
      x.hhNext.hhPrev := x.hhPrev;
    }
  }

  // The old chains from position j of chain i on are still linked forward, and their nodes are
  // not yet in the new buckets.
  ghost predicate Waiting(chains: seq<seq<Node>>, i: nat, j: nat, nodes: set<Node>, placed: set<Node>)
    reads nodes`hhNext
  {
    && (forall b, k {:trigger chains[b][k]} :: 0 <= b < |chains| && 0 <= k < |chains[b]| ==> chains[b][k] in nodes)
    && (forall b, k {:trigger chains[b][k].hhNext} {:trigger chains[b][k] in placed} ::
      i <= b < |chains| && 0 <= k < |chains[b]| && (b == i ==> j <= k)
      ==> chains[b][k].hhNext == At(chains[b], k + 1) && chains[b][k] !in placed)
  }

  // One item is moved to new bucket c.
  method PlaceItem(nb: array<Bucket>, x: Node, c: nat, ideal: nat, ghost d: Dist, ghost placed: set<Node>)
    returns (over: bool, ghost d': Dist)
    requires c < |d.chains| && BucketsRep(nb, d.chains, d.mults) && ChainLinks(d.chains, placed) && Apart(d.chains)
    requires x !in placed
    modifies nb, x`hhPrev, x`hhNext, placed`hhPrev
    ensures d' == PlaceOne(d, x, c, ideal) && over == (d'.nonideal == d.nonideal + 1) && (!over ==> d'.nonideal == d.nonideal)
    ensures BucketsRep(nb, d'.chains, d'.mults) && ChainLinks(d'.chains, placed + {x}) && Apart(d'.chains)
  {
    d' := PlaceOne(d, x, c, ideal);
    over := nb[c].count + 1 > ideal;
    if over && nb[c].count + 1 > nb[c].expandMult * ideal {
      nb[c] := nb[c].(expandMult := nb[c].expandMult + 1);
    }
    PushItem(nb, c, x, d.chains, d'.mults, placed);
  }

  // The hash values in the handles are those of info.
  ghost predicate HashesRep(chains: seq<seq<Node>>, info: map<Node, Info>, nodes: set<Node>)
    reads nodes`hashv
  {
    && (forall b, k {:trigger chains[b][k]} :: 0 <= b < |chains| && 0 <= k < |chains[b]| ==> chains[b][k] in nodes)
    && (forall x {:trigger x.hashv} :: x in nodes ==> x.hashv == HashOf(info, x))
  }

  // One turn of the inner loop of HASH_EXPAND_BUCKETS.
  method MoveItem(t: Table, nb: array<Bucket>, thh: Node,
                  ghost info: map<Node, Info>, ghost chains: seq<seq<Node>>, ghost i: nat, ghost j: nat,
                  ghost d: Dist, ghost nodes: set<Node>, ghost placed: set<Node>)
    returns (nxt: Node?, ghost d': Dist)
    requires i < |chains| && j < |chains[i]| && thh == chains[i][j] && Apart(chains)
    requires t.numBuckets == |chains| && |d.chains| == 2 * |chains| && t.nonidealItems == d.nonideal
    requires BucketsRep(nb, d.chains, d.mults) && ChainLinks(d.chains, placed) && Apart(d.chains) && placed <= nodes
    requires Waiting(chains, i, j, nodes, placed) && HashesRep(chains, info, nodes)
    modifies nb, t`nonidealItems, nodes`hhPrev, nodes`hhNext
    ensures t.nonidealItems == d'.nonideal && |d'.chains| == 2 * |chains|
    ensures BucketsRep(nb, d'.chains, d'.mults) && ChainLinks(d'.chains, placed + {thh}) && Apart(d'.chains)
    ensures Waiting(chains, i, j + 1, nodes, placed + {thh}) && nxt == At(chains[i], j + 1)
    ensures PlaceFrom(info, chains, i, j, t.idealChainMaxlen, d) == PlaceFrom(info, chains, i, j + 1, t.idealChainMaxlen, d')
  {
    nxt := thh.hhNext;
    var c := ToBkt(thh.hashv, t.numBuckets * 2);
    var over;
    over, d' := PlaceItem(nb, thh, c, t.idealChainMaxlen, d, placed);
    if over {
      t.nonidealItems := t.nonidealItems + 1;
    }
  }

  // The inner loop: old chain i is walked and emptied.
  method MoveChain(t: Table, nb: array<Bucket>, head: Node?,
                   ghost info: map<Node, Info>, ghost chains: seq<seq<Node>>, ghost i: nat,
                   ghost d: Dist, ghost nodes: set<Node>, ghost placed: set<Node>)
    returns (ghost d': Dist, ghost placed': set<Node>)
    requires i < |chains| && head == At(chains[i], 0) && Apart(chains)
    requires t.numBuckets == |chains| && |d.chains| == |d.mults| == 2 * |chains| && t.nonidealItems == d.nonideal
    requires BucketsRep(nb, d.chains, d.mults) && ChainLinks(d.chains, placed) && Apart(d.chains) && placed <= nodes
    requires Waiting(chains, i, 0, nodes, placed) && HashesRep(chains, info, nodes)
    modifies nb, t`nonidealItems, nodes`hhPrev, nodes`hhNext
    ensures t.nonidealItems == d'.nonideal && |d'.chains| == |d'.mults| == 2 * |chains|
    ensures BucketsRep(nb, d'.chains, d'.mults) && ChainLinks(d'.chains, placed') && Apart(d'.chains) && placed' <= nodes
    ensures Waiting(chains, i + 1, 0, nodes, placed')
    ensures PlaceFrom(info, chains, i, 0, t.idealChainMaxlen, d) == PlaceFrom(info, chains, i + 1, 0, t.idealChainMaxlen, d')
  {
    var thh := head;
    ghost var j := 0;
    d', placed' := d, placed;
    while thh != null
      invariant j <= |chains[i]| && thh == At(chains[i], j)
      invariant |d'.chains| == |d'.mults| == 2 * |chains| && t.nonidealItems == d'.nonideal
      invariant BucketsRep(nb, d'.chains, d'.mults) && ChainLinks(d'.chains, placed') && Apart(d'.chains) && placed' <= nodes
      invariant Waiting(chains, i, j, nodes, placed') && HashesRep(chains, info, nodes)
      invariant PlaceFrom(info, chains, i, 0, t.idealChainMaxlen, d) == PlaceFrom(info, chains, i, j, t.idealChainMaxlen, d')
      decreases |chains[i]| - j
    {
      assert thh in nodes;
      ghost var x := thh;
      thh, d' := MoveItem(t, nb, thh, info, chains, i, j, d', nodes, placed');
      placed' := placed' + {x};
      j := j + 1;
    }
  }

  // The outer loop: all old chains are emptied into the new buckets.
  method MoveAll(t: Table, nb: array<Bucket>,
                 ghost info: map<Node, Info>, ghost chains: seq<seq<Node>>, ghost mults: seq<nat>, ghost nodes: set<Node>)
    requires |chains| > 0 && t.numBuckets == |chains| && nb.Length == 2 * |chains| && nb != t.buckets
    requires forall b {:trigger nb[b]} :: 0 <= b < nb.Length ==> nb[b] == Bucket(null, 0, 0)
    requires BucketsRep(t.buckets, chains, mults) && ChainLinks(chains, nodes) && Apart(chains)
    requires HashesRep(chains, info, nodes)
    modifies nb, t`nonidealItems, nodes`hhPrev, nodes`hhNext
    ensures var d := Redistribute(info, chains, t.idealChainMaxlen);
      && BucketsRep(nb, d.chains, d.mults) && ChainLinks(d.chains, nodes) && Apart(d.chains)
      && t.nonidealItems == d.nonideal
  {
    ghost var d, placed := NoItems(2 * |chains|), {};
    t.nonidealItems := 0;
    for i := 0 to t.numBuckets
      invariant |d.chains| == |d.mults| == 2 * |chains| && t.nonidealItems == d.nonideal
      invariant BucketsRep(t.buckets, chains, mults) && HashesRep(chains, info, nodes)
      invariant BucketsRep(nb, d.chains, d.mults) && ChainLinks(d.chains, placed) && Apart(d.chains) && placed <= nodes
      invariant Waiting(chains, i, 0, nodes, placed)
      invariant PlaceFrom(info, chains, i, 0, t.idealChainMaxlen, d) == Redistribute(info, chains, t.idealChainMaxlen)
    {
      d, placed := MoveChain(t, nb, t.buckets[i].hhHead, info, chains, i, d, nodes, placed);
    }
  }

  // The table's own fields, apart from its tail and its filter.
  ghost predicate ScalarsRep(t: Table, st: State)
    requires st.Full?
    reads t`numBuckets, t`log2NumBuckets, t`numItems, t`idealChainMaxlen, t`nonidealItems, t`ineffExpands, t`noexpand
  {
    && t.numBuckets == |st.chains| && t.log2NumBuckets == st.log2 && t.numItems == |st.app|
    && t.idealChainMaxlen == st.ideal && t.nonidealItems == st.nonideal
    && t.ineffExpands == st.ineff && t.noexpand == st.noexpand
  }

  ghost predicate TableRep(t: Table, st: State, nodes: set<Node>)
    requires st.Full?
    reads t`numBuckets, t`log2NumBuckets, t`numItems, t`idealChainMaxlen, t`nonidealItems, t`ineffExpands, t`noexpand
    reads t`buckets, t.buckets, nodes`hhPrev, nodes`hhNext
  {
    && ScalarsRep(t, st) && BucketsRep(t.buckets, st.chains, st.mults)
    && ChainLinks(st.chains, nodes) && |st.chains| > 0
  }

  // The end of HASH_EXPAND_BUCKETS: the new buckets take the place of the old ones.
  method InstallBuckets(t: Table, nb: array<Bucket>, ghost st: State, ghost d: Dist, ghost nodes: set<Node>)
    requires st.Full? && |st.chains| == |st.mults| > 0
    requires t.numBuckets == |st.chains| && t.log2NumBuckets == st.log2 && t.numItems == |st.app|
    requires t.ineffExpands == st.ineff && t.noexpand == st.noexpand && t.nonidealItems == d.nonideal
    requires BucketsRep(nb, d.chains, d.mults) && ChainLinks(d.chains, nodes)
    requires |d.chains| == 2 * |st.chains|
    modifies t`numBuckets, t`log2NumBuckets, t`buckets, t`ineffExpands, t`noexpand
    ensures var ineff := if d.nonideal > |st.app| / 2 then st.ineff + 1 else 0;
      TableRep(t, st.(chains := d.chains, mults := d.mults, log2 := st.log2 + 1, ideal := t.idealChainMaxlen,
                      nonideal := d.nonideal, ineff := ineff, noexpand := st.noexpand || ineff > 1), nodes)
    ensures t.buckets == nb
  {
    t.numBuckets := t.numBuckets * 2;
    t.log2NumBuckets := t.log2NumBuckets + 1;
    t.buckets := nb;
    t.ineffExpands := if t.nonidealItems > t.numItems / 2 then t.ineffExpands + 1 else 0;
    if t.ineffExpands > 1 {
      t.noexpand := true;
    }
  }

  // HASH_EXPAND_BUCKETS; memory says whether the allocation succeeds.
  method ExpandBuckets(t: Table, memory: bool, ghost st: State, ghost nodes: set<Node>) returns (oomed: bool)
    requires st.Full? && TableRep(t, st, nodes) && HashesRep(st.chains, st.info, nodes) && Apart(st.chains)
    modifies t`numBuckets, t`log2NumBuckets, t`buckets, t`idealChainMaxlen, t`nonidealItems, t`ineffExpands, t`noexpand
    modifies nodes`hhPrev, nodes`hhNext
    ensures oomed == !memory
    ensures !oomed ==> TableRep(t, Expand(st), nodes) && fresh(t.buckets)
    ensures oomed ==> TableRep(t, st, nodes) && t.buckets == old(t.buckets)
  {
    if !memory {
      return true;
    }
    var nb := new Bucket[t.numBuckets * 2](_ => Bucket(null, 0, 0));
    t.idealChainMaxlen := IdealLength(t.numItems, t.log2NumBuckets + 1, t.numBuckets * 2);
    MoveAll(t, nb, st.info, st.chains, st.mults, nodes);
    InstallBuckets(t, nb, st, Redistribute(st.info, st.chains, t.idealChainMaxlen), nodes);
    oomed := false;
  }

  // HASH_ADD_TO_BKT. The state linked has x at the head of chain b and in the list; when the
  // expansion it asks for runs out of memory the chain is as it was before.
  method AddToBkt(t: Table, b: nat, x: Node, memory: bool,
                  ghost before: seq<seq<Node>>, ghost linked: State, ghost nodes: set<Node>, ghost nodes': set<Node>)
    returns (oomed: bool, ghost r: State)
    requires linked.Full? && ScalarsRep(t, linked) && b < |before| && linked.chains == before[b := [x] + before[b]]
    requires BucketsRep(t.buckets, before, linked.mults) && ChainLinks(before, nodes) && Apart(before)
    requires x !in nodes && nodes' == nodes + {x}
    requires HashesRep(linked.chains, linked.info, nodes')
    modifies t`numBuckets, t`log2NumBuckets, t`buckets, t`idealChainMaxlen, t`nonidealItems, t`ineffExpands, t`noexpand
    modifies t.buckets, x`hhPrev, x`hhNext, nodes`hhPrev, nodes`hhNext
    ensures oomed == (MustExpand(linked, b) && !memory)
    ensures r == (if MustExpand(linked, b) then Expand(linked) else linked) && r.Full? && r.app == linked.app && r.info == linked.info && r.filter == linked.filter
    ensures !oomed ==> TableRep(t, r, nodes')
    ensures oomed ==> ScalarsRep(t, linked) && BucketsRep(t.buckets, before, linked.mults) && ChainLinks(before, nodes)
    ensures t.buckets == old(t.buckets) || fresh(t.buckets)
    ensures oomed ==> t.buckets == old(t.buckets)
  {
    PushItem(t.buckets, b, x, before, linked.mults, nodes);
    oomed, r := false, linked;
    if t.buckets[b].count >= (t.buckets[b].expandMult + 1) * BKT_CAPACITY_THRESH && !t.noexpand {
      oomed := ExpandBuckets(t, memory, linked, nodes');
      r := Expand(linked);
      if oomed {
        DelInBkt(t.buckets, b, x, 0, before[b], linked.chains, linked.mults, nodes');
        assert linked.chains[b := before[b]] == before;
        assert nodes' - {x} == nodes;
      }
    }
  }
}
