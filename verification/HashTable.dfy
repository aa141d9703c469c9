// The operations of uthash.h on the heap. Each is proved to turn the table's value into what
// the function of the same name in HashModel makes of it.
module HashTable {
  import opened Sequences
  import opened StableSort
  import opened Bytes
  import opened HashBits
  import opened HashTypes
  import opened BloomFilter
  import opened HashModel
  import opened HashInvariant
  import opened HashBuckets
  import opened HashLists

  // Every member's handle holds its key, its hash value and its table.
  ghost predicate HandlesRep(t: Table, app: seq<Node>, info: map<Node, Info>)
    reads app`key, app`hashv, app`tbl
  {
    forall x :: x in app ==> x in info && info[x] == Info(x.key, x.hashv) && x.tbl == t
  }

  ghost predicate FilterRep(t: Table, filter: Filter)
    reads t`bloom, if t.bloom == null then {} else {t.bloom.bv}
  {
    if t.bloom == null then filter == NoFilter
    else t.bloom.Valid() && filter == Filter(t.bloom.nbits, t.bloom.Bits())
  }

  // The buckets and the filter's bytes are different allocations.
  ghost predicate Separate(t: Table)
    reads t`bloom, t`buckets
  {
    t.bloom != null ==> (t.buckets as object) != t.bloom.bv
  }

  ghost function WithFilter(st: State, filter: Filter): State
    requires st.Full?
  {
    st.(filter := filter)
  }

  // No chain item occurs twice when the table's invariant holds.
  lemma ChainsApart(app: seq<Node>, info: map<Node, Info>, chains: seq<seq<Node>>)
    requires ChainsInv(app, info, chains)
    ensures Apart(chains)
  {
    forall b, i, c, j | 0 <= b < |chains| && 0 <= i < |chains[b]| && 0 <= c < |chains| && 0 <= j < |chains[c]| && (b != c || i != j)
      ensures chains[b][i] != chains[c][j]
    {
      var x := chains[b][i];
      assert x in chains[b] && ToBkt(HashOf(info, x), |chains|) == b;
      if b != c {
        assert x !in chains[c];
      } else {
        assert Distinct(chains[b]);
      }
    }
  }

  // HASH_DELETE_HH for an element that is not alone in the list. It is item j of its chain, or,
  // when j is negative, counted there but not linked.
  method RemoveItem(t: Table, head: Node, x: Node, ghost s: seq<Node>, ghost k: nat,
                    ghost b: nat, ghost j: int, ghost chain': seq<Node>,
                    ghost chains: seq<seq<Node>>, ghost mults: seq<nat>, ghost nodes: set<Node>)
    returns (head': Node)
    requires ListRep(t, head, s) && Distinct(s) && |s| > 1 && k < |s| && s[k] == x
    requires t.numBuckets == |chains| && b < |chains| && b == ToBkt(x.hashv, t.numBuckets) && t.numItems > 0
    requires ChainLinks(chains, nodes) && Apart(chains)
    requires j < 0 ==> CountsOneMore(t.buckets, b, chains, mults) && x !in nodes && x.hhPrev == null && x.hhNext == null
    requires j >= 0 ==> BucketsRep(t.buckets, chains, mults) && j < |chains[b]| && chains[b][j] == x && IsWithoutAt(chain', chains[b], j)
    modifies t`tail, t`numItems, t.buckets, s`prev, s`next, nodes`hhPrev, nodes`hhNext
    ensures ListRep(t, head', s[..k] + s[k + 1..]) && t.numItems == old(t.numItems) - 1
    ensures j < 0 ==> BucketsRep(t.buckets, chains, mults) && ChainLinks(chains, nodes)
    ensures j >= 0 ==>
      var chains' := chains[b := chain'];
      BucketsRep(t.buckets, chains', mults) && ChainLinks(chains', nodes - {x})
  {
    head' := Unlink(t, head, x, s, k);
    var bkt := ToBkt(x.hashv, t.numBuckets);
    DelInBkt(t.buckets, bkt, x, j, chain', chains, mults, nodes);
    t.numItems := t.numItems - 1;
  }

  // HASH_ROLLBACK_BKT.
  method RollbackBkt(t: Table, x: Node, ghost chains: seq<seq<Node>>, ghost mults: seq<nat>)
    requires t.numBuckets == |chains| > 0 && BucketsRep(t.buckets, chains, mults)
    modifies t.buckets, x`hhPrev, x`hhNext
    ensures CountsOneMore(t.buckets, ToBkt(x.hashv, t.numBuckets), chains, mults) && x.hhPrev == null && x.hhNext == null
  {
    var bkt := ToBkt(x.hashv, t.numBuckets);
    t.buckets[bkt] := t.buckets[bkt].(count := t.buckets[bkt].count + 1);
    x.hhNext := null;
    x.hhPrev := null;
  }

  // A table that represents st, apart from the filter.
  ghost predicate TableAndItems(t: Table, head: Node?, st: State)
    requires st.Full?
    reads t, t.buckets, st.app
  {
    ListRep(t, head, st.app) && HandlesRep(t, st.app, st.info) && TableRep(t, st, Elements(st.app))
  }

  // The table, the chains and the list forget x again.
  method UndoLinks(t: Table, head: Node, x: Node, ghost st: State, ghost s: seq<Node>, ghost k: nat, ghost nodes: set<Node>)
    returns (head': Node)
    requires st.Full? && k < |s| && s[k] == x && |s| > 1 && x !in nodes && |st.chains| > 0
    requires ListRep(t, head, s) && Distinct(s) && |s| == |st.app| + 1
    requires ScalarsRep(t, st.(app := s)) && BucketsRep(t.buckets, st.chains, st.mults)
    requires ChainLinks(st.chains, nodes) && Apart(st.chains)
    modifies t`tail, t`numItems, t.buckets, s`prev, s`next, nodes`hhPrev, nodes`hhNext, x`hhPrev, x`hhNext
    ensures ListRep(t, head', s[..k] + s[k + 1..]) && TableRep(t, st, nodes)
  {
    RollbackBkt(t, x, st.chains, st.mults);
    head' := RemoveItem(t, head, x, s, k, ToBkt(x.hashv, t.numBuckets), -1, [], st.chains, st.mults, nodes);
  }

  lemma SpliceThenDrop(s: seq<Node>, k: nat, x: Node)
    requires k <= |s|
    ensures var r := Splice(s, k, x); r[k] == x && r[..k] + r[k + 1..] == s && |r| == |s| + 1
  {
  }

  // linked is st with x at position k of the list and at the head of bucket b.
  ghost predicate LinkedFrom(linked: State, st: State, k: nat, x: Node, b: nat) {
    && st.Full? && linked.Full? && |linked.app| == |st.app| + 1 && k < |linked.app| && linked.app[k] == x
    && linked.app[..k] + linked.app[k + 1..] == st.app && Distinct(linked.app)
    && Apart(st.chains) && |st.chains| == |st.mults| && b < |st.chains|
    && linked.chains == st.chains[b := [x] + st.chains[b]] && linked.mults == st.mults && linked.log2 == st.log2
    && linked.ideal == st.ideal && linked.nonideal == st.nonideal
    && linked.ineff == st.ineff && linked.noexpand == st.noexpand
    && (MustExpand(linked, b) ==> st.app != [])
  }

  lemma LinkIsLinkedFrom(t: Table, st: State, k: nat, x: Node, inf: Info)
    requires st.Full? && TableInv(st) && k <= |st.app| && x !in st.app && x.hashv == inf.hashv
    requires HandlesRep(t, st.app, st.info)
    ensures var linked := Link(st, k, x, inf);
      && LinkedFrom(linked, st, k, x, ToBkt(inf.hashv, |st.chains|))
      && HashesRep(linked.chains, linked.info, Elements(linked.app)) && Elements(linked.app) == Elements(st.app) + {x}
  {
    SpliceHolds(st.app, k, x);
    SpliceThenDrop(st.app, k, x);
    ChainsApart(st.app, st.info, st.chains);
    OverflowingBucket(st, k, x, inf);
    LinkedHashes(t, st, k, x, inf);
  }

  lemma LinkedHashes(t: Table, st: State, k: nat, x: Node, inf: Info)
    requires st.Full? && TableInv(st) && k <= |st.app| && x !in st.app && x.hashv == inf.hashv
    requires HandlesRep(t, st.app, st.info)
    ensures var linked := Link(st, k, x, inf);
      HashesRep(linked.chains, linked.info, Elements(linked.app)) && Elements(linked.app) == Elements(st.app) + {x}
  {
    SpliceHolds(st.app, k, x);
    var linked := Link(st, k, x, inf);
    LinkKeepsChainsInv(st.app, st.info, st.chains, linked.app, x, inf);
    forall b, i | 0 <= b < |linked.chains| && 0 <= i < |linked.chains[b]|
      ensures linked.chains[b][i] in Elements(st.app) + {x}
    {
      assert linked.chains[b][i] in linked.chains[b];
    }
    forall y | y in Elements(st.app) + {x}
      ensures y.hashv == HashOf(linked.info, y)
    {
    }
  }

  // A bucket that overflows holds other items of the table.
  lemma OverflowingBucket(st: State, k: nat, x: Node, inf: Info)
    requires st.Full? && TableInv(st) && k <= |st.app|
    ensures MustExpand(Link(st, k, x, inf), ToBkt(inf.hashv, |st.chains|)) ==> st.app != []
  {
    var b := ToBkt(inf.hashv, |st.chains|);
    if MustExpand(Link(st, k, x, inf), b) {
      assert st.chains[b][0] in st.chains[b];
    }
  }

  // HASH_ADD_TO_TABLE without the filter: x is in the list already. When the expansion runs out
  // of memory everything is taken back.
  method PutInChain(t: Table, head: Node, x: Node, memory: bool,
                    ghost st: State, ghost linked: State, ghost k: nat, ghost b: nat)
    returns (oomed: bool, head': Node, ghost r: State)
    requires LinkedFrom(linked, st, k, x, b) && b == ToBkt(x.hashv, |st.chains|)
    requires ListRep(t, head, linked.app) && TableRep(t, st, Elements(st.app)) && x !in Elements(st.app)
    requires HashesRep(linked.chains, linked.info, Elements(linked.app)) && Elements(linked.app) == Elements(st.app) + {x}
    modifies t`numBuckets, t`log2NumBuckets, t`buckets, t`idealChainMaxlen, t`nonidealItems, t`ineffExpands, t`noexpand
    modifies t`numItems, t`tail, t.buckets
    modifies Elements(linked.app)`prev, Elements(linked.app)`next, Elements(linked.app)`hhPrev, Elements(linked.app)`hhNext
    ensures oomed == (MustExpand(linked, b) && !memory)
    ensures r == (if oomed then st else if MustExpand(linked, b) then Expand(linked) else linked)
    ensures r.Full? && ListRep(t, head', r.app) && TableRep(t, r, Elements(r.app))
    ensures !oomed ==> r.app == linked.app && r.info == linked.info && r.filter == linked.filter
    ensures t.buckets == old(t.buckets) || fresh(t.buckets)
    ensures oomed ==> t.buckets == old(t.buckets)
  {
    t.numItems := t.numItems + 1;
    var bkt := ToBkt(x.hashv, t.numBuckets);
    head' := head;
    oomed, r := AddToBkt(t, bkt, x, memory, st.chains, linked, Elements(st.app), Elements(linked.app));
    if oomed {
      head' := UndoLinks(t, head, x, st, linked.app, k, Elements(st.app));
      r := st;
    }
  }

  // HASH_BLOOM_ADD, when there is a filter.
  method BloomAdd(t: Table, hashv: U32, ghost head: Node?, ghost st: State) returns (ghost r: State)
    requires st.Full? && TableAndItems(t, head, st) && FilterRep(t, st.filter) && Separate(t)
    modifies if t.bloom == null then {} else {t.bloom.bv}
    ensures r == WithFilter(st, SetBit(st.filter, hashv))
    ensures r.Full? && TableAndItems(t, head, r) && FilterRep(t, r.filter)
  {
    r := WithFilter(st, SetBit(st.filter, hashv));
    if t.bloom != null {
      t.bloom.Add(hashv);
    }
  }

  // The handle of an element that could not be added points at no table.
  method Abandon(t: Table, x: Node, ghost head: Node?, ghost st: State)
    requires st.Full? && TableAndItems(t, head, st) && x !in st.app
    modifies x`tbl
    ensures TableAndItems(t, head, st) && x.tbl == null
  {
    x.tbl := null;
  }

  // All that is known about x, linked into the list of t at position k but not yet in bucket b.
  ghost predicate Ready(t: Table, x: Node, base: State, linked: State, k: nat, b: nat)
    reads x`hashv, linked.app, base.app
    requires base.Full? && linked.Full?
  {
    && LinkedFrom(linked, base, k, x, b) && b == ToBkt(x.hashv, |base.chains|)
    && x !in Elements(base.app) && Elements(linked.app) == Elements(base.app) + {x}
    && HashesRep(linked.chains, linked.info, Elements(linked.app))
    && HandlesRep(t, linked.app, linked.info) && HandlesRep(t, base.app, base.info)
    && linked.filter == base.filter
  }

  ghost function AfterPut(base: State, linked: State, b: nat, hashv: U32, memory: bool): (r: State)
    requires base.Full? && linked.Full? && b < |linked.chains| == |linked.mults|
    ensures r.Full?
  {
    if MustExpand(linked, b) && !memory then base
    else WithFilter(if MustExpand(linked, b) then Expand(linked) else linked, SetBit(base.filter, hashv))
  }

  // The same with what the handles hold.
  method PutReady(t: Table, head: Node, x: Node, memory: bool,
                  ghost base: State, ghost linked: State, ghost k: nat, ghost b: nat)
    returns (oomed: bool, head': Node, ghost r: State)
    requires base.Full? && linked.Full? && Ready(t, x, base, linked, k, b)
    requires ListRep(t, head, linked.app) && TableRep(t, base, Elements(base.app))
    modifies t`numBuckets, t`log2NumBuckets, t`buckets, t`idealChainMaxlen, t`nonidealItems, t`ineffExpands, t`noexpand
    modifies t`numItems, t`tail, t.buckets
    modifies Elements(linked.app)`prev, Elements(linked.app)`next, Elements(linked.app)`hhPrev, Elements(linked.app)`hhNext
    ensures oomed == (MustExpand(linked, b) && !memory)
    ensures r == (if oomed then base else if MustExpand(linked, b) then Expand(linked) else linked)
    ensures r.Full? && TableAndItems(t, head', r) && r.filter == base.filter
    ensures t.buckets == old(t.buckets) || fresh(t.buckets)
    ensures oomed ==> t.buckets == old(t.buckets)
  {
    oomed, head', r := PutInChain(t, head, x, memory, base, linked, k, b);
  }

  // The same beside the filter, which it does not touch.
  method PutBesideFilter(t: Table, head: Node, x: Node, memory: bool,
                         ghost base: State, ghost linked: State, ghost k: nat, ghost b: nat)
    returns (oomed: bool, head': Node, ghost r: State)
    requires base.Full? && linked.Full? && Ready(t, x, base, linked, k, b)
    requires ListRep(t, head, linked.app) && TableRep(t, base, Elements(base.app))
    requires FilterRep(t, base.filter) && Separate(t)
    modifies t`numBuckets, t`log2NumBuckets, t`buckets, t`idealChainMaxlen, t`nonidealItems, t`ineffExpands, t`noexpand
    modifies t`numItems, t`tail, t.buckets
    modifies Elements(linked.app)`prev, Elements(linked.app)`next, Elements(linked.app)`hhPrev, Elements(linked.app)`hhNext
    ensures oomed == (MustExpand(linked, b) && !memory)
    ensures r.Full? && TableAndItems(t, head', r) && FilterRep(t, r.filter) && Separate(t)
    ensures AfterPut(base, linked, b, x.hashv, memory) ==
            if oomed then r else WithFilter(r, SetBit(r.filter, x.hashv))
    ensures oomed ==> x !in r.app && t.buckets == old(t.buckets)
    ensures t.bloom == old(t.bloom) && x.hashv == old(x.hashv)
    ensures t.buckets == old(t.buckets) || fresh(t.buckets)
  {
    oomed, head', r := PutReady(t, head, x, memory, base, linked, k, b);
  }

  // The end of HASH_ADD_TO_TABLE: the filter, or the handle of an element that was not added.
  method FinishPut(t: Table, x: Node, oomed: bool, ghost head: Node?, ghost r: State, ghost after: State)
    requires r.Full? && TableAndItems(t, head, r) && FilterRep(t, r.filter) && Separate(t)
    requires after == if oomed then r else WithFilter(r, SetBit(r.filter, x.hashv))
    requires oomed ==> x !in r.app
    modifies x`tbl, if t.bloom == null then {} else {t.bloom.bv}
    ensures after.Full? && TableAndItems(t, head, after) && FilterRep(t, after.filter) && Separate(t)
    ensures oomed ==> x.tbl == null
    ensures t.buckets == old(t.buckets) && t.bloom == old(t.bloom)
  {
    if oomed {
      Abandon(t, x, head, r);
    } else {
      ghost var _ := BloomAdd(t, x.hashv, head, r);
    }
  }

  // HASH_ADD_TO_TABLE.
  method PutInTable(t: Table, head: Node, x: Node, memory: bool,
                    ghost base: State, ghost linked: State, ghost k: nat, ghost b: nat, ghost after: State)
    returns (oomed: bool, head': Node)
    requires base.Full? && linked.Full? && Ready(t, x, base, linked, k, b)
    requires ListRep(t, head, linked.app) && TableRep(t, base, Elements(base.app))
    requires FilterRep(t, base.filter) && Separate(t)
    requires after == AfterPut(base, linked, b, x.hashv, memory)
    modifies t, t.buckets, Elements(linked.app), if t.bloom == null then {} else {t.bloom.bv}
    ensures oomed == (MustExpand(linked, b) && !memory)
    ensures after.Full? && TableAndItems(t, head', after) && FilterRep(t, after.filter) && Separate(t)
    ensures oomed ==> x.tbl == null && t.buckets == old(t.buckets)
    ensures t.buckets == old(t.buckets) || fresh(t.buckets)
    ensures t.bloom == old(t.bloom)
  {
    ghost var r;
    oomed, head', r := PutBesideFilter(t, head, x, memory, base, linked, k, b);
    FinishPut(t, x, oomed, head', r, after);
  }

  // Whether HASH_BLOOM is defined, and as what.
  datatype BloomConfig = NoBloom | HashBloom(nbits: nat)

  // HASH_MAKE_TABLE.
  method MakeTable(x: Node, config: BloomConfig, memory: bool) returns (oomed: bool, t: Table?)
    modifies x`tbl
    ensures oomed == !memory && (oomed ==> t == null)
    ensures !oomed ==>
      && t != null && fresh(t) && fresh(t.buckets) && x.tbl == t && t.tail == x
      && TableRep(t, NewTable(StartFilter(config)), {})
      && FilterRep(t, StartFilter(config)) && Separate(t)
      && (t.bloom != null ==> fresh(t.bloom) && fresh(t.bloom.bv))
  {
    if !memory {
      return true, null;
    }
    var bloom: Bloom? := null;
    if config.HashBloom? {
      bloom := new Bloom(config.nbits);
    }
    t := new Table(x, bloom);
    x.tbl := t;
    oomed := false;
  }

  ghost function FilterBytes(t: Table): set<object>
    reads t`bloom
  {
    if t.bloom == null then {} else {t.bloom.bv}
  }

  ghost function StartFilter(config: BloomConfig): Filter {
    if config.HashBloom? then Filter(config.nbits, {}) else NoFilter
  }

  // An element whose handle is filled in is ready once the list has it.
  lemma LinkIsReady(t: Table, st: State, k: nat, x: Node, inf: Info, memory: bool)
    requires st.Full? && TableInv(st) && k <= |st.app| && x !in st.app && HandlesRep(t, st.app, st.info)
    requires x.tbl == t && inf == Info(x.key, x.hashv)
    ensures var linked := Link(st, k, x, inf); var b := ToBkt(inf.hashv, |st.chains|);
      && Ready(t, x, st, linked, k, b) && linked.app == Splice(st.app, k, x)
      && AddToTable(st, k, x, inf, Memory(true, memory)) ==
         Outcome(AfterPut(st, linked, b, inf.hashv, memory), MustExpand(linked, b) && !memory)
      && Inv(AfterPut(st, linked, b, inf.hashv, memory))
  {
    SpliceHolds(st.app, k, x);
    LinkIsLinkedFrom(t, st, k, x, inf);
    AddToTableKeepsInv(st, k, x, inf, Memory(true, memory));
    OverflowingBucket(st, k, x, inf);
  }

  // ---------- a table, seen from the caller's head pointer ----------

  ghost function Owned(head: Node?): set<object>
    reads head, if head == null then null else head.tbl
  {
    if head == null || head.tbl == null then {} else
    var own: set<object> := {head.tbl as object, head.tbl.buckets as object};
    own + FilterBytes(head.tbl)
  }

  // head points at a table with the value st; NULL is the empty one.
  ghost predicate Rep(head: Node?, st: State)
    reads head, if head == null then null else head.tbl, Owned(head), Items(st)
  {
    if st.Empty? then head == null
    else
      && head != null && head.tbl != null && TableAndItems(head.tbl, head, st)
      && FilterRep(head.tbl, st.filter) && Separate(head.tbl)
  }

  // The list of t has x at position k already; the rest is still that of base.
  ghost predicate Enlisted(t: Table, first: Node, x: Node, base: State, k: nat)
    requires base.Full? && k <= |base.app|
    reads t, t.buckets, x`tbl, x`prev, x`next, base.app, FilterBytes(t)
  {
    && x.tbl == t && ListRep(t, first, Splice(base.app, k, x))
    && HandlesRep(t, base.app, base.info) && TableRep(t, base, Elements(base.app))
    && FilterRep(t, base.filter) && Separate(t)
  }

  // The end of HASH_ADD and HASH_ADD_INORDER.
  method FinishAdd(t: Table, first: Node, x: Node, memory: bool, ghost base: State, ghost k: nat, ghost inf: Info)
    returns (oomed: bool, head': Node, ghost r: State)
    requires base.Full? && TableInv(base) && k <= |base.app| && x !in base.app
    requires inf == Info(x.key, x.hashv) && Enlisted(t, first, x, base, k)
    modifies t, t.buckets, base.app, x, if t.bloom == null then {} else {t.bloom.bv}
    ensures Outcome(r, oomed) == AddToTable(base, k, x, inf, Memory(true, memory))
    ensures Rep(head', r) && Inv(r) && head'.tbl == t
    ensures oomed ==> x.tbl == null && t.buckets == old(t.buckets)
    ensures t.buckets == old(t.buckets) || fresh(t.buckets)
    ensures t.bloom == old(t.bloom)
  {
    ghost var linked, b := Link(base, k, x, inf), ToBkt(inf.hashv, |base.chains|);
    LinkIsReady(t, base, k, x, inf, memory);
    r := AfterPut(base, linked, b, x.hashv, memory);
    oomed, head' := PutInTable(t, first, x, memory, base, linked, k, b, r);
  }

  // The first add makes the table, with x alone in its list.
  method StartTable(x: Node, memory: bool, config: BloomConfig) returns (oomed: bool, t: Table?)
    modifies x`tbl, x`prev, x`next
    ensures oomed == !memory
    ensures oomed ==> x.tbl == null
    ensures !oomed ==>
      && t != null && fresh(t) && fresh(t.buckets) && x.tbl == t && fresh(FilterBytes(t))
      && ListRep(t, x, Splice([], 0, x)) && TableRep(t, NewTable(StartFilter(config)), Elements([]))
      && FilterRep(t, StartFilter(config)) && Separate(t)
  {
    x.next := null;
    x.prev := null;
    oomed, t := MakeTable(x, config, memory);
    if oomed {
      x.tbl := null;
    } else {
      assert Splice([], 0, x) == [x];
      assert Elements([]) == {};
    }
  }

  // Everything the table consists of, beside its items, is new.
  twostate predicate NewlyMade(new t: Table)
    reads t
  {
    fresh(t) && fresh(t.buckets) && (t.bloom != null ==> fresh(t.bloom.bv))
  }

  // The table is the same object, possibly with new buckets.
  twostate predicate SameTable(t: Table)
    reads t
  {
    (t.buckets == old(t.buckets) || fresh(t.buckets)) && t.bloom == old(t.bloom)
  }

  method AddFirst(x: Node, memory: Memory, config: BloomConfig) returns (head': Node?, oomed: bool, ghost st': State)
    modifies x
    ensures Outcome(st', oomed) == AddAt(Empty, 0, x, Info(old(x.key), old(x.hashv)), memory, StartFilter(config))
    ensures Rep(head', st') && Inv(st')
    ensures if oomed then head' == null && x.tbl == null else head' == x && NewlyMade(x.tbl)
    ensures fresh(Owned(head'))
  {
    ghost var base, inf := NewTable(StartFilter(config)), Info(x.key, x.hashv);
    var t;
    oomed, t := StartTable(x, memory.table, config);
    if oomed {
      return null, true, Empty;
    }
    NewTableInv(StartFilter(config));
    oomed, head', st' := FinishAdd(t, x, x, memory.buckets, base, 0, inf);
  }

  // The element's handle is pointed at the table.
  method Attach(head: Node, x: Node, ghost st: State) returns (t: Table)
    requires st.Full? && Rep(head, st) && x !in st.app
    modifies x`tbl
    ensures t == head.tbl && x.tbl == t && TableAndItems(t, head, st)
  {
    t := head.tbl;
    x.tbl := t;
  }

  // HASH_ADD's part on the list of an existing table.
  method Enlist(head: Node, x: Node, ghost st: State) returns (t: Table)
    requires st.Full? && Rep(head, st) && Distinct(st.app) && x !in st.app
    modifies x`tbl, x`prev, x`next, st.app`next, head.tbl`tail
    ensures t == old(head.tbl) && Enlisted(t, head, x, st, |st.app|)
  {
    t := Attach(head, x, st);
    AppendList(t, head, x, st.app);
  }

  method InsertBeside(t: Table, head: Node, x: Node, cmp: Compare<Node>, ghost st: State, ghost k: nat) returns (first: Node)
    requires st.Full? && TableAndItems(t, head, st) && Distinct(st.app) && x !in st.app
    requires k == InsertPos(cmp, st.app, x)
    modifies x`prev, x`next, st.app`prev, st.app`next, t`tail
    ensures ListRep(t, first, Splice(st.app, k, x))
    ensures HandlesRep(t, st.app, st.info) && TableRep(t, st, Elements(st.app))
  {
    first := InsertInOrder(t, head, x, cmp, st.app);
  }

  // HASH_ADD_INORDER's part on the list of an existing table.
  method EnlistInOrder(head: Node, x: Node, cmp: Compare<Node>, ghost st: State) returns (t: Table, first: Node)
    requires st.Full? && Rep(head, st) && Distinct(st.app) && x !in st.app
    modifies x`tbl, x`prev, x`next, st.app`prev, st.app`next, head.tbl`tail
    ensures t == old(head.tbl) && Enlisted(t, first, x, st, InsertPos(cmp, st.app, x))
  {
    t := Attach(head, x, st);
    first := InsertBeside(t, head, x, cmp, st, InsertPos(cmp, st.app, x));
  }

  method AddLast(head: Node, x: Node, memory: Memory, ghost st: State) returns (head': Node, oomed: bool, ghost st': State)
    requires st.Full? && Rep(head, st) && TableInv(st) && x !in st.app
    modifies x, st.app, Owned(head)
    ensures Outcome(st', oomed) == AddToTable(st, |st.app|, x, Info(old(x.key), old(x.hashv)), Memory(true, memory.buckets))
    ensures Rep(head', st') && Inv(st') && (oomed ==> x.tbl == null)
    ensures head'.tbl == old(head.tbl) && SameTable(old(head.tbl))
    ensures fresh(Owned(head') - old(Owned(head)))
  {
    var t := Enlist(head, x, st);
    oomed, head', st' := FinishAdd(t, head, x, memory.buckets, st, |st.app|, Info(x.key, x.hashv));
  }

  method AddSorted(head: Node, x: Node, cmp: Compare<Node>, memory: Memory, ghost st: State)
    returns (head': Node, oomed: bool, ghost st': State)
    requires st.Full? && Rep(head, st) && TableInv(st) && x !in st.app
    modifies x, st.app, Owned(head)
    ensures Outcome(st', oomed) ==
            AddToTable(st, InsertPos(cmp, st.app, x), x, Info(old(x.key), old(x.hashv)), Memory(true, memory.buckets))
    ensures Rep(head', st') && Inv(st') && (oomed ==> x.tbl == null)
    ensures head'.tbl == old(head.tbl) && SameTable(old(head.tbl))
    ensures fresh(Owned(head') - old(Owned(head)))
  {
    var t, first := EnlistInOrder(head, x, cmp, st);
    oomed, head', st' := FinishAdd(t, first, x, memory.buckets, st, InsertPos(cmp, st.app, x), Info(x.key, x.hashv));
  }

  method FillHandle(head: Node?, x: Node, key: Key, hashv: U32, ghost st: State)
    requires Rep(head, st) && x !in Items(st)
    modifies x`key, x`hashv
    ensures Rep(head, st) && x.key == key && x.hashv == hashv
  {
    x.hashv := hashv;
    x.key := key;
  }

  // An add brings in no item but its own.
  lemma AddItems(st: State, k: nat, x: Node, inf: Info, memory: Memory, filter: Filter)
    requires Shaped(st) && (st.Full? ==> k <= |st.app|)
    ensures forall y :: y in Items(AddAt(st, k, x, inf, memory, filter).st) ==> y == x || y in Items(st)
  {
  }

  // HASH_ADD_KEYPTR_BYHASHVALUE.
  method HashAdd(head: Node?, x: Node, key: Key, hashv: U32, memory: Memory, config: BloomConfig, ghost st: State)
    returns (head': Node?, oomed: bool, ghost st': State)
    requires Rep(head, st) && Inv(st) && x !in Items(st)
    modifies x, Items(st), Owned(head)
    ensures Outcome(st', oomed) == Add(st, x, Info(key, hashv), memory, StartFilter(config))
    ensures Rep(head', st') && Inv(st') && (oomed ==> x.tbl == null)
    ensures oomed ==> st' == st && head' == head
    ensures fresh(Owned(head') - old(Owned(head)))
    ensures if head == null then head' != null ==> NewlyMade(head'.tbl)
            else head' != null && head'.tbl == old(head.tbl) && SameTable(old(head.tbl))
  {
    FillHandle(head, x, key, hashv, st);
    if head == null {
      head', oomed, st' := AddFirst(x, memory, config);
    } else {
      head', oomed, st' := AddLast(head, x, memory, st);
    }
  }

  // HASH_ADD_KEYPTR_BYHASHVALUE_INORDER.
  method HashAddInOrder(head: Node?, x: Node, key: Key, hashv: U32, cmp: Compare<Node>, memory: Memory, config: BloomConfig, ghost st: State)
    returns (head': Node?, oomed: bool, ghost st': State)
    requires Rep(head, st) && Inv(st) && x !in Items(st)
    modifies x, Items(st), Owned(head)
    ensures Outcome(st', oomed) == AddInOrder(st, x, Info(key, hashv), cmp, memory, StartFilter(config))
    ensures Rep(head', st') && Inv(st') && (oomed ==> x.tbl == null)
    ensures oomed ==> st' == st && head' == head
    ensures fresh(Owned(head') - old(Owned(head)))
    ensures if head == null then head' != null ==> NewlyMade(head'.tbl)
            else head' != null && head'.tbl == old(head.tbl) && SameTable(old(head.tbl))
  {
    FillHandle(head, x, key, hashv, st);
    if head == null {
      head', oomed, st' := AddFirst(x, memory, config);
    } else {
      head', oomed, st' := AddSorted(head, x, cmp, memory, st);
    }
  }

  // ---------- HASH_FIND ----------

  // HASH_FIND_IN_BKT.
  method FindInBkt(hhHead: Node?, key: Key, hashv: U32, ghost chain: seq<Node>, ghost info: map<Node, Info>) returns (out: Node?)
    requires hhHead == At(chain, 0)
    requires forall i {:trigger chain[i].hhNext} :: 0 <= i < |chain| ==> chain[i].hhNext == At(chain, i + 1)
    requires forall i {:trigger chain[i].key} :: 0 <= i < |chain| ==> chain[i] in info && info[chain[i]] == Info(chain[i].key, chain[i].hashv)
    ensures out == FirstMatch(chain, info, key, hashv)
  {
    out := hhHead;
    ghost var i: nat := 0;
    assert chain[0..] == chain;
    while out != null
      invariant i <= |chain| && out == At(chain, i)
      invariant FirstMatch(chain[i..], info, key, hashv) == FirstMatch(chain, info, key, hashv)
      decreases |chain| - i
    {
      assert out == chain[i] == chain[i..][0];
      assert chain[i].key == out.key;
      assert info[out] == Info(out.key, out.hashv);
      if out.hashv == hashv && out.key == key {
        break;
      }
      assert chain[i..][1..] == chain[i + 1..];
      out := out.hhNext;
      i := i + 1;
    }
  }

  // HASH_FIND_BYHASHVALUE.
  method HashFind(head: Node?, key: Key, hashv: U32, ghost st: State) returns (out: Node?)
    requires Rep(head, st) && Inv(st)
    ensures out == Find(st, key, hashv)
  {
    if head == null {
      return null;
    }
    var t := head.tbl;
    var bkt := ToBkt(hashv, t.numBuckets);
    var may := true;
    if t.bloom != null {
      may := t.bloom.Test(hashv);
    }
    out := null;
    if may {
      ghost var chain := st.chains[bkt];
      forall i | 0 <= i < |chain|
        ensures chain[i] in st.app
      {
        assert chain[i] in chain;
      }
      out := FindInBkt(t.buckets[bkt].hhHead, key, hashv, chain, st.info);
    }
  }

  // ---------- HASH_DELETE ----------

  // What deleting x does to the chains, by position.
  lemma WithoutAt(s: seq<Node>, x: Node) returns (k: nat)
    requires x in s
    ensures k < |s| && s[k] == x && Without(s, x) == s[..k] + s[k + 1..]
  {
    k := IndexOf(s, x);
  }

  // Only a single item has no neighbour.
  lemma AloneInList(t: Table, head: Node, s: seq<Node>, x: Node)
    requires ListRep(t, head, s) && x in s && Distinct(s)
    ensures x.prev == null && x.next == null <==> |s| == 1
  {
    var k :| 0 <= k < |s| && s[k] == x;
  }

  // r is st without x, which is item k of the list and item j of chain b.
  ghost predicate UnlinkedFrom(r: State, st: State, x: Node, k: nat, b: nat, j: nat) {
    && st.Full? && r.Full? && Distinct(st.app) && k < |st.app| && st.app[k] == x && |st.app| > 1
    && Apart(st.chains) && b < |st.chains| && j < |st.chains[b]| && st.chains[b][j] == x
    && r == st.(app := r.app, info := r.info, chains := r.chains)
    && r.app == st.app[..k] + st.app[k + 1..]
    && r.chains == st.chains[b := st.chains[b][..j] + st.chains[b][j + 1..]]
    && Elements(r.app) == Elements(st.app) - {x}
  }

  lemma DeleteIsUnlinkedFrom(st: State, x: Node) returns (r: State, k: nat, b: nat, j: nat)
    requires st.Full? && TableInv(st) && x in st.app && |st.app| > 1
    ensures r == Delete(st, x) && UnlinkedFrom(r, st, x, k, b, j) && b == ToBkt(HashOf(st.info, x), |st.chains|)
    ensures r.info == st.info - {x} && Apart(r.chains)
  {
    r := Delete(st, x);
    b := ToBkt(HashOf(st.info, x), |st.chains|);
    assert x in st.chains[b];
    k := WithoutAt(st.app, x);
    j := WithoutAt(st.chains[b], x);
    ChainsApart(st.app, st.info, st.chains);
    WithoutHolds(st.app, x);
    UnlinkKeepsChainsInv(st.app, st.info, st.chains, r.app, x);
    ChainsApart(r.app, r.info, r.chains);
  }

  method DeleteLinks(t: Table, head: Node, x: Node, ghost st: State, ghost r: State, ghost k: nat, ghost b: nat, ghost j: nat)
    returns (head': Node)
    requires UnlinkedFrom(r, st, x, k, b, j) && Apart(r.chains) && b == ToBkt(x.hashv, |st.chains|)
    requires ListRep(t, head, st.app) && TableRep(t, st, Elements(st.app))
    modifies t`tail, t`numItems, t.buckets, st.app`prev, st.app`next, st.app`hhPrev, st.app`hhNext
    ensures ListRep(t, head', r.app) && TableRep(t, r, Elements(r.app))
  {
    HashBuckets.WithoutAt(st.chains[b], j);
    head' := RemoveItem(t, head, x, st.app, k, b, j, r.chains[b], st.chains, st.mults, Elements(st.app));
  }

  // The same with what the handles hold.
  method DeleteReady(t: Table, head: Node, x: Node, ghost st: State, ghost r: State, ghost k: nat, ghost b: nat, ghost j: nat)
    returns (head': Node)
    requires UnlinkedFrom(r, st, x, k, b, j) && Apart(r.chains) && b == ToBkt(x.hashv, |st.chains|)
    requires TableAndItems(t, head, st) && HandlesRep(t, r.app, r.info)
    modifies t`tail, t`numItems, t.buckets, st.app`prev, st.app`next, st.app`hhPrev, st.app`hhNext
    ensures TableAndItems(t, head', r) && t.buckets == old(t.buckets) && t.bloom == old(t.bloom)
  {
    head' := DeleteLinks(t, head, x, st, r, k, b, j);
  }

  // The same beside the filter, which it does not touch.
  method DeleteBesideFilter(t: Table, head: Node, x: Node, ghost st: State, ghost r: State, ghost k: nat, ghost b: nat, ghost j: nat)
    returns (head': Node)
    requires UnlinkedFrom(r, st, x, k, b, j) && Apart(r.chains) && b == ToBkt(x.hashv, |st.chains|)
    requires TableAndItems(t, head, st) && HandlesRep(t, r.app, r.info) && FilterRep(t, st.filter) && Separate(t)
    modifies t`tail, t`numItems, t.buckets, st.app`prev, st.app`next, st.app`hhPrev, st.app`hhNext
    ensures TableAndItems(t, head', r) && FilterRep(t, r.filter) && Separate(t)
    ensures t.buckets == old(t.buckets) && t.bloom == old(t.bloom) && head' in Elements(r.app)
  {
    head' := DeleteReady(t, head, x, st, r, k, b, j);
  }

  // HASH_DELETE_HH for an element that has a neighbour.
  method DeleteOne(t: Table, head: Node, x: Node, ghost st: State, ghost r: State, ghost k: nat, ghost b: nat, ghost j: nat)
    returns (head': Node)
    requires UnlinkedFrom(r, st, x, k, b, j) && Apart(r.chains) && b == ToBkt(x.hashv, |st.chains|)
    requires TableAndItems(t, head, st) && HandlesRep(t, r.app, r.info) && FilterRep(t, st.filter) && Separate(t)
    requires head.tbl == t && forall y :: y in r.app ==> y.tbl == t
    modifies t`tail, t`numItems, t.buckets, st.app`prev, st.app`next, st.app`hhPrev, st.app`hhNext
    ensures Rep(head', r) && head'.tbl == t && Owned(head') == old(Owned(head))
  {
    head' := DeleteBesideFilter(t, head, x, st, r, k, b, j);
  }

  lemma KeptHandles(t: Table, st: State, r: State, x: Node)
    requires st.Full? && r.Full? && HandlesRep(t, st.app, st.info) && x in st.app
    requires r.info == st.info - {x} && Elements(r.app) == Elements(st.app) - {x}
    ensures HandlesRep(t, r.app, r.info) && x.hashv == HashOf(st.info, x)
  {
    assert forall y :: y in r.app ==> y in Elements(r.app);
  }

  method DeleteMember(head: Node, x: Node, ghost st: State) returns (head': Node, ghost st': State)
    requires Rep(head, st) && st.Full? && TableInv(st) && x in st.app && |st.app| > 1
    modifies st.app, Owned(head)
    ensures st' == Delete(st, x) && Rep(head', st')
    ensures head'.tbl == old(head.tbl) && Owned(head') == old(Owned(head))
  {
    ghost var k, b, j;
    st', k, b, j := DeleteIsUnlinkedFrom(st, x);
    KeptHandles(head.tbl, st, st', x);
    head' := DeleteOne(head.tbl, head, x, st, st', k, b, j);
  }

  // HASH_DELETE_HH.
  method HashDelete(head: Node, x: Node, ghost st: State) returns (head': Node?, ghost st': State)
    requires Rep(head, st) && Inv(st) && st.Full? && x in st.app
    modifies st.app, Owned(head)
    ensures st' == Delete(st, x) && Rep(head', st') && Inv(st')
    ensures Owned(head') <= old(Owned(head))
  {
    DeleteKeepsInv(st, x);
    AloneInList(head.tbl, head, st.app, x);
    if x.prev == null && x.next == null {
      head', st' := null, Empty;
    } else {
      head', st' := DeleteMember(head, x, st);
    }
  }
}
