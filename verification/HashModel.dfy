// A uthash table as a value: what the list and the chains hold, without pointers. The methods
// of the other modules are proved to act on the heap as these functions act on the value.
module HashModel {
  import opened Sequences
  import opened StableSort
  import opened Bytes
  import opened HashBits
  import opened HashTypes

  // What HASH_ADD stores in the handle.
  datatype Info = Info(key: Key, hashv: U32)

  // The optional Bloom filter (HASH_BLOOM): its size and the bits that are set.
  datatype Filter = NoFilter | Filter(nbits: nat, bits: set<nat>)

  // Empty is the NULL head: there is no table.
  datatype State =
    | Empty
    | Full(app: seq<Node>, info: map<Node, Info>,
           chains: seq<seq<Node>>, mults: seq<nat>, log2: nat,
           ideal: nat, nonideal: nat, ineff: nat, noexpand: bool,
           filter: Filter)

  ghost function HashOf(info: map<Node, Info>, x: Node): U32 {
    if x in info then info[x].hashv else 0
  }

  // ---------- the invariant ----------

  ghost predicate SameDomain(app: seq<Node>, info: map<Node, Info>) {
    && (forall x :: x in app ==> x in info)
    && (forall x :: x in info ==> x in app)
  }

  // The chains hold exactly the items of app, each once, in the bucket of its hash value.
  ghost predicate ChainsInv(app: seq<Node>, info: map<Node, Info>, chains: seq<seq<Node>>) {
    && |chains| > 0
    && (forall b :: 0 <= b < |chains| ==> Distinct(chains[b]))
    && (forall b, x {:trigger x in chains[b]} :: 0 <= b < |chains| && x in chains[b] ==> x in app && ToBkt(HashOf(info, x), |chains|) == b)
    && (forall x :: x in app ==> x in chains[ToBkt(HashOf(info, x), |chains|)])
  }

  ghost predicate FilterInv(app: seq<Node>, info: map<Node, Info>, filter: Filter) {
    filter.Filter? ==> forall x :: x in app ==> ToBkt(HashOf(info, x), Pow2(filter.nbits)) in filter.bits
  }

  // A table that may just have been made, with nothing in it yet.
  ghost predicate TableInv(st: State)
    requires st.Full?
  {
    && Distinct(st.app) && SameDomain(st.app, st.info)
    && |st.chains| == |st.mults| == Pow2(st.log2)
    && ChainsInv(st.app, st.info, st.chains)
    && FilterInv(st.app, st.info, st.filter)
    && st.ineff <= 2 && (st.noexpand <==> st.ineff > 1)
  }

  ghost predicate Inv(st: State) {
    st.Full? ==> st.app != [] && TableInv(st)
  }

  // ---------- expansion ----------

  // The new buckets while HASH_EXPAND_BUCKETS fills them.
  datatype Dist = Dist(chains: seq<seq<Node>>, mults: seq<nat>, nonideal: nat)

  // One item is put at the head of new bucket c.
  ghost function PlaceOne(d: Dist, x: Node, c: nat, ideal: nat): (r: Dist)
    requires c < |d.chains| == |d.mults|
    ensures |r.chains| == |r.mults| == |d.chains|
  {
    var count := |d.chains[c]| + 1;
    Dist(d.chains[c := [x] + d.chains[c]],
         if count > ideal && count > d.mults[c] * ideal then d.mults[c := d.mults[c] + 1] else d.mults,
         if count > ideal then d.nonideal + 1 else d.nonideal)
  }

  // The items from position j of chain i on are put into the new buckets, in order.
  ghost function PlaceFrom(info: map<Node, Info>, chains: seq<seq<Node>>, i: nat, j: nat, ideal: nat, d: Dist): (r: Dist)
    requires |d.chains| == |d.mults| == 2 * |chains| && i <= |chains|
    requires i < |chains| ==> j <= |chains[i]|
    ensures |r.chains| == |r.mults| == |d.chains|
    decreases |chains| - i, if i < |chains| then |chains[i]| - j else 0
  {
    if i == |chains| then d
    else if j == |chains[i]| then PlaceFrom(info, chains, i + 1, 0, ideal, d)
    else
      var x := chains[i][j];
      PlaceFrom(info, chains, i, j + 1, ideal, PlaceOne(d, x, ToBkt(HashOf(info, x), 2 * |chains|), ideal))
  }

  ghost function NoItems(n: nat): (d: Dist)
    ensures |d.chains| == |d.mults| == n
  {
    Dist(seq(n, _ => []), seq(n, _ => 0), 0)
  }

  // All chains emptied into twice as many buckets.
  ghost function Redistribute(info: map<Node, Info>, chains: seq<seq<Node>>, ideal: nat): (r: Dist)
    ensures |r.chains| == |r.mults| == 2 * |chains|
  {
    PlaceFrom(info, chains, 0, 0, ideal, NoItems(2 * |chains|))
  }

  // ideal_chain_maxlen: (n >> lb) + ((n & (b - 1)) ? 1 : 0), for b buckets, which are 2^lb.
  function IdealLength(n: nat, lb: nat, b: nat): nat
    requires b > 0
  {
    n / Pow2(lb) + if LowBits(n, b) != 0 then 1 else 0
  }

  ghost function Expand(st: State): (r: State)
    requires st.Full? && |st.chains| == |st.mults| > 0
    ensures r.Full?
  {
    var ideal := IdealLength(|st.app|, st.log2 + 1, 2 * |st.chains|);
    var d := Redistribute(st.info, st.chains, ideal);
    var ineff := if d.nonideal > |st.app| / 2 then st.ineff + 1 else 0;
    st.(chains := d.chains, mults := d.mults, log2 := st.log2 + 1, ideal := ideal, nonideal := d.nonideal,
        ineff := ineff, noexpand := st.noexpand || ineff > 1)
  }

  // ---------- the other operations ----------

  // Which allocations succeed during one add (HASH_NONFATAL_OOM): the table with its first
  // buckets, and a doubled bucket array.
  datatype Memory = Memory(table: bool, buckets: bool)

  datatype Outcome = Outcome(st: State, oomed: bool)

  ghost function SetBit(filter: Filter, hashv: nat): Filter {
    match filter
    case NoFilter => NoFilter
    case Filter(nbits, bits) => Filter(nbits, bits + {ToBkt(hashv, Pow2(nbits))})
  }

  // The table HASH_MAKE_TABLE makes.
  ghost function NewTable(filter: Filter): (r: State)
    ensures r.Full?
  {
    Full([], map[], seq(INITIAL_NUM_BUCKETS, _ => []), seq(INITIAL_NUM_BUCKETS, _ => 0),
         INITIAL_NUM_BUCKETS_LOG2, 0, 0, 0, false, filter)
  }

  ghost function Splice<T>(s: seq<T>, k: nat, x: T): seq<T>
    requires k <= |s|
  {
    s[..k] + [x] + s[k..]
  }

  // x is linked into the list at position k and put at the head of its bucket.
  ghost function Link(st: State, k: nat, x: Node, inf: Info): State
    requires st.Full? && k <= |st.app| && |st.chains| > 0
  {
    var b := ToBkt(inf.hashv, |st.chains|);
    st.(app := Splice(st.app, k, x), info := st.info[x := inf], chains := st.chains[b := [x] + st.chains[b]])
  }

  // The test of HASH_ADD_TO_BKT.
  ghost predicate MustExpand(st: State, b: nat)
    requires st.Full? && b < |st.chains| == |st.mults|
  {
    |st.chains[b]| >= (st.mults[b] + 1) * BKT_CAPACITY_THRESH && !st.noexpand
  }

  // Adding x at position k of the list of a table. A failed allocation leaves it as it was.
  ghost function AddToTable(st: State, k: nat, x: Node, inf: Info, memory: Memory): Outcome
    requires st.Full? && k <= |st.app| && |st.chains| == |st.mults| > 0
  {
    var linked := Link(st, k, x, inf);
    if !MustExpand(linked, ToBkt(inf.hashv, |st.chains|)) then
      Outcome(linked.(filter := SetBit(linked.filter, inf.hashv)), false)
    else if memory.buckets then
      var grown := Expand(linked);
      Outcome(grown.(filter := SetBit(grown.filter, inf.hashv)), false)
    else
      Outcome(st, true)
  }

  // Every bucket has its multiplier.
  ghost predicate Shaped(st: State) {
    st.Full? ==> |st.chains| == |st.mults| > 0
  }

  // The same when there may be no table yet.
  ghost function AddAt(st: State, k: nat, x: Node, inf: Info, memory: Memory, filter: Filter): Outcome
    requires Shaped(st) && (st.Full? ==> k <= |st.app|)
  {
    if st.Full? then AddToTable(st, k, x, inf, memory)
    else if memory.table then AddToTable(NewTable(filter), 0, x, inf, memory)
    else Outcome(Empty, true)
  }

  // HASH_ADD appends.
  ghost function Add(st: State, x: Node, inf: Info, memory: Memory, filter: Filter): Outcome
    requires Shaped(st)
  {
    AddAt(st, if st.Full? then |st.app| else 0, x, inf, memory, filter)
  }

  // The first position whose element compares greater than x, or the end of the list.
  ghost function InsertPos(cmp: Compare<Node>, s: seq<Node>, x: Node): (k: nat)
    ensures k <= |s|
  {
    if s == [] || cmp(s[0], x) > 0 then 0 else 1 + InsertPos(cmp, s[1..], x)
  }

  // HASH_ADD_INORDER.
  ghost function AddInOrder(st: State, x: Node, inf: Info, cmp: Compare<Node>, memory: Memory, filter: Filter): Outcome
    requires Shaped(st)
  {
    AddAt(st, if st.Full? then InsertPos(cmp, st.app, x) else 0, x, inf, memory, filter)
  }

  ghost function IndexOf<T>(s: seq<T>, x: T): (k: nat)
    ensures k <= |s| && (k < |s| ==> s[k] == x) && forall i :: 0 <= i < k ==> s[i] != x
  {
    if s == [] || s[0] == x then 0 else 1 + IndexOf(s[1..], x)
  }

  ghost function Without<T>(s: seq<T>, x: T): seq<T> {
    var k := IndexOf(s, x);
    if k < |s| then s[..k] + s[k + 1..] else s
  }

  // HASH_DELETE: the last item takes the table with it.
  ghost function Delete(st: State, x: Node): State
    requires st.Full? && |st.chains| > 0
  {
    if |st.app| == 1 then Empty else
    var b := ToBkt(HashOf(st.info, x), |st.chains|);
    st.(app := Without(st.app, x), info := st.info - {x}, chains := st.chains[b := Without(st.chains[b], x)])
  }

  // The first element of s with this key.
  ghost function Scan(s: seq<Node>, info: map<Node, Info>, key: Key): Node? {
    if s == [] then null
    else if s[0] in info && info[s[0]].key == key then s[0]
    else Scan(s[1..], info, key)
  }

  // HASH_FIND_IN_BKT: the first element of the chain with this hash value and key.
  ghost function FirstMatch(chain: seq<Node>, info: map<Node, Info>, key: Key, hashv: U32): Node? {
    if chain == [] then null
    else if chain[0] in info && info[chain[0]] == Info(key, hashv) then chain[0]
    else FirstMatch(chain[1..], info, key, hashv)
  }

  // HASH_BLOOM_TEST.
  ghost predicate MayHold(filter: Filter, hashv: U32) {
    filter.Filter? ==> ToBkt(hashv, Pow2(filter.nbits)) in filter.bits
  }

  // HASH_FIND_BYHASHVALUE.
  ghost function Find(st: State, key: Key, hashv: U32): Node? {
    if st.Full? && |st.chains| > 0 && MayHold(st.filter, hashv)
    then FirstMatch(st.chains[ToBkt(hashv, |st.chains|)], st.info, key, hashv)
    else null
  }

  // HASH_REPLACE: an item with the same key goes first.
  ghost function Replace(st: State, x: Node, inf: Info, memory: Memory, filter: Filter): Outcome
    requires Shaped(st)
  {
    Add(Unfound(st, inf), x, inf, memory, filter)
  }

  ghost function ReplaceInOrder(st: State, x: Node, inf: Info, cmp: Compare<Node>, memory: Memory, filter: Filter): Outcome
    requires Shaped(st)
  {
    AddInOrder(Unfound(st, inf), x, inf, cmp, memory, filter)
  }

  // The table without the item that HASH_REPLACE finds.
  ghost function Unfound(st: State, inf: Info): (r: State)
    requires Shaped(st)
    ensures Shaped(r)
  {
    var found := Find(st, inf.key, inf.hashv);
    if found == null then st else Delete(st, found)
  }

  // HASH_SRT.
  ghost function Sort(st: State, cmp: Compare<Node>): State {
    if st.Empty? then st else st.(app := MergeSort(cmp, st.app))
  }

  // The application-order list.
  ghost function Items(st: State): seq<Node> {
    if st.Empty? then [] else st.app
  }

  ghost function Elements(s: seq<Node>): set<Node> {
    set x | x in s
  }
}
