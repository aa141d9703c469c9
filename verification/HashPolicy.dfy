// How far chains grow, when expansion stops, and what INORDER adds build, over whole runs.
module HashPolicy {
  import opened Sequences
  import opened StableSort
  import opened HashBits
  import opened HashTypes
  import opened HashModel
  import opened HashExpansion
  import opened HashInvariant
  import opened HashRuns

  // ---------- counts ----------

  ghost function SumCounts(chains: seq<seq<Node>>): nat {
    if chains == [] then 0 else SumCounts(chains[..|chains| - 1]) + |chains[|chains| - 1]|
  }

  // The items whose bucket is one of the first k.
  ghost function ItemsBelow(app: seq<Node>, info: map<Node, Info>, n: nat, k: nat): set<Node>
    requires n > 0
  {
    set x | x in app && ToBkt(HashOf(info, x), n) < k
  }

  lemma NextBucket(app: seq<Node>, info: map<Node, Info>, chains: seq<seq<Node>>, k: nat)
    requires ChainsInv(app, info, chains) && k < |chains|
    ensures ItemsBelow(app, info, |chains|, k + 1) == ItemsBelow(app, info, |chains|, k) + Elements(chains[k])
    ensures ItemsBelow(app, info, |chains|, k) !! Elements(chains[k])
  {
    forall x | x in ItemsBelow(app, info, |chains|, k + 1)
      ensures x in ItemsBelow(app, info, |chains|, k) + Elements(chains[k])
    {
      assert x in chains[ToBkt(HashOf(info, x), |chains|)];
    }
  }

  lemma {:induction false} CountsUpTo(app: seq<Node>, info: map<Node, Info>, chains: seq<seq<Node>>, k: nat)
    requires ChainsInv(app, info, chains) && k <= |chains|
    ensures SumCounts(chains[..k]) == |ItemsBelow(app, info, |chains|, k)|
  {
    if k > 0 {
      CountsUpTo(app, info, chains, k - 1);
      NextBucket(app, info, chains, k - 1);
      DistinctCount(chains[k - 1]);
      assert chains[..k][..k - 1] == chains[..k - 1];
    }
  }

  // The bucket counts add up to the number of items.
  lemma CountsAddUp(st: State)
    requires Inv(st) && st.Full?
    ensures SumCounts(st.chains) == |st.app|
  {
    CountsUpTo(st.app, st.info, st.chains, |st.chains|);
    DistinctCount(st.app);
    assert st.chains[..|st.chains|] == st.chains;
    assert ItemsBelow(st.app, st.info, |st.chains|, |st.chains|) == Elements(st.app);
  }

  // ---------- chain lengths ----------

  function Limit(ideal: nat): nat {
    if ideal < BKT_CAPACITY_THRESH then BKT_CAPACITY_THRESH else ideal + 1
  }

  ghost predicate WithinLimit(chains: seq<seq<Node>>, mults: seq<nat>, ideal: nat) {
    && |chains| == |mults|
    && forall b :: 0 <= b < |chains| ==> |chains[b]| < (mults[b] + 1) * Limit(ideal)
  }

  // While expansion is allowed, no chain reaches (expand_mult + 1) times the threshold, or times
  // the last ideal length plus one where that is longer.
  ghost predicate Bounded(st: State) {
    st.Full? && !st.noexpand ==> WithinLimit(st.chains, st.mults, st.ideal)
  }

  lemma MulMonotone(m: nat, a: nat, b: nat)
    requires a <= b
    ensures (m + 1) * a <= (m + 1) * b
    ensures a < b ==> (m + 1) * a < (m + 1) * b
  {
    assert (m + 1) * b == (m + 1) * a + (m + 1) * (b - a);
  }

  lemma CoveredIsWithinLimit(chains: seq<seq<Node>>, mults: seq<nat>, ideal: nat)
    requires |chains| == |mults| && ideal > 0
    requires forall b :: 0 <= b < |chains| ==> mults[b] == MultFor(|chains[b]|, ideal)
    ensures WithinLimit(chains, mults, ideal)
  {
    forall b | 0 <= b < |chains|
      ensures |chains[b]| < (mults[b] + 1) * Limit(ideal)
    {
      MultCovers(|chains[b]|, ideal);
      MulMonotone(mults[b], ideal, Limit(ideal));
    }
  }

  lemma ExpandBounds(st: State)
    requires Inv(st) && st.Full?
    ensures var r := Expand(st); WithinLimit(r.chains, r.mults, r.ideal)
  {
    var r := Expand(st);
    ExpandForm(st);
    IdealIsCeiling(|r.app|, r.log2);
    CoveredIsWithinLimit(r.chains, r.mults, r.ideal);
  }

  lemma AddKeepsBounded(st: State, k: nat, x: Node, inf: Info, memory: Memory, filter: Filter)
    requires Inv(st) && Bounded(st) && (st.Full? ==> k <= |st.app| && x !in st.app)
    ensures Bounded(AddAt(st, k, x, inf, memory, filter).st)
  {
    if st.Full? && !st.noexpand {
      var linked := Link(st, k, x, inf);
      var b := ToBkt(inf.hashv, |st.chains|);
      LinkKeepsInv(st, k, x, inf);
      if MustExpand(linked, b) {
        ExpandBounds(linked.(filter := SetBit(linked.filter, inf.hashv)));
      } else {
        MulMonotone(st.mults[b], BKT_CAPACITY_THRESH, Limit(st.ideal));
      }
    }
  }

  lemma DeleteKeepsBounded(st: State, x: Node)
    requires Inv(st) && Bounded(st) && st.Full? && x in st.app
    ensures Bounded(HashModel.Delete(st, x))
  {
    var b := ToBkt(HashOf(st.info, x), |st.chains|);
    WithoutHolds(st.chains[b], x);
  }

  lemma StepKeepsBounded(st: State, op: Op, filter: Filter)
    requires Inv(st) && Legal(st, op) && Bounded(st)
    ensures Bounded(Step(st, op, filter))
  {
    if Adds(op) {
      StepAdds(st, op, filter);
      BaseKeepsInv(st, op);
      if op.Replace? || op.ReplaceInOrder? {
        var found := Find(st, op.inf.key, op.inf.hashv);
        FindFinds(st, op.inf.key, op.inf.hashv);
        if found != null {
          DeleteKeepsBounded(st, found);
        }
      }
      AddKeepsBounded(Base(st, op), AddPos(st, op), op.x, op.inf, op.memory, filter);
    } else if op.Delete? {
      DeleteKeepsBounded(st, op.x);
    }
  }

  // The chains of every table that a run from the empty one leaves, whichever allocations failed.
  lemma ChainsStayShort(ops: seq<Op>, filter: Filter, b: nat)
    requires LegalRun(Empty, ops, filter)
    ensures var st := Run(Empty, ops, filter);
      st.Full? && !st.noexpand && b < |st.chains| ==>
        |st.mults| == |st.chains| && |st.chains[b]| < (st.mults[b] + 1) * (if st.ideal < 10 then 10 else st.ideal + 1)
  {
    RunBounded(Empty, ops, filter);
  }

  // After every operation of every run, whichever allocations failed.
  lemma {:induction false} RunBounded(st: State, ops: seq<Op>, filter: Filter)
    requires Inv(st) && LegalRun(st, ops, filter) && Bounded(st)
    ensures Bounded(Run(st, ops, filter))
    decreases |ops|
  {
    if ops != [] {
      StepKeepsInv(st, ops[0], filter);
      StepKeepsBounded(st, ops[0], filter);
      RunBounded(Step(st, ops[0], filter), ops[1..], filter);
    }
  }

  // A replace of a present key frees the place that it then takes: while no expansion has found an
  // ideal length of ten or more, it runs out of memory exactly when it empties the table and there
  // is none for a new one.
  lemma ReplaceOutOfMemory(st: State, op: Op)
    requires Inv(st) && Bounded(st) && st.Full? && st.ideal < BKT_CAPACITY_THRESH && Legal(st, op)
    requires (op.Replace? || op.ReplaceInOrder?) && Find(st, op.inf.key, op.inf.hashv) != null
    ensures OutOfMemory(st, op) <==> |st.app| == 1 && !op.memory.table
  {
    var found := Find(st, op.inf.key, op.inf.hashv);
    FindFinds(st, op.inf.key, op.inf.hashv);
    var b := ToBkt(op.inf.hashv, |st.chains|);
    assert HashOf(st.info, found) == op.inf.hashv && found in st.chains[b];
    WithoutHolds(st.chains[b], found);
    if |st.app| > 1 {
      BaseKeepsInv(st, op);
      assert |Base(st, op).chains[b]| == |st.chains[b]| - 1;
    }
  }

  // ---------- the expansions of a table's life ----------

  // For each expansion of the current table, whether it was ineffective: more than half of the
  // items were beyond the ideal length.
  ghost function HistoryAfter(st: State, op: Op, filter: Filter, h: seq<bool>): seq<bool>
    requires Inv(st)
  {
    var r := Step(st, op, filter);
    if r.Empty? || Base(st, op).Empty? then []
    else if |r.chains| == |Base(st, op).chains| then h
    else h + [SumExcess(r.chains, r.ideal) > |r.app| / 2]
  }

  ghost function RunHistory(st: State, ops: seq<Op>, filter: Filter, h: seq<bool>): seq<bool>
    requires Inv(st) && LegalRun(st, ops, filter)
    decreases |ops|
  {
    if ops == [] then h
    else
      StepKeepsInv(st, ops[0], filter);
      RunHistory(Step(st, ops[0], filter), ops[1..], filter, HistoryAfter(st, ops[0], filter, h))
  }

  // The number of ineffective expansions at the end of the history.
  ghost function Trailing(h: seq<bool>): nat {
    if h == [] || !h[|h| - 1] then 0 else 1 + Trailing(h[..|h| - 1])
  }

  ghost function TrailingAt(h: seq<bool>, i: nat): nat
    requires i <= |h|
  {
    Trailing(h[..i])
  }

  // The table has doubled once for each entry; it stops for good right after the first two
  // ineffective expansions in a row, and only then.
  ghost predicate Recorded(st: State, h: seq<bool>) {
    st.Full? ==>
      && |st.chains| == Pow2(INITIAL_NUM_BUCKETS_LOG2 + |h|) && st.log2 == INITIAL_NUM_BUCKETS_LOG2 + |h|
      && st.ineff == Trailing(h)
      && (st.noexpand <==> Trailing(h) >= 2)
      && forall i :: 0 <= i < |h| ==> TrailingAt(h, i) < 2
  }

  lemma TrailingOfSnoc(h: seq<bool>, flag: bool)
    ensures Trailing(h + [flag]) == if flag then Trailing(h) + 1 else 0
  {
    assert (h + [flag])[..|h|] == h;
  }

  lemma TrailingAtSnoc(h: seq<bool>, flag: bool, i: nat)
    requires i <= |h|
    ensures TrailingAt(h + [flag], i) == TrailingAt(h, i)
    ensures TrailingAt(h, |h|) == Trailing(h)
  {
    assert (h + [flag])[..i] == h[..i];
    assert h[..|h|] == h;
  }

  lemma HistoryGrows(h: seq<bool>, flag: bool)
    requires Trailing(h) < 2 && forall i :: 0 <= i < |h| ==> TrailingAt(h, i) < 2
    ensures var h' := h + [flag];
      Trailing(h') == (if flag then Trailing(h) + 1 else 0) && forall i :: 0 <= i < |h'| ==> TrailingAt(h', i) < 2
  {
    TrailingOfSnoc(h, flag);
    forall i | 0 <= i < |h + [flag]|
      ensures TrailingAt(h + [flag], i) < 2
    {
      TrailingAtSnoc(h, flag, i);
    }
  }

  // r is st after an expansion, as far as the history is concerned.
  lemma RecordedGrows(st: State, r: State, h: seq<bool>, flag: bool)
    requires st.Full? && r.Full? && !st.noexpand && Recorded(st, h)
    requires |r.chains| == 2 * |st.chains| && r.log2 == st.log2 + 1
    requires r.ineff == (if flag then st.ineff + 1 else 0) && r.noexpand == (r.ineff > 1)
    ensures Recorded(r, h + [flag])
  {
    HistoryGrows(h, flag);
  }

  lemma ExpandRecorded(st: State, linked: State, h: seq<bool>)
    requires st.Full? && Recorded(st, h) && !st.noexpand && linked.Full? && TableInv(linked)
    requires |linked.chains| == |st.chains| && linked.log2 == st.log2
    requires linked.ineff == st.ineff && linked.noexpand == st.noexpand
    ensures var r := Expand(linked);
      |r.chains| == 2 * |st.chains| && Recorded(r, h + [SumExcess(r.chains, r.ideal) > |r.app| / 2])
  {
    var r := Expand(linked);
    ExpandForm(linked);
    RecordedGrows(st, r, h, SumExcess(r.chains, r.ideal) > |r.app| / 2);
  }

  lemma AddRecorded(st: State, k: nat, x: Node, inf: Info, memory: Memory, filter: Filter, h: seq<bool>)
    requires Inv(st) && Recorded(st, h) && (st.Full? ==> k <= |st.app| && x !in st.app)
    ensures var r := AddAt(st, k, x, inf, memory, filter).st;
      Recorded(r, if r.Empty? || st.Empty? then []
                  else if |r.chains| == |st.chains| then h
                  else h + [SumExcess(r.chains, r.ideal) > |r.app| / 2])
  {
    if st.Full? {
      var linked := Link(st, k, x, inf);
      var b := ToBkt(inf.hashv, |st.chains|);
      LinkKeepsInv(st, k, x, inf);
      if MustExpand(linked, b) && memory.buckets {
        var lit := linked.(filter := SetBit(linked.filter, inf.hashv));
        ExpandRecorded(st, lit, h);
        assert AddAt(st, k, x, inf, memory, filter).st == Expand(lit);
      }
    }
  }

  lemma StepRecorded(st: State, op: Op, filter: Filter, h: seq<bool>)
    requires Inv(st) && Legal(st, op) && Recorded(st, h)
    ensures Recorded(Step(st, op, filter), HistoryAfter(st, op, filter, h))
  {
    if Adds(op) {
      StepAdds(st, op, filter);
      BaseKeepsInv(st, op);
      AddRecorded(Base(st, op), AddPos(st, op), op.x, op.inf, op.memory, filter, h);
    }
  }

  // Every table that a run from the empty one leaves has 32 buckets, doubled once per expansion.
  lemma BucketsOfRun(ops: seq<Op>, filter: Filter)
    requires LegalRun(Empty, ops, filter)
    ensures var st := Run(Empty, ops, filter);
      st.Full? ==> |st.chains| == 32 * Pow2(|RunHistory(Empty, ops, filter, [])|)
                   && st.log2 == 5 + |RunHistory(Empty, ops, filter, [])|
  {
    RunRecorded(Empty, ops, filter, []);
    Pow2Of5(|RunHistory(Empty, ops, filter, [])|);
  }

  lemma Pow2Of5(n: nat)
    ensures Pow2(5 + n) == 32 * Pow2(n)
  {
    assert Pow2(5 + n) == 2 * Pow2(4 + n) == 4 * Pow2(3 + n) == 8 * Pow2(2 + n) == 16 * Pow2(1 + n);
  }

  // The buckets of any reachable table have doubled once per recorded expansion, and expansion
  // is off exactly when the last two were ineffective, which then are the last two of its life.
  lemma {:induction false} RunRecorded(st: State, ops: seq<Op>, filter: Filter, h: seq<bool>)
    requires Inv(st) && LegalRun(st, ops, filter) && Recorded(st, h)
    ensures Recorded(Run(st, ops, filter), RunHistory(st, ops, filter, h))
    decreases |ops|
  {
    if ops != [] {
      StepKeepsInv(st, ops[0], filter);
      StepRecorded(st, ops[0], filter, h);
      RunRecorded(Step(st, ops[0], filter), ops[1..], filter, HistoryAfter(st, ops[0], filter, h));
    }
  }

  // ---------- inserting in order is sorting ----------

  lemma {:induction false} InsertIsSplice(cmp: Compare<Node>, s: seq<Node>, x: Node)
    ensures Insert(cmp, s, x) == Splice(s, InsertPos(cmp, s, x), x)
  {
    if s != [] && cmp(s[0], x) <= 0 {
      InsertIsSplice(cmp, s[1..], x);
      var k := InsertPos(cmp, s[1..], x);
      assert s[..k + 1] == [s[0]] + s[1..][..k];
    }
  }

  const PLENTY := Memory(true, true)

  // The adds of these elements one by one: in order of cmp, or simply appended.
  ghost function InOrderAdds(cmp: Compare<Node>, xs: seq<(Node, Info)>): seq<Op> {
    seq(|xs|, i requires 0 <= i < |xs| => AddInOrder(xs[i].0, xs[i].1, cmp, PLENTY))
  }

  ghost function Appends(xs: seq<(Node, Info)>): seq<Op> {
    seq(|xs|, i requires 0 <= i < |xs| => Op.Add(xs[i].0, xs[i].1, PLENTY))
  }

  ghost function Nodes(xs: seq<(Node, Info)>): seq<Node> {
    seq(|xs|, i requires 0 <= i < |xs| => xs[i].0)
  }

  lemma AddAtItems(st: State, k: nat, x: Node, inf: Info, filter: Filter)
    requires Inv(st) && k <= |Items(st)|
    ensures Items(AddAt(st, k, x, inf, PLENTY, filter).st) == Splice(Items(st), k, x)
  {
    if st.Empty? {
      assert Splice([], 0, x) == [x];
    }
  }

  // The first operation of a run, seen through the list it leaves.
  lemma RunCons(st: State, ops: seq<Op>, filter: Filter) returns (st': State)
    requires Inv(st) && ops != [] && LegalRun(st, ops, filter)
    ensures Inv(st') && LegalRun(st', ops[1..], filter) && Run(st, ops, filter) == Run(st', ops[1..], filter)
    ensures ops[0].Add? && ops[0].memory == PLENTY ==> Items(st') == Items(st) + [ops[0].x]
    ensures ops[0].AddInOrder? && ops[0].memory == PLENTY ==> Items(st') == Insert(ops[0].cmp, Items(st), ops[0].x)
  {
    var op := ops[0];
    StepKeepsInv(st, op, filter);
    st' := Step(st, op, filter);
    if op.Add? && op.memory == PLENTY {
      AddAtItems(st, |Items(st)|, op.x, op.inf, filter);
      assert Splice(Items(st), |Items(st)|, op.x) == Items(st) + [op.x];
    } else if op.AddInOrder? && op.memory == PLENTY {
      AddAtItems(st, InsertPos(op.cmp, Items(st), op.x), op.x, op.inf, filter);
      InsertIsSplice(op.cmp, Items(st), op.x);
    }
  }

  ghost predicate PlainAdds(ops: seq<Op>) {
    forall op :: op in ops ==> (op.Add? || op.AddInOrder?) && op.memory == PLENTY
  }

  // What adds do to the list alone.
  ghost function ItemsAfter(s: seq<Node>, ops: seq<Op>): seq<Node>
    requires PlainAdds(ops)
    decreases |ops|
  {
    if ops == [] then s
    else ItemsAfter(if ops[0].Add? then s + [ops[0].x] else Insert(ops[0].cmp, s, ops[0].x), ops[1..])
  }

  lemma {:induction false} RunItems(st: State, ops: seq<Op>, filter: Filter)
    requires Inv(st) && LegalRun(st, ops, filter) && PlainAdds(ops)
    ensures Items(Run(st, ops, filter)) == ItemsAfter(Items(st), ops)
    decreases |ops|
  {
    if ops != [] {
      assert ops[0] in ops;
      var st' := RunCons(st, ops, filter);
      RunItems(st', ops[1..], filter);
    }
  }

  lemma {:induction false} InOrderItems(done: seq<Node>, cmp: Compare<Node>, xs: seq<(Node, Info)>)
    ensures ItemsAfter(InsertAll(cmp, done), InOrderAdds(cmp, xs)) == InsertAll(cmp, done + Nodes(xs))
    decreases |xs|
  {
    if xs == [] {
      assert done + Nodes(xs) == done;
    } else {
      var x := xs[0].0;
      assert (done + [x])[..|done|] == done;
      assert InOrderAdds(cmp, xs)[1..] == InOrderAdds(cmp, xs[1..]);
      InOrderItems(done + [x], cmp, xs[1..]);
      assert done + [x] + Nodes(xs[1..]) == done + Nodes(xs);
    }
  }

  lemma {:induction false} AppendItems(done: seq<Node>, xs: seq<(Node, Info)>)
    ensures ItemsAfter(done, Appends(xs)) == done + Nodes(xs)
    decreases |xs|
  {
    if xs == [] {
      assert done + Nodes(xs) == done;
    } else {
      assert Appends(xs)[1..] == Appends(xs[1..]);
      AppendItems(done + [xs[0].0], xs[1..]);
      assert done + [xs[0].0] + Nodes(xs[1..]) == done + Nodes(xs);
    }
  }

  // Adding one by one with HASH_ADD_INORDER gives the list that appending all and then HASH_SORT
  // gives.
  lemma InOrderIsSort(cmp: Compare<Node>, xs: seq<(Node, Info)>, filter: Filter)
    requires TotalPreorder(cmp, Nodes(xs))
    requires LegalRun(Empty, InOrderAdds(cmp, xs), filter) && LegalRun(Empty, Appends(xs), filter)
    ensures Items(Run(Empty, InOrderAdds(cmp, xs), filter)) ==
            Items(HashModel.Sort(Run(Empty, Appends(xs), filter), cmp))
  {
    RunItems(Empty, InOrderAdds(cmp, xs), filter);
    RunItems(Empty, Appends(xs), filter);
    InOrderItems([], cmp, xs);
    AppendItems([], xs);
    assert [] + Nodes(xs) == Nodes(xs);
    MergeSortIsInsertAll(cmp, Nodes(xs));
  }
}
