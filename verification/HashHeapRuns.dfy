// Runs on the heap: the methods compose, and a run of them leaves what the run of values says.
module HashHeapRuns {
  import opened HashTypes
  import opened HashModel
  import opened HashInvariant
  import opened HashRuns
  import opened HashTable
  import HashSort
  import opened HashUse

  // What a caller may work on after an operation: what it could work on before, and fresh memory.
  twostate predicate StaysWithin(frame: set<object>, new head: Node?, st: State)
    reads head, if head == null then null else head.tbl
  {
    OwnedOrFresh(frame, head) && forall y :: y in Items(st) ==> y in frame
  }

  method SortWithin(head: Node?, op: Op, ghost st: State, ghost frame: set<object>) returns (head': Node?)
    requires Rep(head, st) && Inv(st) && Covers(frame, head, st) && op.Sort?
    modifies frame
    ensures Rep(head', HashModel.Sort(st, op.cmp)) && Inv(HashModel.Sort(st, op.cmp)) && StaysWithin(frame, head', HashModel.Sort(st, op.cmp))
  {
    head' := HashSort.HashSort(head, op.cmp, st);
    if st.Full? {
      SortKeepsItems(op.cmp, st.app);
    }
  }

  // The adds and the replaces.
  method AddOrReplace(head: Node?, op: Op, config: BloomConfig, ghost st: State, ghost frame: set<object>)
    returns (head': Node?, ghost st': State)
    requires Rep(head, st) && Inv(st) && Covers(frame, head, st)
    requires Legal(st, op) && Adds(op) && op.x in frame
    modifies frame
    ensures st' == Step(st, op, StartFilter(config)) && Rep(head', st') && Inv(st')
    ensures StaysWithin(frame, head', st')
  {
    var oomed, replaced;
    ghost var base, r;
    match op {
      case Add(x, inf, memory) =>
        head', oomed, r := AddWithin(head, x, inf.key, inf.hashv, memory, config, st, frame);
      case AddInOrder(x, inf, cmp, memory) =>
        head', oomed, r := AddInOrderWithin(head, x, inf.key, inf.hashv, cmp, memory, config, st, frame);
      case Replace(x, inf, memory) =>
        head', replaced, oomed, base, r := HashReplace(head, x, inf.key, inf.hashv, memory, config, st, frame);
      case ReplaceInOrder(x, inf, cmp, memory) =>
        head', replaced, oomed, base, r := HashReplaceInOrder(head, x, inf.key, inf.hashv, cmp, memory, config, st, frame);
      case _ =>
    }
    st' := r.st;
  }

  method Perform(head: Node?, op: Op, config: BloomConfig, ghost st: State, ghost frame: set<object>)
    returns (head': Node?, ghost st': State)
    requires Rep(head, st) && Inv(st) && Covers(frame, head, st)
    requires Legal(st, op) && (Adds(op) ==> op.x in frame)
    modifies frame
    ensures st' == Step(st, op, StartFilter(config)) && Rep(head', st') && Inv(st')
    ensures StaysWithin(frame, head', st')
  {
    if op.Delete? {
      head', st' := DeleteWithin(head, op.x, st, frame);
    } else if op.Sort? {
      head' := SortWithin(head, op, st, frame);
      st' := HashModel.Sort(st, op.cmp);
    } else if op.Clear? {
      head' := HashClear(head, st);
      st' := Empty;
    } else {
      head', st' := AddOrReplace(head, op, config, st, frame);
    }
  }

  twostate lemma NewIsFresh(frame: set<object>, new head: Node?, new frame': set<object>)
    requires OwnedOrFresh(frame, head) && frame' == frame + Owned(head)
    ensures fresh(frame' - frame)
  {
  }

  // The first operation of a run; the others and what they may work on.
  method PerformFirst(head: Node?, ops: seq<Op>, config: BloomConfig, ghost st: State, ghost frame: set<object>)
    returns (head': Node?, rest: seq<Op>, ghost st': State, ghost frame': set<object>)
    requires Rep(head, st) && Inv(st) && Covers(frame, head, st)
    requires ops != [] && LegalRun(st, ops, StartFilter(config))
    requires forall op :: op in ops && Adds(op) ==> op.x in frame
    modifies frame
    ensures Rep(head', st') && Inv(st') && Covers(frame', head', st')
    ensures frame' == frame + Owned(head') && fresh(frame' - frame) && forall y :: y in Items(st') ==> y in frame
    ensures |rest| < |ops| && LegalRun(st', rest, StartFilter(config))
    ensures forall op :: op in rest && Adds(op) ==> op.x in frame
    ensures Run(st', rest, StartFilter(config)) == Run(st, ops, StartFilter(config))
  {
    rest := ops[1..];
    FirstStep(st, ops, StartFilter(config));
    assert ops[0] in ops;
    head', st' := Perform(head, ops[0], config, st, frame);
    frame' := frame + Owned(head');
    NewIsFresh(frame, head', frame');
  }

  // Any legal run of the operations on the heap, whatever allocations fail, ends with the table
  // that the same run of values ends with.
  method PerformAll(head: Node?, ops: seq<Op>, config: BloomConfig, ghost st: State, ghost frame: set<object>)
    returns (head': Node?, ghost st': State)
    requires Rep(head, st) && Inv(st) && Covers(frame, head, st)
    requires LegalRun(st, ops, StartFilter(config))
    requires forall op :: op in ops && Adds(op) ==> op.x in frame
    modifies frame
    ensures st' == Run(st, ops, StartFilter(config)) && Rep(head', st') && Inv(st')
    ensures fresh(Owned(head') - frame)
    decreases |ops|
  {
    head', st' := head, st;
    if ops != [] {
      var rest;
      ghost var frame';
      head', rest, st', frame' := PerformFirst(head, ops, config, st, frame);
      head', st' := PerformAll(head', rest, config, st', frame');
    }
  }
}
