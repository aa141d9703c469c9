// Whole runs of table operations, from the empty table on.
module HashRuns {
  import opened StableSort
  import opened Bytes
  import opened HashBits
  import opened HashTypes
  import opened HashModel
  import opened HashInvariant

  datatype Op =
    | Add(x: Node, inf: Info, memory: Memory)
    | AddInOrder(x: Node, inf: Info, cmp: Compare<Node>, memory: Memory)
    | Replace(x: Node, inf: Info, memory: Memory)
    | ReplaceInOrder(x: Node, inf: Info, cmp: Compare<Node>, memory: Memory)
    | Delete(x: Node)
    | Sort(cmp: Compare<Node>)
    | Clear

  ghost predicate Holds(st: State, x: Node) {
    st.Full? && x in st.app
  }

  // What uthash asks of its callers: nothing is added twice, and only members are deleted.
  ghost predicate Legal(st: State, op: Op)
    requires Inv(st)
  {
    match op
    case Add(x, _, _) => !Holds(st, x)
    case AddInOrder(x, _, _, _) => !Holds(st, x)
    case Replace(x, inf, _) => !Holds(Unfound(st, inf), x)
    case ReplaceInOrder(x, inf, _, _) => !Holds(Unfound(st, inf), x)
    case Delete(x) => Holds(st, x)
    case Sort(_) => true
    case Clear => true
  }

  // The state an add or replace starts from once HASH_REPLACE has deleted what it found.
  ghost function Base(st: State, op: Op): (r: State)
    requires Inv(st)
    ensures r.Full? ==> |r.chains| == |r.mults| > 0
  {
    match op
    case Replace(_, inf, _) => Unfound(st, inf)
    case ReplaceInOrder(_, inf, _, _) => Unfound(st, inf)
    case _ => st
  }

  ghost function Step(st: State, op: Op, filter: Filter): State
    requires Inv(st)
  {
    match op
    case Add(x, inf, memory) => HashModel.Add(st, x, inf, memory, filter).st
    case AddInOrder(x, inf, cmp, memory) => HashModel.AddInOrder(st, x, inf, cmp, memory, filter).st
    case Replace(x, inf, memory) => HashModel.Replace(st, x, inf, memory, filter).st
    case ReplaceInOrder(x, inf, cmp, memory) => HashModel.ReplaceInOrder(st, x, inf, cmp, memory, filter).st
    case Delete(x) => if st.Full? then HashModel.Delete(st, x) else st
    case Sort(cmp) => HashModel.Sort(st, cmp)
    case Clear => Empty
  }

  // The add that ends an add or replace, as an AddAt.
  ghost function AddPos(st: State, op: Op): nat
    requires Inv(st)
  {
    var base := Base(st, op);
    if base.Empty? then 0
    else if op.AddInOrder? || op.ReplaceInOrder? then InsertPos(op.cmp, base.app, op.x)
    else |base.app|
  }

  ghost predicate Adds(op: Op) {
    op.Add? || op.AddInOrder? || op.Replace? || op.ReplaceInOrder?
  }

  lemma StepAdds(st: State, op: Op, filter: Filter)
    requires Inv(st) && Adds(op)
    ensures Step(st, op, filter) == AddAt(Base(st, op), AddPos(st, op), op.x, op.inf, op.memory, filter).st
  {
  }

  lemma BaseKeepsInv(st: State, op: Op)
    requires Inv(st)
    ensures Inv(Base(st, op))
  {
    if op.Replace? || op.ReplaceInOrder? {
      var found := Find(st, op.inf.key, op.inf.hashv);
      FindFinds(st, op.inf.key, op.inf.hashv);
      if found != null {
        DeleteKeepsInv(st, found);
      }
    }
  }

  lemma StepKeepsInv(st: State, op: Op, filter: Filter)
    requires Inv(st) && Legal(st, op)
    ensures Inv(Step(st, op, filter))
  {
    if Adds(op) {
      StepAdds(st, op, filter);
      BaseKeepsInv(st, op);
      AddKeepsInv(Base(st, op), AddPos(st, op), op.x, op.inf, op.memory, filter);
    } else if op.Delete? {
      DeleteKeepsInv(st, op.x);
    } else if op.Sort? {
      SortKeepsInv(st, op.cmp);
    }
  }

  // A run in which every operation is legal where it comes.
  ghost predicate LegalRun(st: State, ops: seq<Op>, filter: Filter)
    requires Inv(st)
    decreases |ops|
  {
    ops == [] ||
    (Legal(st, ops[0]) &&
     (StepKeepsInv(st, ops[0], filter); LegalRun(Step(st, ops[0], filter), ops[1..], filter)))
  }

  ghost function Run(st: State, ops: seq<Op>, filter: Filter): (r: State)
    requires Inv(st) && LegalRun(st, ops, filter)
    ensures Inv(r)
    decreases |ops|
  {
    if ops == [] then st
    else
      StepKeepsInv(st, ops[0], filter);
      Run(Step(st, ops[0], filter), ops[1..], filter)
  }

  lemma ConsRun(st: State, op: Op, rest: seq<Op>, filter: Filter)
    requires Inv(st) && Legal(st, op) && Inv(Step(st, op, filter)) && LegalRun(Step(st, op, filter), rest, filter)
    ensures LegalRun(st, [op] + rest, filter)
    ensures Run(st, [op] + rest, filter) == Run(Step(st, op, filter), rest, filter)
  {
    assert ([op] + rest)[1..] == rest;
  }

  lemma FirstStep(st: State, ops: seq<Op>, filter: Filter)
    requires Inv(st) && ops != [] && LegalRun(st, ops, filter)
    ensures Legal(st, ops[0]) && Inv(Step(st, ops[0], filter)) && LegalRun(Step(st, ops[0], filter), ops[1..], filter)
    ensures Run(st, ops, filter) == Run(Step(st, ops[0], filter), ops[1..], filter)
  {
    StepKeepsInv(st, ops[0], filter);
  }

  // ---------- lookups over runs with unique keys ----------

  ghost predicate NoSuchKey(st: State, key: Key) {
    st.Full? ==> forall x :: x in st.app && x in st.info ==> st.info[x].key != key
  }

  // The caller hashes keys with one function and keeps them unique: a plain add is done only
  // when the key is absent, as after a HASH_FIND that returned NULL.
  ghost predicate KeyedOp(st: State, op: Op, hash: Key -> U32) {
    Adds(op) ==>
      && op.inf.hashv == hash(op.inf.key)
      && (op.Add? || op.AddInOrder? ==> NoSuchKey(st, op.inf.key))
  }

  // No memory for a first table, or none for the buckets that the item's chain asks for.
  ghost predicate NoMemory(st: State, k: nat, x: Node, inf: Info, memory: Memory)
    requires Shaped(st) && (st.Full? ==> k <= |st.app|)
  {
    if st.Empty? then !memory.table
    else MustExpand(Link(st, k, x, inf), ToBkt(inf.hashv, |st.chains|)) && !memory.buckets
  }

  ghost predicate OutOfMemory(st: State, op: Op)
    requires Inv(st)
  {
    Adds(op) && NoMemory(Base(st, op), AddPos(st, op), op.x, op.inf, op.memory)
  }

  // What is in the table, without its order.
  ghost function View(st: State): map<Node, Info> {
    if st.Empty? then map[] else st.info
  }

  ghost predicate KeyedView(v: map<Node, Info>, hash: Key -> U32) {
    && (forall x :: x in v ==> v[x].hashv == hash(v[x].key))
    && (forall x, y :: x in v && y in v && x != y ==> v[x].key != v[y].key)
  }

  lemma KeyedIsKeyedView(st: State, hash: Key -> U32)
    requires Inv(st)
    ensures Keyed(st, hash) <==> KeyedView(View(st), hash)
  {
  }

  // HASH_FIND returns y exactly when y is in the table under this key.
  lemma FindByView(st: State, hash: Key -> U32, key: Key, y: Node)
    requires Inv(st) && KeyedView(View(st), hash)
    ensures Find(st, key, hash(key)) == y <==> y in View(st) && View(st)[y].key == key
  {
    FindFinds(st, key, hash(key));
  }

  lemma AddAtView(st: State, k: nat, x: Node, inf: Info, memory: Memory, filter: Filter)
    requires Inv(st) && (st.Full? ==> k <= |st.app|)
    ensures var r := AddAt(st, k, x, inf, memory, filter);
      && r.oomed == NoMemory(st, k, x, inf, memory)
      && View(r.st) == if r.oomed then View(st) else View(st)[x := inf]
  {
  }

  // The items an operation takes out of the table before anything is added.
  ghost function Removed(st: State, op: Op): set<Node> {
    if op.Replace? || op.ReplaceInOrder? then
      var found := Find(st, op.inf.key, op.inf.hashv);
      if found == null then {} else {found}
    else if op.Delete? then {op.x}
    else if op.Clear? then View(st).Keys
    else {}
  }

  lemma DeleteView(st: State, x: Node)
    requires Inv(st) && st.Full? && x in st.app
    ensures View(HashModel.Delete(st, x)) == View(st) - {x}
  {
    if |st.app| == 1 {
      assert st.app == [x];
      assert View(st) - {x} == map[];
    }
  }

  lemma BaseView(st: State, op: Op)
    requires Inv(st) && Adds(op)
    ensures View(Base(st, op)) == View(st) - Removed(st, op)
  {
    if op.Replace? || op.ReplaceInOrder? {
      FindFinds(st, op.inf.key, op.inf.hashv);
      var found := Find(st, op.inf.key, op.inf.hashv);
      if found != null {
        DeleteView(st, found);
      }
    }
  }

  // What one operation does to the contents: some items go, and an add that finds memory puts its item in.
  lemma StepView(st: State, op: Op, filter: Filter)
    requires Inv(st) && Legal(st, op)
    ensures View(Step(st, op, filter)) ==
            var kept := View(st) - Removed(st, op);
            if Adds(op) && !OutOfMemory(st, op) then kept[op.x := op.inf] else kept
  {
    if Adds(op) {
      StepAdds(st, op, filter);
      BaseKeepsInv(st, op);
      BaseView(st, op);
      AddAtView(Base(st, op), AddPos(st, op), op.x, op.inf, op.memory, filter);
    } else if op.Delete? {
      DeleteView(st, op.x);
    }
  }

  lemma StepKeepsKeyed(st: State, op: Op, filter: Filter, hash: Key -> U32)
    requires Inv(st) && Legal(st, op) && KeyedView(View(st), hash) && KeyedOp(st, op, hash)
    ensures KeyedView(View(Step(st, op, filter)), hash)
  {
    var removed := Removed(st, op);
    var added := Adds(op) && !OutOfMemory(st, op);
    StepView(st, op, filter);
    if added {
      RemovedHoldKey(st, op, hash);
      KeyedAfterAdd(View(st) - removed, op.x, op.inf, hash);
    }
  }

  lemma KeyedAfterAdd(v: map<Node, Info>, x: Node, inf: Info, hash: Key -> U32)
    requires KeyedView(v, hash) && inf.hashv == hash(inf.key)
    requires forall y :: y in v ==> v[y].key != inf.key
    ensures KeyedView(v[x := inf], hash)
  {
  }

  ghost predicate Under(v: map<Node, Info>, key: Key, y: Node) {
    y in v && v[y].key == key
  }

  lemma FindNone(st: State, hash: Key -> U32, key: Key)
    requires Inv(st) && KeyedView(View(st), hash)
    requires forall y :: y in View(st) ==> !Under(View(st), key, y)
    ensures Find(st, key, hash(key)) == null
  {
    FindFinds(st, key, hash(key));
  }

  lemma FindSame(st: State, st': State, hash: Key -> U32, key: Key)
    requires Inv(st) && Inv(st') && KeyedView(View(st), hash) && KeyedView(View(st'), hash)
    requires forall y :: y in View(st) && Under(View(st), key, y) ==> Under(View(st'), key, y)
    requires forall y :: y in View(st') && Under(View(st'), key, y) ==> Under(View(st), key, y)
    ensures Find(st, key, hash(key)) == Find(st', key, hash(key))
  {
    FindFinds(st, key, hash(key));
    FindFinds(st', key, hash(key));
    var y := Find(st, key, hash(key));
    if y != null {
      assert Under(View(st), key, y);
      FindByView(st', hash, key, y);
    } else {
      FindNone(st', hash, key);
    }
  }

  // The lookups of a table st' whose contents differ from those of st by an operation.
  lemma FindsAfter(st: State, st': State, op: Op, removed: set<Node>, added: bool, hash: Key -> U32, key: Key)
    requires Inv(st) && Inv(st') && KeyedView(View(st), hash) && KeyedView(View(st'), hash)
    requires added ==> Adds(op) && op.x !in View(st) - removed
    requires View(st') == var kept := View(st) - removed; if added then kept[op.x := op.inf] else kept
    requires Adds(op) ==> op.inf.hashv == hash(op.inf.key)
    requires forall y :: y in View(st) && Adds(op) ==> (y in removed <==> View(st)[y].key == op.inf.key)
    requires op.Delete? ==> removed == {op.x} && op.x in View(st)
    requires op.Clear? ==> removed == View(st).Keys
    requires op.Sort? ==> removed == {}
    ensures var r := Find(st', key, hash(key));
      if Adds(op) && key == op.inf.key then r == if added then op.x else null
      else if op.Delete? && View(st)[op.x].key == key then r == null
      else if op.Clear? then r == null
      else r == Find(st, key, hash(key))
  {
    if Adds(op) && key == op.inf.key && added {
      FindByView(st', hash, key, op.x);
    } else if (Adds(op) && key == op.inf.key) || op.Clear? || (op.Delete? && View(st)[op.x].key == key) {
      FindNone(st', hash, key);
    } else {
      FindSame(st, st', hash, key);
    }
  }

  lemma RemovedHoldKey(st: State, op: Op, hash: Key -> U32)
    requires Inv(st) && KeyedView(View(st), hash) && KeyedOp(st, op, hash) && Adds(op)
    ensures forall y :: y in View(st) ==> (y in Removed(st, op) <==> View(st)[y].key == op.inf.key)
  {
    FindFinds(st, op.inf.key, op.inf.hashv);
  }

  lemma LegalIsNew(st: State, op: Op)
    requires Inv(st) && Legal(st, op) && Adds(op)
    ensures op.x !in View(st) - Removed(st, op)
  {
    BaseView(st, op);
    BaseKeepsInv(st, op);
  }

  // The effect of one operation on every lookup. A replace that runs out of memory is the one
  // case in which an operation that should keep a key present loses it.
  lemma StepFinds(st: State, op: Op, filter: Filter, hash: Key -> U32, key: Key)
    requires Inv(st) && Legal(st, op) && KeyedView(View(st), hash) && KeyedOp(st, op, hash)
    ensures var st' := Step(st, op, filter);
      && Inv(st')
      && var r := Find(st', key, hash(key));
      if Adds(op) && key == op.inf.key then r == if OutOfMemory(st, op) then null else op.x
      else if op.Delete? && View(st)[op.x].key == key then r == null
      else if op.Clear? then r == null
      else r == Find(st, key, hash(key))
  {
    var st', removed := Step(st, op, filter), Removed(st, op);
    var added := Adds(op) && !OutOfMemory(st, op);
    StepKeepsInv(st, op, filter);
    StepKeepsKeyed(st, op, filter, hash);
    StepView(st, op, filter);
    if Adds(op) {
      RemovedHoldKey(st, op, hash);
      LegalIsNew(st, op);
    }
    FindsAfter(st, st', op, removed, added, hash, key);
  }

  ghost predicate KeyedRun(st: State, ops: seq<Op>, filter: Filter, hash: Key -> U32)
    requires Inv(st) && LegalRun(st, ops, filter)
    decreases |ops|
  {
    ops == [] ||
    (KeyedOp(st, ops[0], hash) &&
     (StepKeepsInv(st, ops[0], filter); KeyedRun(Step(st, ops[0], filter), ops[1..], filter, hash)))
  }

  lemma {:induction false} RunKeepsKeyed(st: State, ops: seq<Op>, filter: Filter, hash: Key -> U32)
    requires Inv(st) && LegalRun(st, ops, filter) && KeyedRun(st, ops, filter, hash) && KeyedView(View(st), hash)
    ensures KeyedView(View(Run(st, ops, filter)), hash)
    decreases |ops|
  {
    if ops != [] {
      StepKeepsInv(st, ops[0], filter);
      StepKeepsKeyed(st, ops[0], filter, hash);
      RunKeepsKeyed(Step(st, ops[0], filter), ops[1..], filter, hash);
    }
  }

  // After any run from the empty table, with any hash function, with or without a Bloom filter,
  // whichever allocations failed: HASH_FIND returns what a linear scan by key returns.
  lemma RunFindIsScan(ops: seq<Op>, filter: Filter, hash: Key -> U32, key: Key)
    requires LegalRun(Empty, ops, filter) && KeyedRun(Empty, ops, filter, hash)
    ensures var st := Run(Empty, ops, filter);
      Find(st, key, hash(key)) == if st.Empty? then null else Scan(st.app, st.info, key)
  {
    var st := Run(Empty, ops, filter);
    RunKeepsKeyed(Empty, ops, filter, hash);
    KeyedIsKeyedView(st, hash);
    FindIsScan(st, hash, key);
  }
}
