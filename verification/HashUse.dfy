// What is built from the table operations: HASH_REPLACE, HASH_ITER with deletion, HASH_CLEAR.
module HashUse {
  import opened Sequences
  import opened StableSort
  import opened Bytes
  import opened HashTypes
  import opened HashModel
  import opened HashInvariant
  import opened HashTable

  // The memory an operation on this table may change.
  ghost predicate Covers(frame: set<object>, head: Node?, st: State)
    reads head, if head == null then null else head.tbl
  {
    Owned(head) <= frame && forall x :: x in Items(st) ==> x in frame
  }

  // The table's memory is in frame or has been allocated since.
  twostate predicate OwnedOrFresh(frame: set<object>, new head: Node?)
    reads head, if head == null then null else head.tbl
  {
    head != null && head.tbl != null ==>
      && (head.tbl in frame || fresh(head.tbl))
      && (head.tbl.buckets in frame || fresh(head.tbl.buckets))
      && (head.tbl.bloom != null ==> head.tbl.bloom.bv in frame || fresh(head.tbl.bloom.bv))
  }

  method DeleteWithin(head: Node, x: Node, ghost st: State, ghost frame: set<object>) returns (head': Node?, ghost st': State)
    requires Rep(head, st) && Inv(st) && st.Full? && x in st.app && Covers(frame, head, st)
    modifies frame
    ensures st' == Delete(st, x) && Rep(head', st') && Inv(st') && Covers(frame, head', st')
  {
    head', st' := HashDelete(head, x, st);
    WithoutHolds(st.app, x);
  }

  // HASH_REPLACE, up to the add: an item with the same key and hash value goes.
  method DeleteFound(head: Node?, key: Key, hashv: U32, ghost st: State, ghost frame: set<object>)
    returns (head': Node?, replaced: Node?, ghost base: State)
    requires Rep(head, st) && Inv(st) && Covers(frame, head, st)
    modifies frame
    ensures replaced == Find(st, key, hashv) && base == Unfound(st, Info(key, hashv))
    ensures Rep(head', base) && Inv(base) && Covers(frame, head', base) && Shaped(base)
  {
    FindFinds(st, key, hashv);
    replaced := HashFind(head, key, hashv, st);
    head', base := head, st;
    if replaced != null {
      head', base := DeleteWithin(head, replaced, st, frame);
    }
  }

  method AddWithin(head: Node?, x: Node, key: Key, hashv: U32, memory: Memory, config: BloomConfig,
                  ghost base: State, ghost frame: set<object>)
    returns (head': Node?, oomed: bool, ghost r: Outcome)
    requires Rep(head, base) && Inv(base) && x !in Items(base)
    requires Covers(frame, head, base) && x in frame
    modifies frame
    ensures r == Add(base, x, Info(key, hashv), memory, StartFilter(config)) && oomed == r.oomed
    ensures Rep(head', r.st) && Inv(r.st) && (oomed ==> x.tbl == null)
    ensures OwnedOrFresh(frame, head') && forall y :: y in Items(r.st) ==> y in frame
  {
    ghost var st';
    head', oomed, st' := HashAdd(head, x, key, hashv, memory, config, base);
    r := Outcome(st', oomed);
    AddItems(base, if base.Full? then |base.app| else 0, x, Info(key, hashv), memory, StartFilter(config));
  }

  // HASH_REPLACE_BYHASHVALUE; base is the table that the add finds.
  method HashReplace(head: Node?, x: Node, key: Key, hashv: U32, memory: Memory, config: BloomConfig,
                  ghost st: State, ghost frame: set<object>)
    returns (head': Node?, replaced: Node?, oomed: bool, ghost base: State, ghost r: Outcome)
    requires Rep(head, st) && Inv(st) && x !in Items(Unfound(st, Info(key, hashv)))
    requires Covers(frame, head, st) && x in frame
    modifies frame
    ensures replaced == Find(st, key, hashv) && base == Unfound(st, Info(key, hashv)) && Shaped(base)
    ensures r == Add(base, x, Info(key, hashv), memory, StartFilter(config)) && oomed == r.oomed
    ensures Rep(head', r.st) && Inv(r.st) && (oomed ==> x.tbl == null)
    ensures OwnedOrFresh(frame, head') && forall y :: y in Items(r.st) ==> y in frame
  {
    head', replaced, base := DeleteFound(head, key, hashv, st, frame);
    head', oomed, r := AddWithin(head', x, key, hashv, memory, config, base, frame);
  }

  method AddInOrderWithin(head: Node?, x: Node, key: Key, hashv: U32, cmp: Compare<Node>, memory: Memory, config: BloomConfig,
                  ghost base: State, ghost frame: set<object>)
    returns (head': Node?, oomed: bool, ghost r: Outcome)
    requires Rep(head, base) && Inv(base) && x !in Items(base)
    requires Covers(frame, head, base) && x in frame
    modifies frame
    ensures r == AddInOrder(base, x, Info(key, hashv), cmp, memory, StartFilter(config)) && oomed == r.oomed
    ensures Rep(head', r.st) && Inv(r.st) && (oomed ==> x.tbl == null)
    ensures OwnedOrFresh(frame, head') && forall y :: y in Items(r.st) ==> y in frame
  {
    ghost var st';
    head', oomed, st' := HashAddInOrder(head, x, key, hashv, cmp, memory, config, base);
    r := Outcome(st', oomed);
    AddItems(base, if base.Full? then InsertPos(cmp, base.app, x) else 0, x, Info(key, hashv), memory, StartFilter(config));
  }

  // HASH_REPLACE_INORDER_BYHASHVALUE; base is the table that the add finds.
  method HashReplaceInOrder(head: Node?, x: Node, key: Key, hashv: U32, cmp: Compare<Node>, memory: Memory, config: BloomConfig,
                  ghost st: State, ghost frame: set<object>)
    returns (head': Node?, replaced: Node?, oomed: bool, ghost base: State, ghost r: Outcome)
    requires Rep(head, st) && Inv(st) && x !in Items(Unfound(st, Info(key, hashv)))
    requires Covers(frame, head, st) && x in frame
    modifies frame
    ensures replaced == Find(st, key, hashv) && base == Unfound(st, Info(key, hashv)) && Shaped(base)
    ensures r == AddInOrder(base, x, Info(key, hashv), cmp, memory, StartFilter(config)) && oomed == r.oomed
    ensures Rep(head', r.st) && Inv(r.st) && (oomed ==> x.tbl == null)
    ensures OwnedOrFresh(frame, head') && forall y :: y in Items(r.st) ==> y in frame
  {
    head', replaced, base := DeleteFound(head, key, hashv, st, frame);
    head', oomed, r := AddInOrderWithin(head', x, key, hashv, cmp, memory, config, base, frame);
  }

  // HASH_CLEAR.
  method HashClear(head: Node?, ghost st: State) returns (head': Node?)
    requires Rep(head, st)
    ensures Rep(head', Empty)
  {
    head' := null;
  }

  // ---------- deletion-safe iteration ----------

  ghost function Survivors(p: Node -> bool, s: seq<Node>): seq<Node> {
    if s == [] then [] else
    Survivors(p, s[..|s| - 1]) + if p(s[|s| - 1]) then [] else [s[|s| - 1]]
  }

  // The list when the iteration over s stands at element i, and where that element is in it.
  ghost function Rest(p: Node -> bool, s: seq<Node>, i: nat): seq<Node> {
    if i <= |s| then Survivors(p, s[..i]) + s[i..] else []
  }

  ghost function Pos(p: Node -> bool, s: seq<Node>, i: nat): nat {
    if i <= |s| then |Survivors(p, s[..i])| else 0
  }

  ghost function Drop1(s: seq<Node>, k: nat): seq<Node>
    requires k < |s|
  {
    s[..k] + s[k + 1..]
  }

  // A deletion-safe walk over s: at turn i the list is cur(i), element i stands at pos(i) in it,
  // what follows it there is what follows it in s, and seen(i) has been visited.
  ghost predicate Walk(p: Node -> bool, s: seq<Node>, cur: nat -> seq<Node>, pos: nat -> nat, seen: nat -> seq<Node>) {
    forall i {:trigger pos(i)} :: 0 <= i < |s| ==> Turn(p, s, i, cur(i), pos(i), seen(i), cur(i + 1), seen(i + 1))
  }

  ghost predicate Turn(p: Node -> bool, s: seq<Node>, i: nat, cur: seq<Node>, k: nat, seen: seq<Node>, cur': seq<Node>, seen': seq<Node>)
    requires i < |s|
  {
    && k < |cur| && cur[k] == s[i] && At(cur, k + 1) == At(s, i + 1)
    && cur' == (if p(s[i]) then Drop1(cur, k) else cur)
    && seen' == seen + [s[i]]
  }

  lemma RestIsWalk(p: Node -> bool, s: seq<Node>) returns (cur: nat -> seq<Node>, pos: nat -> nat, seen: nat -> seq<Node>)
    ensures Walk(p, s, cur, pos, seen)
    ensures cur(0) == s && seen(0) == [] && cur(|s|) == Survivors(p, s) && seen(|s|) == s
  {
    cur, pos, seen := i => Rest(p, s, i), i => Pos(p, s, i), i => Take(s, i);
    assert s[..|s|] == s;
    forall i | 0 <= i < |s|
      ensures Turn(p, s, i, Rest(p, s, i), Pos(p, s, i), Take(s, i), Rest(p, s, i + 1), Take(s, i + 1))
    {
      NextRest(p, s, i);
    }
  }

  lemma NextRest(p: Node -> bool, s: seq<Node>, i: nat)
    requires i < |s|
    ensures Turn(p, s, i, Rest(p, s, i), Pos(p, s, i), Take(s, i), Rest(p, s, i + 1), Take(s, i + 1))
  {
    var kept := Survivors(p, s[..i]);
    assert s[..i + 1][..i] == s[..i];
    assert s[i..] == [s[i]] + s[i + 1..];
    if p(s[i]) {
      assert Drop1(kept + s[i..], |kept|) == kept + s[i + 1..];
    } else {
      assert kept + [s[i]] + s[i + 1..] == kept + s[i..];
    }
  }

  lemma DeleteItems(st: State, x: Node, k: nat)
    requires Inv(st) && st.Full? && k < |st.app| && st.app[k] == x
    ensures Items(Delete(st, x)) == Drop1(st.app, k)
  {
    IndexOfDistinct(st.app, k);
  }

  ghost function Infos(st: State): map<Node, Info> {
    if st.Empty? then map[] else st.info
  }

  // What st holds of an element is what was held of it before.
  ghost predicate InfoFrom(st: State, info: map<Node, Info>) {
    forall x :: x in Infos(st) ==> x in info && Infos(st)[x] == info[x]
  }

  lemma InfoOfItems(st: State, info: map<Node, Info>)
    requires Inv(st) && InfoFrom(st, info)
    ensures Infos(st) == map x | x in info && x in Items(st) :: info[x]
  {
  }

  // The loop body: the current element goes when p holds of it.
  method IterStep(head: Node?, el: Node, p: Node -> bool, ghost st: State, ghost k: nat, ghost frame: set<object>)
    returns (head': Node?, ghost st': State)
    requires Rep(head, st) && Inv(st) && Covers(frame, head, st) && k < |Items(st)| && Items(st)[k] == el
    modifies frame
    ensures Items(st') == if p(el) then Drop1(Items(st), k) else Items(st)
    ensures InfoFrom(st', Infos(st))
    ensures Rep(head', st') && Inv(st') && Covers(frame, head', st')
  {
    head', st' := head, st;
    if p(el) {
      head', st' := DeleteWithin(head, el, st, frame);
      DeleteItems(st, el, k);
    }
  }

  // (el) != NULL ? (el)->hh.next : NULL.
  method NextOrNull(head: Node?, el: Node?, ghost st: State, ghost k: nat) returns (tmp: Node?)
    requires Rep(head, st) && el == At(Items(st), k)
    ensures tmp == At(Items(st), k + 1)
  {
    tmp := null;
    if el != null {
      assert el == Items(st)[k];
      tmp := el.next;
    }
  }

  // The body and the step of the loop. The successor is read before the body, as the loop does.
  method IterTurn(head: Node?, el: Node, p: Node -> bool, ghost st: State, ghost k: nat, ghost frame: set<object>)
    returns (head': Node?, tmp: Node?, ghost st': State)
    requires Rep(head, st) && Inv(st) && Covers(frame, head, st) && k < |Items(st)| && Items(st)[k] == el
    modifies frame
    ensures tmp == At(Items(st), k + 1)
    ensures Items(st') == if p(el) then Drop1(Items(st), k) else Items(st)
    ensures InfoFrom(st', Infos(st))
    ensures Rep(head', st') && Inv(st') && Covers(frame, head', st')
  {
    tmp := NextOrNull(head, el, st, k);
    head', st' := IterStep(head, el, p, st, k, frame);
  }

  lemma WalkStep(p: Node -> bool, s: seq<Node>, cur: nat -> seq<Node>, pos: nat -> nat, seen: nat -> seq<Node>, i: nat)
    returns (k: nat)
    requires Walk(p, s, cur, pos, seen) && i < |s|
    ensures k < |cur(i)| && cur(i)[k] == s[i] && At(cur(i), k + 1) == At(s, i + 1)
    ensures cur(i + 1) == (if p(s[i]) then Drop1(cur(i), k) else cur(i)) && seen(i + 1) == seen(i) + [s[i]]
  {
    k := pos(i);
  }

  // The table between two turns: its value is st, its list is cur, what it holds of the elements
  // is in info, and frame covers it.
  ghost predicate Between(head: Node?, st: State, cur: seq<Node>, info: map<Node, Info>, frame: set<object>)
    reads head, if head == null then null else head.tbl, Owned(head), Items(st)
  {
    Rep(head, st) && Inv(st) && Covers(frame, head, st) && Items(st) == cur && InfoFrom(st, info)
  }

  // Turn i of a walk.
  method WalkTurn(head: Node?, el: Node, p: Node -> bool, ghost st: State, ghost s: seq<Node>,
                  ghost cur: nat -> seq<Node>, ghost pos: nat -> nat, ghost seen: nat -> seq<Node>, ghost i: nat,
                  ghost info: map<Node, Info>, ghost frame: set<object>)
    returns (head': Node?, tmp: Node?, ghost st': State)
    requires Between(head, st, cur(i), info, frame) && i < |s| && el == s[i] && Walk(p, s, cur, pos, seen)
    modifies frame
    ensures Between(head', st', cur(i + 1), info, frame)
    ensures tmp == At(s, i + 1) && seen(i + 1) == seen(i) + [el]
  {
    ghost var k := WalkStep(p, s, cur, pos, seen, i);
    head', tmp, st' := IterTurn(head, el, p, st, k, frame);
  }

  // The loop, for any description of the lists it goes through and of what it has visited. The
  // successor of the current element is read before the body, as the loop's step does.
  method IterLoop(head: Node?, p: Node -> bool, ghost st: State, ghost s: seq<Node>,
                  ghost cur: nat -> seq<Node>, ghost pos: nat -> nat, ghost seen: nat -> seq<Node>,
                  ghost info: map<Node, Info>, ghost frame: set<object>)
    returns (head': Node?, visited: seq<Node>, ghost st': State)
    requires Between(head, st, cur(0), info, frame)
    requires head == At(s, 0) && Walk(p, s, cur, pos, seen) && seen(0) == []
    modifies frame
    ensures visited == seen(|s|) && Between(head', st', cur(|s|), info, frame)
  {
    ghost var i := 0;
    var el := head;
    head', visited, st' := head, [], st;
    while el != null
      invariant i <= |s| && el == At(s, i)
      invariant Between(head', st', cur(i), info, frame)
      invariant visited == seen(i)
      decreases |s| - i
    {
      visited := visited + [el];
      head', el, st' := WalkTurn(head', el, p, st', s, cur, pos, seen, i, info, frame);
      i := i + 1;
    }
  }

  // HASH_ITER over a table whose body deletes the current element when p holds of it.
  method IterDelete(head: Node?, p: Node -> bool, ghost st: State, ghost frame: set<object>)
    returns (head': Node?, visited: seq<Node>, ghost st': State)
    requires Rep(head, st) && Inv(st) && Covers(frame, head, st)
    modifies frame
    ensures visited == Items(st)
    ensures Items(st') == Survivors(p, Items(st)) && Rep(head', st') && Inv(st')
    ensures Infos(st') == map x | x in Infos(st) && x in Survivors(p, Items(st)) :: Infos(st)[x]
    ensures Covers(frame, head', st')
  {
    ghost var s := Items(st);
    ghost var cur, pos, seen := RestIsWalk(p, s);
    head', visited, st' := IterLoop(head, p, st, s, cur, pos, seen, Infos(st), frame);
    InfoOfItems(st', Infos(st));
  }
}
