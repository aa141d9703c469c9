// Short runs that reach the two ways in which a key that should be found is lost or changes hands.
module HashCases {
  import opened Sequences
  import opened HashBits
  import opened HashTypes
  import opened HashModel
  import opened HashInvariant
  import opened HashRuns
  import opened HashLookup

  // A replace of the only item under its key, when there is no memory for a new table, leaves the
  // key without an item.
  lemma ReplaceLosesKey(x: Node, y: Node, inf: Info, filter: Filter)
    requires x != y
    ensures var ops := [Add(x, inf, Memory(true, true)), Replace(y, inf, Memory(false, false))];
      && LegalRun(Empty, ops, filter)
      && Find(Run(Empty, ops[..1], filter), inf.key, inf.hashv) == x
      && Find(Run(Empty, ops, filter), inf.key, inf.hashv) == null
  {
    var add, replace := Add(x, inf, Memory(true, true)), Replace(y, inf, Memory(false, false));
    var st := Step(Empty, add, filter);
    StepKeepsInv(Empty, add, filter);
    OneItem(x, inf, filter);
    FindFinds(st, inf.key, inf.hashv);
    ReplaceEmpties(st, x, y, inf, filter);
    assert [add, replace][..1] == [add] && [add, replace][1..] == [replace] && [add][1..] == [replace][1..] == [];
    FirstStep(Empty, [add], filter);
    FirstStep(Empty, [add, replace], filter);
    FirstStep(st, [replace], filter);
  }

  lemma ReplaceEmpties(st: State, x: Node, y: Node, inf: Info, filter: Filter)
    requires Inv(st) && st.Full? && st.app == [x] && Find(st, inf.key, inf.hashv) == x
    ensures var replace := Replace(y, inf, Memory(false, false));
      Legal(st, replace) && Step(st, replace, filter) == Empty
  {
  }

  lemma OneItem(x: Node, inf: Info, filter: Filter)
    ensures var st := Step(Empty, Add(x, inf, Memory(true, true)), filter);
      st.Full? && st.app == [x] && st.info == map[x := inf]
  {
  }

  // ---------- ten items under one key ----------

  ghost function Reversed(s: seq<Node>): (r: seq<Node>)
    ensures |r| == |s|
  {
    if s == [] then [] else [s[|s| - 1]] + Reversed(s[..|s| - 1])
  }

  lemma {:induction false} ReversedLast(s: seq<Node>)
    requires s != []
    ensures Reversed(s)[|s| - 1] == s[0]
  {
    if |s| > 1 {
      ReversedLast(s[..|s| - 1]);
    }
  }

  // The adds of items n to m of xs.
  ghost function AddsOf(xs: seq<Node>, inf: Info, n: nat, m: nat): seq<Op>
    requires n <= m <= |xs|
  {
    seq(m - n, i requires 0 <= i < m - n => Op.Add(xs[n + i], inf, Memory(true, true)))
  }

  // The first n of xs have been added, all under the same key and hash value.
  ghost predicate Piled(st: State, xs: seq<Node>, inf: Info, n: nat)
    requires 0 < n <= |xs|
  {
    && Inv(st) && st.Full? && |st.chains| == INITIAL_NUM_BUCKETS && |st.mults| == |st.chains|
    && !st.noexpand && st.app == xs[..n]
    && (forall x :: x in st.app ==> x in st.info && st.info[x] == inf)
    && var b := ToBkt(inf.hashv, INITIAL_NUM_BUCKETS);
    && st.chains[b] == Reversed(xs[..n]) && st.mults[b] == 0
  }

  lemma PiledFinds(st: State, xs: seq<Node>, inf: Info, n: nat)
    requires 0 < n <= |xs| && Piled(st, xs, inf, n)
    ensures Find(st, inf.key, inf.hashv) == xs[n - 1]
  {
    var chain := st.chains[ToBkt(inf.hashv, INITIAL_NUM_BUCKETS)];
    assert chain[0] == xs[n - 1] && xs[n - 1] in st.app;
    assert HashOf(st.info, xs[n - 1]) == inf.hashv;
  }

  lemma PileStarts(xs: seq<Node>, inf: Info, filter: Filter, st: State)
    requires xs != [] && st == Step(Empty, Op.Add(xs[0], inf, Memory(true, true)), filter)
    ensures Piled(st, xs, inf, 1)
  {
    var add := Op.Add(xs[0], inf, Memory(true, true));
    StepKeepsInv(Empty, add, filter);
    OneItem(xs[0], inf, filter);
    assert xs[..1] == [xs[0]] && xs[..1][..0] == [];
    assert Reversed([xs[0]]) == [xs[0]] + Reversed([]);
  }

  // Up to the ninth item nothing expands.
  lemma PileGrows(st: State, xs: seq<Node>, inf: Info, n: nat, filter: Filter, next: State)
    requires Distinct(xs) && 0 < n < |xs| && n + 1 < BKT_CAPACITY_THRESH && Piled(st, xs, inf, n)
    requires next == Step(st, Op.Add(xs[n], inf, Memory(true, true)), filter)
    ensures Legal(st, Op.Add(xs[n], inf, Memory(true, true))) && Piled(next, xs, inf, n + 1)
  {
    assert xs[n] !in xs[..n];
    StepKeepsInv(st, Op.Add(xs[n], inf, Memory(true, true)), filter);
    assert xs[..n + 1] == xs[..n] + [xs[n]] && xs[..n + 1][..n] == xs[..n];
    assert Splice(st.app, |st.app|, xs[n]) == xs[..n + 1];
  }

  lemma AddExpands(st: State, x: Node, inf: Info, filter: Filter)
    requires Inv(st) && st.Full? && MustExpand(Link(st, |st.app|, x, inf), ToBkt(inf.hashv, |st.chains|))
    ensures var linked := Link(st, |st.app|, x, inf);
      Step(st, Op.Add(x, inf, Memory(true, true)), filter) == Expand(linked.(filter := SetBit(linked.filter, inf.hashv)))
  {
  }

  lemma PileExpands(st: State, xs: seq<Node>, inf: Info, n: nat, filter: Filter) returns (lit: State)
    requires Distinct(xs) && n + 1 == |xs| == BKT_CAPACITY_THRESH && Piled(st, xs, inf, n)
    ensures Legal(st, Op.Add(xs[n], inf, Memory(true, true)))
    ensures lit.Full? && TableInv(lit) && |lit.chains| == INITIAL_NUM_BUCKETS && xs[0] in lit.app
    ensures lit.info == st.info[xs[n] := inf]
    ensures lit.chains[ToBkt(inf.hashv, INITIAL_NUM_BUCKETS)] == [xs[n]] + Reversed(xs[..n])
    ensures Step(st, Op.Add(xs[n], inf, Memory(true, true)), filter) == Expand(lit)
  {
    assert xs[n] !in xs[..n];
    var linked := Link(st, |st.app|, xs[n], inf);
    LinkKeepsInv(st, |st.app|, xs[n], inf);
    lit := linked.(filter := SetBit(linked.filter, inf.hashv));
    AddExpands(st, xs[n], inf, filter);
  }

  // The tenth expands the table, and the lookup goes from the last item added to the first.
  lemma PileTopples(st: State, xs: seq<Node>, inf: Info, n: nat, filter: Filter)
    requires Distinct(xs) && n + 1 == |xs| == BKT_CAPACITY_THRESH && Piled(st, xs, inf, n)
    ensures var add := Op.Add(xs[n], inf, Memory(true, true));
      Legal(st, add) && Inv(Step(st, add, filter)) && Find(Step(st, add, filter), inf.key, inf.hashv) == xs[0]
  {
    var lit := PileExpands(st, xs, inf, n, filter);
    StepKeepsInv(st, Op.Add(xs[n], inf, Memory(true, true)), filter);
    FindAfterExpand(lit, inf.key, inf.hashv);
    ReversedLast(xs[..n]);
    var chain := lit.chains[ToBkt(inf.hashv, INITIAL_NUM_BUCKETS)];
    assert chain[|chain| - 1] == xs[0] && xs[0] in st.app;
    assert Matches(lit.info, xs[0], inf.key, inf.hashv) && HashOf(lit.info, xs[0]) == inf.hashv;
  }

  // The lookup after m adds: the latest item, and from the tenth on the first.
  ghost function FoundAfter(xs: seq<Node>, m: nat): Node
    requires 0 < m <= |xs|
  {
    if m < BKT_CAPACITY_THRESH then xs[m - 1] else xs[0]
  }

  lemma {:induction false} PileRun(st: State, xs: seq<Node>, inf: Info, n: nat, m: nat, filter: Filter)
    requires Distinct(xs) && 0 < n <= m <= |xs| == BKT_CAPACITY_THRESH && n < |xs| && Piled(st, xs, inf, n)
    ensures LegalRun(st, AddsOf(xs, inf, n, m), filter)
    ensures Find(Run(st, AddsOf(xs, inf, n, m), filter), inf.key, inf.hashv) == FoundAfter(xs, m)
    decreases m - n
  {
    if n == m {
      PiledFinds(st, xs, inf, n);
    } else {
      var add := Op.Add(xs[n], inf, Memory(true, true));
      assert AddsOf(xs, inf, n, m) == [add] + AddsOf(xs, inf, n + 1, m);
      if n + 1 < |xs| {
        PileGrows(st, xs, inf, n, filter, Step(st, add, filter));
        PileRun(Step(st, add, filter), xs, inf, n + 1, m, filter);
      } else {
        PileTopples(st, xs, inf, n, filter);
      }
      ConsRun(st, add, AddsOf(xs, inf, n + 1, m), filter);
    }
  }

  // Ten items are added under one key and hash value, from the empty table on. The lookup returns
  // the latest until the tenth add expands the table, and then the first.
  lemma TenthAddTurnsLookup(xs: seq<Node>, inf: Info, filter: Filter, m: nat)
    requires Distinct(xs) && 0 < m <= |xs| == 10
    ensures LegalRun(Empty, AddsOf(xs, inf, 0, m), filter)
    ensures Find(Run(Empty, AddsOf(xs, inf, 0, m), filter), inf.key, inf.hashv) ==
            if m < 10 then xs[m - 1] else xs[0]
  {
    var add := Op.Add(xs[0], inf, Memory(true, true));
    assert AddsOf(xs, inf, 0, m) == [add] + AddsOf(xs, inf, 1, m);
    PileStarts(xs, inf, filter, Step(Empty, add, filter));
    PileRun(Step(Empty, add, filter), xs, inf, 1, m, filter);
    ConsRun(Empty, add, AddsOf(xs, inf, 1, m), filter);
  }
}
