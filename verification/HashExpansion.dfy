// What HASH_EXPAND_BUCKETS does to a table: every chain is split between two buckets, nothing
// is lost, and the statistics it leaves are what the comments of uthash.h say.
module HashExpansion {
  import opened Sequences
  import opened HashBits
  import opened HashTypes
  import opened HashModel

  // The old bucket that new bucket c gets its items from.
  function OldBkt(c: nat, n: nat): nat
    requires c < 2 * n
  {
    if c < n then c else c - n
  }

  // The low bits of a hash value pick the old bucket, one more bit the new one.
  lemma {:induction false} BktSplits(h: nat, k: nat)
    ensures OldBkt(ToBkt(h, 2 * Pow2(k)), Pow2(k)) == ToBkt(h, Pow2(k))
  {
    if k > 0 {
      BktSplits(h / 2, k - 1);
    } else {
      assert LowBits(h, 2) == h % 2 + 2 * LowBits(h / 2, 1);
    }
  }

  // The items of s that belong in new bucket c, last one first.
  ghost function SplitRev(info: map<Node, Info>, s: seq<Node>, n2: nat, c: nat): seq<Node>
    requires n2 > 0
  {
    if s == [] then []
    else
      var front, x := s[..|s| - 1], s[|s| - 1];
      (if ToBkt(HashOf(info, x), n2) == c then [x] else []) + SplitRev(info, front, n2, c)
  }

  // How expand_mult grows while a bucket is filled to count items.
  ghost function MultFor(count: nat, ideal: nat): nat {
    if count == 0 then 0
    else
      var m := MultFor(count - 1, ideal);
      if count > ideal && count > m * ideal then m + 1 else m
  }

  // The items of a chain beyond the ideal length.
  function Excess(count: nat, ideal: nat): nat {
    if count > ideal then count - ideal else 0
  }

  ghost function SumExcess(chains: seq<seq<Node>>, ideal: nat): nat {
    if chains == [] then 0
    else SumExcess(chains[..|chains| - 1], ideal) + Excess(|chains[|chains| - 1]|, ideal)
  }

  // The part of old chain b that has been processed when the loops stand at chain i, position j.
  ghost function Part(chains: seq<seq<Node>>, b: nat, i: nat, j: nat): seq<Node>
    requires b < |chains|
  {
    if b < i then chains[b] else if b == i then Take(chains[b], j) else []
  }

  // The new chains when the loops stand at chain i, position j.
  ghost function SplitUpTo(info: map<Node, Info>, chains: seq<seq<Node>>, i: nat, j: nat): (r: seq<seq<Node>>)
    ensures |r| == 2 * |chains|
  {
    seq(2 * |chains|, c requires 0 <= c < 2 * |chains| =>
      SplitRev(info, Part(chains, OldBkt(c, |chains|), i, j), 2 * |chains|, c))
  }

  // New buckets with these chains, and with the statistics that belong to them.
  ghost function WithCounts(chains: seq<seq<Node>>, ideal: nat): Dist {
    Dist(chains, seq(|chains|, c requires 0 <= c < |chains| => MultFor(|chains[c]|, ideal)), SumExcess(chains, ideal))
  }

  lemma {:induction false} SumExcessGrows(chains: seq<seq<Node>>, c: nat, x: Node, ideal: nat)
    requires c < |chains|
    ensures SumExcess(chains[c := [x] + chains[c]], ideal) ==
            SumExcess(chains, ideal) + if |chains[c]| + 1 > ideal then 1 else 0
  {
    var k := |chains| - 1;
    var grown := chains[c := [x] + chains[c]];
    if c < k {
      assert grown[..k] == chains[..k][c := [x] + chains[c]];
      SumExcessGrows(chains[..k], c, x, ideal);
    } else {
      assert grown[..k] == chains[..k];
    }
  }

  lemma {:induction false} NothingExceeds(n: nat, ideal: nat)
    ensures SumExcess(seq(n, _ => []), ideal) == 0
  {
    if n > 0 {
      assert seq(n, _ => [])[..n - 1] == seq<seq<Node>>(n - 1, _ => []);
      NothingExceeds(n - 1, ideal);
    }
  }

  // One more item of chain i processed: what that means for new bucket k.
  lemma PartGrows(info: map<Node, Info>, chains: seq<seq<Node>>, i: nat, j: nat, k: nat, c: nat)
    requires i < |chains| && j < |chains[i]| && k < 2 * |chains|
    requires c == ToBkt(HashOf(info, chains[i][j]), 2 * |chains|) && OldBkt(c, |chains|) == i
    ensures var n := |chains|;
      var before := SplitRev(info, Part(chains, OldBkt(k, n), i, j), 2 * n, k);
      SplitRev(info, Part(chains, OldBkt(k, n), i, j + 1), 2 * n, k) ==
      if k == c then [chains[i][j]] + before else before
  {
    if OldBkt(k, |chains|) == i {
      assert Take(chains[i], j + 1) == Take(chains[i], j) + [chains[i][j]];
      SplitRevSnoc(info, Take(chains[i], j), chains[i][j], 2 * |chains|, k, c);
    }
  }

  lemma SplitRevSnoc(info: map<Node, Info>, front: seq<Node>, x: Node, n2: nat, k: nat, c: nat)
    requires n2 > 0 && c == ToBkt(HashOf(info, x), n2)
    ensures SplitRev(info, front + [x], n2, k) ==
            if k == c then [x] + SplitRev(info, front, n2, k) else SplitRev(info, front, n2, k)
  {
    var s := front + [x];
    assert s[..|s| - 1] == front && s[|s| - 1] == x;
  }

  lemma PlaceOneChains(info: map<Node, Info>, chains: seq<seq<Node>>, i: nat, j: nat, c: nat)
    requires i < |chains| && j < |chains[i]|
    requires c == ToBkt(HashOf(info, chains[i][j]), 2 * |chains|) && OldBkt(c, |chains|) == i
    ensures var placed := SplitUpTo(info, chains, i, j);
      placed[c := [chains[i][j]] + placed[c]] == SplitUpTo(info, chains, i, j + 1)
  {
    var placed, after := SplitUpTo(info, chains, i, j), SplitUpTo(info, chains, i, j + 1);
    var placed' := placed[c := [chains[i][j]] + placed[c]];
    forall k | 0 <= k < |after|
      ensures placed'[k] == after[k]
    {
      PartGrows(info, chains, i, j, k, c);
    }
  }

  lemma PlaceOneCounts(chains: seq<seq<Node>>, x: Node, c: nat, ideal: nat)
    requires c < |chains|
    ensures PlaceOne(WithCounts(chains, ideal), x, c, ideal) == WithCounts(chains[c := [x] + chains[c]], ideal)
  {
    SumExcessGrows(chains, c, x, ideal);
    assert PlaceOne(WithCounts(chains, ideal), x, c, ideal).mults ==
           WithCounts(chains[c := [x] + chains[c]], ideal).mults;
  }

  lemma ChainDone(info: map<Node, Info>, chains: seq<seq<Node>>, i: nat)
    requires i < |chains|
    ensures SplitUpTo(info, chains, i, |chains[i]|) == SplitUpTo(info, chains, i + 1, 0)
  {
    assert forall b :: 0 <= b < |chains| ==> Part(chains, b, i, |chains[i]|) == Part(chains, b, i + 1, 0);
  }

  ghost predicate InOwnBuckets(info: map<Node, Info>, chains: seq<seq<Node>>) {
    forall b, x :: 0 <= b < |chains| && x in chains[b] ==> ToBkt(HashOf(info, x), |chains|) == b
  }

  // The new buckets, with their statistics, when the loops stand at chain i, position j.
  ghost function DistAt(info: map<Node, Info>, chains: seq<seq<Node>>, i: nat, j: nat, ideal: nat): (d: Dist)
    ensures |d.chains| == |d.mults| == 2 * |chains|
  {
    WithCounts(SplitUpTo(info, chains, i, j), ideal)
  }

  // The rest of the loops turns the state at chain i, position j into the final one.
  ghost predicate Completes(info: map<Node, Info>, chains: seq<seq<Node>>, i: nat, j: nat, ideal: nat)
    requires i <= |chains| && (i < |chains| ==> j <= |chains[i]|)
  {
    PlaceFrom(info, chains, i, j, ideal, DistAt(info, chains, i, j, ideal)) == DistAt(info, chains, |chains|, 0, ideal)
  }

  lemma PlaceItemStep(k: nat, info: map<Node, Info>, chains: seq<seq<Node>>, i: nat, j: nat, ideal: nat)
    requires |chains| == Pow2(k) && InOwnBuckets(info, chains) && i < |chains| && j < |chains[i]|
    requires Completes(info, chains, i, j + 1, ideal)
    ensures Completes(info, chains, i, j, ideal)
  {
    var x := chains[i][j];
    var c := ToBkt(HashOf(info, x), 2 * |chains|);
    assert x in chains[i];
    BktSplits(HashOf(info, x), k);
    PlaceOneChains(info, chains, i, j, c);
    PlaceOneCounts(SplitUpTo(info, chains, i, j), x, c, ideal);
  }

  lemma PlaceChainStep(info: map<Node, Info>, chains: seq<seq<Node>>, i: nat, ideal: nat)
    requires i < |chains| && Completes(info, chains, i + 1, 0, ideal)
    ensures Completes(info, chains, i, |chains[i]|, ideal)
  {
    ChainDone(info, chains, i);
  }

  // Induction backwards along two nested loops.
  lemma {:induction false} NestedLoops(p: (nat, nat) -> bool, chains: seq<seq<Node>>, i: nat, j: nat)
    requires i < |chains| && j <= |chains[i]|
    requires p(|chains|, 0)
    requires forall a, b :: 0 <= a < |chains| && 0 <= b < |chains[a]| && p(a, b + 1) ==> p(a, b)
    requires forall a :: 0 <= a < |chains| && p(a + 1, 0) ==> p(a, |chains[a]|)
    ensures p(i, j)
    decreases |chains| - i, |chains[i]| - j
  {
    if j < |chains[i]| {
      NestedLoops(p, chains, i, j + 1);
    } else if i + 1 < |chains| {
      NestedLoops(p, chains, i + 1, 0);
    }
  }

  // Filling the new buckets item by item splits the old chains.
  lemma PlaceFromSplits(k: nat, info: map<Node, Info>, chains: seq<seq<Node>>, ideal: nat)
    requires |chains| == Pow2(k) && InOwnBuckets(info, chains)
    ensures Completes(info, chains, 0, 0, ideal)
  {
    var p := (i: nat, j: nat) => i <= |chains| && (i < |chains| ==> j <= |chains[i]|) && Completes(info, chains, i, j, ideal);
    forall i, j | 0 <= i < |chains| && 0 <= j < |chains[i]| && p(i, j + 1)
      ensures p(i, j)
    {
      PlaceItemStep(k, info, chains, i, j, ideal);
    }
    forall i | 0 <= i < |chains| && p(i + 1, 0)
      ensures p(i, |chains[i]|)
    {
      PlaceChainStep(info, chains, i, ideal);
    }
    NestedLoops(p, chains, 0, 0);
  }

  // The new buckets: every old chain is split, last item first, by one more bit of the hash value.
  ghost function SplitChains(info: map<Node, Info>, chains: seq<seq<Node>>): (r: seq<seq<Node>>)
    ensures |r| == 2 * |chains|
  {
    SplitUpTo(info, chains, |chains|, 0)
  }

  lemma ExpandIsSplit(st: State)
    requires st.Full? && TableInv(st)
    ensures var ideal := IdealLength(|st.app|, st.log2 + 1, 2 * |st.chains|);
      Redistribute(st.info, st.chains, ideal) ==
      WithCounts(SplitChains(st.info, st.chains), ideal)
  {
    var ideal := IdealLength(|st.app|, st.log2 + 1, 2 * |st.chains|);
    var n := |st.chains|;
    assert SplitUpTo(st.info, st.chains, 0, 0) == seq<seq<Node>>(2 * n, _ => []);
    NothingExceeds(2 * n, ideal);
    assert WithCounts(SplitUpTo(st.info, st.chains, 0, 0), ideal) == NoItems(2 * n);
    PlaceFromSplits(st.log2, st.info, st.chains, ideal);
  }

  // ---------- what a split chain holds ----------

  lemma {:induction false} SplitRevHolds(info: map<Node, Info>, s: seq<Node>, n2: nat, c: nat)
    requires n2 > 0
    ensures forall x :: x in s && ToBkt(HashOf(info, x), n2) == c ==> x in SplitRev(info, s, n2, c)
    ensures forall x :: x in SplitRev(info, s, n2, c) ==> x in s && ToBkt(HashOf(info, x), n2) == c
    ensures Distinct(s) ==> Distinct(SplitRev(info, s, n2, c))
  {
    if s != [] {
      var front, x := s[..|s| - 1], s[|s| - 1];
      assert s == front + [x];
      SplitRevHolds(info, front, n2, c);
    }
  }

  lemma SplitOneMore(info: map<Node, Info>, front: seq<Node>, x: Node, n: nat, b: nat)
    requires b < n && OldBkt(ToBkt(HashOf(info, x), 2 * n), n) == b
    ensures multiset(SplitRev(info, front + [x], 2 * n, b)) + multiset(SplitRev(info, front + [x], 2 * n, b + n))
            == multiset(SplitRev(info, front, 2 * n, b)) + multiset(SplitRev(info, front, 2 * n, b + n)) + multiset{x}
  {
    var c := ToBkt(HashOf(info, x), 2 * n);
    SplitRevSnoc(info, front, x, 2 * n, b, c);
    SplitRevSnoc(info, front, x, 2 * n, b + n, c);
  }

  // The two new chains of old bucket b share its items out exactly.
  lemma {:induction false} SplitIsExact(info: map<Node, Info>, s: seq<Node>, n: nat, b: nat)
    requires b < n && forall x :: x in s ==> OldBkt(ToBkt(HashOf(info, x), 2 * n), n) == b
    ensures multiset(SplitRev(info, s, 2 * n, b)) + multiset(SplitRev(info, s, 2 * n, b + n)) == multiset(s)
  {
    if s != [] {
      var front, x := s[..|s| - 1], s[|s| - 1];
      assert s == front + [x] && x in s;
      SplitIsExact(info, front, n, b);
      SplitOneMore(info, front, x, n, b);
    }
  }

  lemma SplitKeepsChainsInv(k: nat, app: seq<Node>, info: map<Node, Info>, chains: seq<seq<Node>>)
    requires |chains| == Pow2(k) && ChainsInv(app, info, chains)
    ensures ChainsInv(app, info, SplitChains(info, chains))
  {
    var n, r := |chains|, SplitChains(info, chains);
    forall c | 0 <= c < 2 * n
      ensures Distinct(r[c])
      ensures forall x :: x in r[c] ==> x in app && ToBkt(HashOf(info, x), 2 * n) == c
    {
      SplitRevHolds(info, chains[OldBkt(c, n)], 2 * n, c);
    }
    forall x | x in app
      ensures x in r[ToBkt(HashOf(info, x), 2 * n)]
    {
      var c := ToBkt(HashOf(info, x), 2 * n);
      BktSplits(HashOf(info, x), k);
      SplitRevHolds(info, chains[OldBkt(c, n)], 2 * n, c);
    }
  }

  // An expansion, field by field.
  lemma ExpandForm(st: State)
    requires st.Full? && TableInv(st)
    ensures var r := Expand(st);
      && r.app == st.app && r.info == st.info && r.filter == st.filter
      && r.log2 == st.log2 + 1
      && r.chains == SplitChains(st.info, st.chains)
      && r.ideal == IdealLength(|r.app|, r.log2, |r.chains|)
      && |r.mults| == |r.chains| && (forall c :: 0 <= c < |r.chains| ==> r.mults[c] == MultFor(|r.chains[c]|, r.ideal))
      && r.nonideal == SumExcess(r.chains, r.ideal)
      && r.ineff == (if r.nonideal > |r.app| / 2 then st.ineff + 1 else 0)
      && r.noexpand == (st.noexpand || r.ineff > 1)
  {
    ExpandIsSplit(st);
  }

  // HASH_EXPAND_BUCKETS is done only while noexpand is 0; it then keeps the table's invariant.
  lemma ExpandKeepsInv(st: State)
    requires st.Full? && TableInv(st) && !st.noexpand
    ensures TableInv(Expand(st))
  {
    ExpandForm(st);
    SplitKeepsChainsInv(st.log2, st.app, st.info, st.chains);
  }

  // Each old chain i is shared out exactly between the new buckets i and i + num_buckets.
  lemma SplitChainsShare(k: nat, app: seq<Node>, info: map<Node, Info>, chains: seq<seq<Node>>, i: nat)
    requires |chains| == Pow2(k) && ChainsInv(app, info, chains) && i < |chains|
    ensures var r, n := SplitChains(info, chains), |chains|;
      multiset(r[i]) + multiset(r[i + n]) == multiset(chains[i])
  {
    forall x | x in chains[i]
      ensures OldBkt(ToBkt(HashOf(info, x), 2 * |chains|), |chains|) == i
    {
      BktSplits(HashOf(info, x), k);
    }
    SplitIsExact(info, chains[i], |chains|, i);
  }

  // ---------- the statistics ----------

  // With 2^lb buckets ideal_chain_maxlen, made of a shift and a mask, is the quotient rounded up.
  lemma IdealIsCeiling(n: nat, lb: nat)
    ensures var ideal := IdealLength(n, lb, Pow2(lb));
      n <= ideal * Pow2(lb) && (n > 0 ==> ideal > 0 && (ideal - 1) * Pow2(lb) < n)
  {
    LowBitsIsRemainder(n, lb);
    RoundedUp(n, Pow2(lb));
  }

  lemma RoundedUp(n: nat, b: nat)
    requires b > 0
    ensures var q := n / b + if n % b != 0 then 1 else 0;
      n <= q * b && (n > 0 ==> q > 0 && (q - 1) * b < n)
  {
    var q, r := n / b, n % b;
    assert n == q * b + r;
    Distributes(q, b);
    if n > 0 && r == 0 {
      PositiveFactor(q, b);
    }
  }

  lemma Distributes(q: nat, b: nat)
    ensures (q + 1) * b == q * b + b && (q - 1) * b == q * b - b
  {
  }

  lemma PositiveFactor(q: nat, b: nat)
    requires q * b > 0
    ensures q > 0
  {
  }

  // The closed form of expand_mult after an expansion: no delay up to the ideal length, one step
  // at the first item beyond it, and from the second on the count in ideal lengths, rounded up.
  lemma {:induction false} MultExact(count: nat, ideal: nat)
    requires ideal > 0
    ensures var m := MultFor(count, ideal);
      if count <= ideal then m == 0
      else if count == ideal + 1 then m == 1
      else if ideal == 1 then m == count - 1
      else (m - 1) * ideal < count <= m * ideal
  {
    if count > 0 {
      MultExact(count - 1, ideal);
      if ideal > 1 && count > ideal + 1 {
        var m := MultFor(count - 1, ideal);
        assert (m + 1) * ideal == m * ideal + ideal;
        assert (m - 1) * ideal == m * ideal - ideal;
      }
    }
  }

  // A multiplier always covers its chain.
  lemma MultCovers(count: nat, ideal: nat)
    requires ideal > 0
    ensures count <= (MultFor(count, ideal) + 1) * ideal
  {
    MultExact(count, ideal);
    var m := MultFor(count, ideal);
    assert (m + 1) * ideal == m * ideal + ideal;
  }
}
