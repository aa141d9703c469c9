// Every operation keeps the table's invariant, and lookup means scanning the list.
module HashInvariant {
  import opened Sequences
  import opened StableSort
  import opened Bytes
  import opened HashBits
  import opened HashTypes
  import opened HashModel
  import opened HashExpansion

  // ---------- adding ----------

  lemma SpliceHolds(s: seq<Node>, k: nat, x: Node)
    requires k <= |s|
    ensures forall y :: y in Splice(s, k, x) ==> y in s || y == x
    ensures forall y :: y in s ==> y in Splice(s, k, x)
    ensures x in Splice(s, k, x)
    ensures Distinct(s) && x !in s ==> Distinct(Splice(s, k, x))
  {
    var t := Splice(s, k, x);
    assert t[k] == x;
    assert forall i :: 0 <= i < k ==> t[i] == s[i];
    assert forall i :: k <= i < |s| ==> t[i + 1] == s[i];
    assert forall i :: k < i < |t| ==> t[i] == s[i - 1];
  }

  lemma ConsDistinct(s: seq<Node>, x: Node)
    requires Distinct(s) && x !in s
    ensures Distinct([x] + s)
  {
  }

  lemma LinkKeepsChainsInv(app: seq<Node>, info: map<Node, Info>, chains: seq<seq<Node>>, app': seq<Node>, x: Node, inf: Info)
    requires ChainsInv(app, info, chains) && x !in app
    requires forall y :: y in app' ==> y in app || y == x
    requires (forall y :: y in app ==> y in app') && x in app'
    ensures var b := ToBkt(inf.hashv, |chains|);
      ChainsInv(app', info[x := inf], chains[b := [x] + chains[b]])
  {
    var n := |chains|;
    var b := ToBkt(inf.hashv, n);
    var chain := [x] + chains[b];
    var chains', info' := chains[b := chain], info[x := inf];
    assert x !in chains[b];
    ConsDistinct(chains[b], x);
    forall c, y | 0 <= c < n && y in chains'[c]
      ensures y in app' && ToBkt(HashOf(info', y), n) == c
    {
      assert y in chains[c] || (c == b && y == x);
    }
    forall y | y in app'
      ensures y in chains'[ToBkt(HashOf(info', y), n)]
    {
      if y == x {
        assert chain[0] == x;
      } else {
        var c := ToBkt(HashOf(info, y), n);
        assert y in chains[c];
        if c == b {
          var i :| 0 <= i < |chains[b]| && chains[b][i] == y;
          assert chain[i + 1] == y;
        }
      }
    }
  }

  // A table that is sound but for the filter bit of one hash value, which the add sets last.
  ghost predicate InvButFilter(st: State, hashv: U32)
    requires st.Full?
  {
    TableInv(st.(filter := SetBit(st.filter, hashv)))
  }

  lemma LinkKeepsInv(st: State, k: nat, x: Node, inf: Info)
    requires st.Full? && TableInv(st) && k <= |st.app| && x !in st.app
    ensures InvButFilter(Link(st, k, x, inf), inf.hashv)
  {
    SpliceHolds(st.app, k, x);
    LinkKeepsChainsInv(st.app, st.info, st.chains, Splice(st.app, k, x), x, inf);
  }

  lemma NewTableInv(filter: Filter)
    ensures TableInv(NewTable(filter))
  {
  }

  lemma AddToTableKeepsInv(st: State, k: nat, x: Node, inf: Info, memory: Memory)
    requires st.Full? && TableInv(st) && k <= |st.app| && x !in st.app
    ensures var r := AddToTable(st, k, x, inf, memory);
      r.st.Full? && TableInv(r.st) && (!r.oomed ==> r.st.app != [])
  {
    var linked := Link(st, k, x, inf);
    LinkKeepsInv(st, k, x, inf);
    if MustExpand(linked, ToBkt(inf.hashv, |st.chains|)) {
      ExpandKeepsInv(linked.(filter := SetBit(linked.filter, inf.hashv)));
    }
  }

  // Every add keeps the invariant, whether its allocations succeed or not.
  lemma AddKeepsInv(st: State, k: nat, x: Node, inf: Info, memory: Memory, filter: Filter)
    requires Inv(st) && (st.Full? ==> k <= |st.app| && x !in st.app)
    ensures Inv(AddAt(st, k, x, inf, memory, filter).st)
  {
    if st.Full? {
      AddToTableKeepsInv(st, k, x, inf, memory);
    } else {
      NewTableInv(filter);
      AddToTableKeepsInv(NewTable(filter), 0, x, inf, memory);
    }
  }

  // ---------- deleting ----------

  lemma {:induction false} IndexOfDistinct(s: seq<Node>, k: nat)
    requires k < |s| && Distinct(s)
    ensures IndexOf(s, s[k]) == k
  {
  }

  lemma WithoutHolds(s: seq<Node>, x: Node)
    requires Distinct(s)
    ensures Distinct(Without(s, x))
    ensures forall y :: y in Without(s, x) ==> y in s && y != x
    ensures forall y :: y in s && y != x ==> y in Without(s, x)
    ensures |Without(s, x)| == if x in s then |s| - 1 else |s|
  {
    var k, t := IndexOf(s, x), Without(s, x);
    if k < |s| {
      assert forall i :: 0 <= i < k ==> t[i] == s[i];
      assert forall i :: k < i < |s| ==> t[i - 1] == s[i];
      assert forall i :: k <= i < |t| ==> t[i] == s[i + 1];
    } else {
      assert x !in s;
    }
  }

  lemma UnlinkKeepsChainsInv(app: seq<Node>, info: map<Node, Info>, chains: seq<seq<Node>>, app': seq<Node>, x: Node)
    requires ChainsInv(app, info, chains) && SameDomain(app, info) && x in app
    requires forall y :: y in app' ==> y in app && y != x
    requires forall y :: y in app && y != x ==> y in app'
    ensures var b := ToBkt(HashOf(info, x), |chains|);
      ChainsInv(app', info - {x}, chains[b := Without(chains[b], x)])
  {
    var n := |chains|;
    var b := ToBkt(HashOf(info, x), n);
    var chains', info' := chains[b := Without(chains[b], x)], info - {x};
    WithoutHolds(chains[b], x);
    forall c, y | 0 <= c < n && y in chains'[c]
      ensures y in app' && ToBkt(HashOf(info', y), n) == c
    {
      assert y in chains[c];
      assert y != x;
    }
    forall y | y in app'
      ensures y in chains'[ToBkt(HashOf(info', y), n)]
    {
      assert y in chains[ToBkt(HashOf(info, y), n)];
    }
  }

  lemma DeleteKeepsInv(st: State, x: Node)
    requires Inv(st) && st.Full? && x in st.app
    ensures Inv(Delete(st, x))
  {
    if |st.app| > 1 {
      WithoutHolds(st.app, x);
      UnlinkKeepsChainsInv(st.app, st.info, st.chains, Without(st.app, x), x);
      assert FilterInv(Without(st.app, x), st.info - {x}, st.filter);
    }
  }

  // ---------- sorting ----------

  lemma SortKeepsItems(cmp: Compare<Node>, s: seq<Node>)
    requires Distinct(s)
    ensures Distinct(MergeSort(cmp, s))
    ensures forall x :: x in s ==> x in MergeSort(cmp, s)
    ensures forall x :: x in MergeSort(cmp, s) ==> x in s
  {
    var t := MergeSort(cmp, s);
    MergeSortPermutes(cmp, s, 1);
    SameItems(s, t);
  }

  lemma SameItems(s: seq<Node>, t: seq<Node>)
    requires Distinct(s) && multiset(s) == multiset(t)
    ensures Distinct(t)
    ensures forall x :: x in s ==> x in t
    ensures forall x :: x in t ==> x in s
  {
    forall x | x in s ensures x in t {
      assert x in multiset(s);
    }
    forall x | x in t ensures x in s {
      assert x in multiset(t);
    }
    forall i, j | 0 <= i < j < |t|
      ensures t[i] != t[j]
    {
      if t[i] == t[j] {
        TwiceCounted(t, i, j);
        assert multiset(s)[t[i]] >= 2;
        OnceCounted(s, t[i]);
      }
    }
  }

  lemma TwiceCounted(t: seq<Node>, i: nat, j: nat)
    requires i < j < |t| && t[i] == t[j]
    ensures multiset(t)[t[i]] >= 2
  {
    assert t == t[..i] + [t[i]] + t[i + 1..j] + [t[j]] + t[j + 1..];
  }

  lemma {:induction false} OnceCounted(s: seq<Node>, x: Node)
    requires Distinct(s)
    ensures multiset(s)[x] <= 1
  {
    if s != [] {
      assert s == [s[0]] + s[1..];
      OnceCounted(s[1..], x);
      if s[0] == x {
        assert x !in s[1..];
      }
    }
  }

  lemma SortKeepsInv(st: State, cmp: Compare<Node>)
    requires Inv(st)
    ensures Inv(Sort(st, cmp))
  {
    if st.Full? {
      SortKeepsItems(cmp, st.app);
    }
  }

  // ---------- looking up ----------

  lemma {:induction false} ScanFinds(s: seq<Node>, info: map<Node, Info>, key: Key)
    ensures var r := Scan(s, info, key);
      if r == null then forall x :: x in s && x in info ==> info[x].key != key
      else r in s && r in info && info[r].key == key
  {
    if s != [] {
      ScanFinds(s[1..], info, key);
    }
  }

  lemma {:induction false} FirstMatchFinds(s: seq<Node>, info: map<Node, Info>, key: Key, hashv: U32)
    ensures var r := FirstMatch(s, info, key, hashv);
      if r == null then forall x :: x in s && x in info ==> info[x] != Info(key, hashv)
      else r in s && r in info && info[r] == Info(key, hashv)
  {
    if s != [] {
      FirstMatchFinds(s[1..], info, key, hashv);
    }
  }

  // HASH_FIND_BYHASHVALUE, even through the Bloom filter, finds an item with this key and hash
  // value exactly when there is one.
  lemma FindFinds(st: State, key: Key, hashv: U32)
    requires Inv(st)
    ensures var r := Find(st, key, hashv);
      if r == null then st.Full? ==> forall x :: x in st.app ==> st.info[x] != Info(key, hashv)
      else st.Full? && r in st.app && st.info[r] == Info(key, hashv)
  {
    if st.Full? {
      var b := ToBkt(hashv, |st.chains|);
      FirstMatchFinds(st.chains[b], st.info, key, hashv);
      forall x | x in st.app && st.info[x] == Info(key, hashv)
        ensures x in st.chains[b] && MayHold(st.filter, hashv)
      {
        assert HashOf(st.info, x) == hashv;
      }
    }
  }

  // Keys are unique and every hash value is the key's.
  ghost predicate Keyed(st: State, hash: Key -> U32) {
    st.Full? ==>
      && (forall x :: x in st.app ==> x in st.info && st.info[x].hashv == hash(st.info[x].key))
      && (forall x, y :: x in st.app && y in st.app && x != y ==> st.info[x].key != st.info[y].key)
  }

  // HASH_FIND returns what a scan of the whole list by key returns.
  lemma FindIsScan(st: State, hash: Key -> U32, key: Key)
    requires Inv(st) && Keyed(st, hash)
    ensures Find(st, key, hash(key)) == if st.Empty? then null else Scan(st.app, st.info, key)
  {
    FindFinds(st, key, hash(key));
    if st.Full? {
      ScanFinds(st.app, st.info, key);
    }
  }
}
