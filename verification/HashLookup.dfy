// What an expansion does to lookups.
module HashLookup {
  import opened Sequences
  import opened Bytes
  import opened HashBits
  import opened HashTypes
  import opened HashModel
  import opened HashExpansion
  import opened HashInvariant

  ghost predicate Matches(info: map<Node, Info>, x: Node, key: Key, hashv: U32) {
    x in info && info[x] == Info(key, hashv)
  }

  // The last element of the chain with this hash value and key.
  ghost function LastMatch(chain: seq<Node>, info: map<Node, Info>, key: Key, hashv: U32): Node? {
    if chain == [] then null
    else if Matches(info, chain[|chain| - 1], key, hashv) then chain[|chain| - 1]
    else LastMatch(chain[..|chain| - 1], info, key, hashv)
  }

  // The new chain of a hash value has the old one's matches in reverse.
  lemma {:induction false} FirstOfSplit(info: map<Node, Info>, s: seq<Node>, n2: nat, key: Key, hashv: U32)
    requires n2 > 0
    ensures FirstMatch(SplitRev(info, s, n2, ToBkt(hashv, n2)), info, key, hashv) == LastMatch(s, info, key, hashv)
  {
    if s != [] {
      var front, x := s[..|s| - 1], s[|s| - 1];
      var c := ToBkt(hashv, n2);
      FirstOfSplit(info, front, n2, key, hashv);
      var rest := SplitRev(info, front, n2, c);
      if ToBkt(HashOf(info, x), n2) == c {
        assert ([x] + rest)[1..] == rest;
      } else {
        assert [] + rest == rest;
      }
    }
  }

  // After an expansion HASH_FIND returns the last match of the old chain, where it returned the
  // first before.
  lemma FindAfterExpand(st: State, key: Key, hashv: U32)
    requires st.Full? && TableInv(st)
    ensures Find(Expand(st), key, hashv) ==
            if MayHold(st.filter, hashv) then LastMatch(st.chains[ToBkt(hashv, |st.chains|)], st.info, key, hashv)
            else null
  {
    var n := |st.chains|;
    ExpandForm(st);
    BktSplits(hashv, st.log2);
    FirstOfSplit(st.info, st.chains[ToBkt(hashv, n)], 2 * n, key, hashv);
  }

  lemma {:induction false} LastMatchIs(s: seq<Node>, info: map<Node, Info>, key: Key, hashv: U32)
    ensures var r := LastMatch(s, info, key, hashv);
      if r == null then forall x :: x in s ==> !Matches(info, x, key, hashv)
      else r in s && Matches(info, r, key, hashv)
  {
    if s != [] {
      LastMatchIs(s[..|s| - 1], info, key, hashv);
    }
  }

  // In a chain the first and the last match are one exactly when there are not two.
  lemma {:induction false} OneMatch(s: seq<Node>, info: map<Node, Info>, key: Key, hashv: U32)
    requires Distinct(s)
    ensures FirstMatch(s, info, key, hashv) == LastMatch(s, info, key, hashv) <==>
            forall x, y :: x in s && y in s && Matches(info, x, key, hashv) && Matches(info, y, key, hashv) ==> x == y
  {
    FirstMatchFinds(s, info, key, hashv);
    LastMatchIs(s, info, key, hashv);
    if s != [] {
      var rest := s[1..];
      assert s == [s[0]] + rest;
      LastMatchOfCons(s[0], rest, info, key, hashv);
      LastMatchIs(rest, info, key, hashv);
      OneMatch(rest, info, key, hashv);
    }
  }

  lemma {:induction false} LastMatchOfCons(x: Node, s: seq<Node>, info: map<Node, Info>, key: Key, hashv: U32)
    ensures LastMatch([x] + s, info, key, hashv) ==
            if LastMatch(s, info, key, hashv) != null then LastMatch(s, info, key, hashv)
            else if Matches(info, x, key, hashv) then x else null
  {
    var t := [x] + s;
    if s == [] {
      assert t[..|t| - 1] == [];
    } else {
      assert t[..|t| - 1] == [x] + s[..|s| - 1];
      LastMatchOfCons(x, s[..|s| - 1], info, key, hashv);
    }
  }

  // An expansion leaves a lookup as it is exactly when no two elements share the key and the hash
  // value that are looked up.
  lemma ExpandKeepsFind(st: State, key: Key, hashv: U32)
    requires st.Full? && TableInv(st)
    ensures Find(Expand(st), key, hashv) == Find(st, key, hashv) <==>
            forall x, y :: x in st.app && y in st.app && Matches(st.info, x, key, hashv) && Matches(st.info, y, key, hashv)
                           ==> x == y
  {
    var chain := st.chains[ToBkt(hashv, |st.chains|)];
    FindAfterExpand(st, key, hashv);
    OneMatch(chain, st.info, key, hashv);
    forall x | x in st.app && Matches(st.info, x, key, hashv)
      ensures x in chain && MayHold(st.filter, hashv)
    {
      assert HashOf(st.info, x) == hashv;
    }
  }

  // With unique keys every lookup is as before.
  lemma ExpandKeepsKeyedFinds(st: State, hash: Key -> U32, key: Key)
    requires st.Full? && TableInv(st) && Keyed(st, hash)
    ensures Find(Expand(st), key, hash(key)) == Find(st, key, hash(key))
  {
    ExpandKeepsFind(st, key, hash(key));
  }
}
