// The bottom-up merge sort of HASH_SRT and the insertion of HASH_ADD_INORDER as functions on
// sequences, and the proof that both compute the unique stable sort.
module StableSort {
  import opened Sequences

  // A C comparison function: negative or zero when the first argument may come first.
  type Compare<!T> = (T, T) -> int

  // What a sort may ask of a comparison function on the elements of s.
  ghost predicate TotalPreorder<T>(cmp: Compare<T>, s: seq<T>) {
    && (forall x, y :: x in s && y in s ==> cmp(x, y) <= 0 || cmp(y, x) <= 0)
    && (forall x, y, z :: x in s && y in s && z in s && cmp(x, y) <= 0 && cmp(y, z) <= 0 ==> cmp(x, z) <= 0)
  }

  // ---------- the functions the code computes ----------

  ghost function Merge<T>(cmp: Compare<T>, a: seq<T>, b: seq<T>): (r: seq<T>)
    ensures |r| == |a| + |b|
    decreases |a| + |b|
  {
    if a == [] then b
    else if b == [] then a
    else if cmp(a[0], b[0]) <= 0 then [a[0]] + Merge(cmp, a[1..], b)
    else [b[0]] + Merge(cmp, a, b[1..])
  }

  // One pass of HASH_SRT: neighbouring runs of length w are merged in pairs.
  ghost function MergePass<T>(cmp: Compare<T>, s: seq<T>, w: nat): (r: seq<T>)
    requires w > 0
    ensures |r| == |s|
    decreases |s|
  {
    if s == [] then [] else
    Merge(cmp, Take(s, w), Take(Drop(s, w), w)) + MergePass(cmp, Drop(Drop(s, w), w), w)
  }

  // The outer loop of HASH_SRT: the run width doubles until a pass does at most one merge.
  ghost function MergeSortFrom<T>(cmp: Compare<T>, s: seq<T>, w: nat): (r: seq<T>)
    requires w > 0
    ensures |r| == |s|
    decreases |s| - w
  {
    var t := MergePass(cmp, s, w);
    if |s| <= 2 * w then t else MergeSortFrom(cmp, t, 2 * w)
  }

  ghost function MergeSort<T>(cmp: Compare<T>, s: seq<T>): (r: seq<T>)
    ensures |r| == |s|
  {
    MergeSortFrom(cmp, s, 1)
  }

  // HASH_ADD_INORDER puts x before the first element that compares greater than it.
  ghost function Insert<T>(cmp: Compare<T>, s: seq<T>, x: T): (r: seq<T>)
    ensures |r| == |s| + 1
  {
    if s == [] || cmp(s[0], x) > 0 then [x] + s else [s[0]] + Insert(cmp, s[1..], x)
  }

  // The elements of s inserted one after the other into an empty list.
  ghost function InsertAll<T>(cmp: Compare<T>, s: seq<T>): (r: seq<T>)
    ensures |r| == |s|
  {
    if s == [] then [] else Insert(cmp, InsertAll(cmp, s[..|s| - 1]), s[|s| - 1])
  }

  // ---------- the independent definition of a stable sort ----------

  ghost predicate Sorted<T>(cmp: Compare<T>, s: seq<T>) {
    forall i, j :: 0 <= i < j < |s| ==> cmp(s[i], s[j]) <= 0
  }

  // The elements of s that compare equal to x, in the order of s.
  ghost function ClassOf<T>(cmp: Compare<T>, x: T, s: seq<T>): seq<T> {
    if s == [] then []
    else if cmp(x, s[0]) <= 0 && cmp(s[0], x) <= 0 then [s[0]] + ClassOf(cmp, x, s[1..])
    else ClassOf(cmp, x, s[1..])
  }

  ghost predicate StableSortOf<T(!new)>(cmp: Compare<T>, s: seq<T>, t: seq<T>) {
    && multiset(t) == multiset(s)
    && Sorted(cmp, t)
    && forall x :: x in s ==> ClassOf(cmp, x, t) == ClassOf(cmp, x, s)
  }

  // ---------- permutation, for any comparison function ----------

  lemma {:induction false} MergePermutes<T>(cmp: Compare<T>, a: seq<T>, b: seq<T>)
    ensures multiset(Merge(cmp, a, b)) == multiset(a) + multiset(b)
    decreases |a| + |b|
  {
    if a != [] && b != [] {
      assert a == [a[0]] + a[1..];
      assert b == [b[0]] + b[1..];
      if cmp(a[0], b[0]) <= 0 {
        MergePermutes(cmp, a[1..], b);
      } else {
        MergePermutes(cmp, a, b[1..]);
      }
    }
  }

  lemma {:induction false} MergePassPermutes<T>(cmp: Compare<T>, s: seq<T>, w: nat)
    requires w > 0
    ensures multiset(MergePass(cmp, s, w)) == multiset(s)
    decreases |s|
  {
    if s != [] {
      var rest := Drop(s, w);
      assert s == Take(s, w) + rest;
      assert rest == Take(rest, w) + Drop(rest, w);
      MergePermutes(cmp, Take(s, w), Take(rest, w));
      MergePassPermutes(cmp, Drop(rest, w), w);
    }
  }

  lemma {:induction false} MergeSortPermutes<T>(cmp: Compare<T>, s: seq<T>, w: nat)
    requires w > 0
    ensures multiset(MergeSortFrom(cmp, s, w)) == multiset(s)
    decreases |s| - w
  {
    MergePassPermutes(cmp, s, w);
    if |s| > 2 * w {
      MergeSortPermutes(cmp, MergePass(cmp, s, w), 2 * w);
    }
  }

  lemma {:induction false} InsertPermutes<T>(cmp: Compare<T>, s: seq<T>, x: T)
    ensures multiset(Insert(cmp, s, x)) == multiset(s) + multiset{x}
  {
    if s != [] && cmp(s[0], x) <= 0 {
      assert s == [s[0]] + s[1..];
      InsertPermutes(cmp, s[1..], x);
    }
  }

  lemma {:induction false} InsertAllPermutes<T>(cmp: Compare<T>, s: seq<T>)
    ensures multiset(InsertAll(cmp, s)) == multiset(s)
  {
    if s != [] {
      var k := |s| - 1;
      assert s == s[..k] + [s[k]];
      InsertAllPermutes(cmp, s[..k]);
      InsertPermutes(cmp, InsertAll(cmp, s[..k]), s[k]);
    }
  }

  // ---------- merge sort is repeated insertion ----------

  // Merging with an inserted element is inserting into the merge.
  lemma {:induction false} MergeInsert<T>(cmp: Compare<T>, a: seq<T>, b: seq<T>, x: T)
    requires TotalPreorder(cmp, a + b + [x])
    ensures Merge(cmp, a, Insert(cmp, b, x)) == Insert(cmp, Merge(cmp, a, b), x)
    decreases |a| + |b|
  {
    var all := a + b + [x];
    if a != [] {
      assert a[0] in all && x in all;
      PreorderOnSubset(cmp, all, a[1..] + b + [x]);
      MergeInsert(cmp, a[1..], b, x);
    }
    if b != [] {
      assert b[0] in all && x in all;
      PreorderOnSubset(cmp, all, a + b[1..] + [x]);
      MergeInsert(cmp, a, b[1..], x);
    }
  }

  lemma PreorderOnSubset<T>(cmp: Compare<T>, s: seq<T>, t: seq<T>)
    requires TotalPreorder(cmp, s) && forall x :: x in t ==> x in s
    ensures TotalPreorder(cmp, t)
  {
  }

  lemma {:induction false} MergeOfInsertAll<T>(cmp: Compare<T>, a: seq<T>, b: seq<T>)
    requires TotalPreorder(cmp, a + b)
    ensures Merge(cmp, InsertAll(cmp, a), InsertAll(cmp, b)) == InsertAll(cmp, a + b)
    decreases |b|
  {
    if b == [] {
      assert a + b == a;
    } else {
      var k := |b| - 1;
      var b', x := b[..k], b[k];
      assert (a + b)[..|a + b| - 1] == a + b';
      PreorderOnSubset(cmp, a + b, a + b');
      MergeOfInsertAll(cmp, a, b');
      InsertAllPermutes(cmp, a);
      InsertAllPermutes(cmp, b');
      var ia, ib := InsertAll(cmp, a), InsertAll(cmp, b');
      forall y | y in ia + ib + [x]
        ensures y in a + b
      {
        assert y in ia ==> y in multiset(ia);
        assert y in ib ==> y in multiset(ib);
      }
      PreorderOnSubset(cmp, a + b, ia + ib + [x]);
      MergeInsert(cmp, ia, ib, x);
    }
  }

  // Each run of length w replaced by its insertion sort.
  ghost function SortedRuns<T>(cmp: Compare<T>, s: seq<T>, w: nat): (r: seq<T>)
    requires w > 0
    ensures |r| == |s|
    decreases |s|
  {
    if s == [] then [] else InsertAll(cmp, Take(s, w)) + SortedRuns(cmp, Drop(s, w), w)
  }

  lemma {:induction false} SingletonRuns<T>(cmp: Compare<T>, s: seq<T>)
    ensures SortedRuns(cmp, s, 1) == s
    decreases |s|
  {
    if s != [] {
      assert Take(s, 1) == [s[0]];
      assert [s[0]][..0] == [];
      SingletonRuns(cmp, Drop(s, 1));
    }
  }

  lemma {:induction false} PassDoublesRuns<T>(cmp: Compare<T>, s: seq<T>, w: nat)
    requires w > 0 && TotalPreorder(cmp, s)
    ensures MergePass(cmp, SortedRuns(cmp, s, w), w) == SortedRuns(cmp, s, 2 * w)
    decreases |s|
  {
    if s != [] {
      var a, rest := Take(s, w), Drop(s, w);
      var b, rest' := Take(rest, w), Drop(rest, w);
      assert Take(s, 2 * w) == a + b;
      assert Drop(s, 2 * w) == rest';
      PreorderOnSubset(cmp, s, a + b);
      PreorderOnSubset(cmp, s, rest');
      MergeOfInsertAll(cmp, a, b);
      PassDoublesRuns(cmp, rest', w);
      var ia, ib := InsertAll(cmp, a), InsertAll(cmp, b);
      var r, r' := SortedRuns(cmp, s, w), SortedRuns(cmp, rest', w);
      assert r == ia + SortedRuns(cmp, rest, w);
      assert Take(r, w) == ia && Drop(r, w) == SortedRuns(cmp, rest, w);
      if rest == [] {
        assert b == [] && ib == [];
      } else {
        assert Take(Drop(r, w), w) == ib && Drop(Drop(r, w), w) == r';
      }
    }
  }

  // HASH_SRT computes what HASH_ADD_INORDER builds one element at a time.
  lemma {:induction false} MergeSortIsInsertAll<T>(cmp: Compare<T>, s: seq<T>)
    requires TotalPreorder(cmp, s)
    ensures MergeSort(cmp, s) == InsertAll(cmp, s)
  {
    SingletonRuns(cmp, s);
    MergeSortFromRuns(cmp, s, 1);
  }

  lemma {:induction false} MergeSortFromRuns<T>(cmp: Compare<T>, s: seq<T>, w: nat)
    requires w > 0 && TotalPreorder(cmp, s)
    ensures MergeSortFrom(cmp, SortedRuns(cmp, s, w), w) == InsertAll(cmp, s)
    decreases |s| - w
  {
    PassDoublesRuns(cmp, s, w);
    if |s| <= 2 * w {
      assert Take(s, 2 * w) == s && Drop(s, 2 * w) == [];
    } else {
      MergeSortFromRuns(cmp, s, 2 * w);
    }
  }

  // ---------- repeated insertion is the stable sort ----------

  lemma SortedCons<T>(cmp: Compare<T>, x: T, s: seq<T>)
    requires Sorted(cmp, s) && forall y :: y in s ==> cmp(x, y) <= 0
    ensures Sorted(cmp, [x] + s)
  {
  }

  // Everything in a sorted list whose head is greater than x is greater than x.
  lemma GreaterThanHead<T>(cmp: Compare<T>, s: seq<T>, x: T, all: seq<T>)
    requires s != [] && Sorted(cmp, s) && cmp(s[0], x) > 0
    requires TotalPreorder(cmp, all) && x in all && forall y :: y in s ==> y in all
    ensures forall y :: y in s ==> cmp(y, x) > 0 && cmp(x, y) <= 0
  {
    forall j | 0 <= j < |s|
      ensures cmp(s[j], x) > 0
    {
      assert s[0] in all && s[j] in all;
      assert j > 0 ==> cmp(s[0], s[j]) <= 0;
    }
  }

  lemma {:induction false} InsertSorted<T>(cmp: Compare<T>, s: seq<T>, x: T, all: seq<T>)
    requires TotalPreorder(cmp, all) && x in all && Sorted(cmp, s)
    requires forall y :: y in s ==> y in all
    ensures Sorted(cmp, Insert(cmp, s, x))
  {
    if s != [] && cmp(s[0], x) <= 0 {
      InsertSorted(cmp, s[1..], x, all);
      var t := Insert(cmp, s[1..], x);
      InsertPermutes(cmp, s[1..], x);
      forall y | y in t
        ensures cmp(s[0], y) <= 0
      {
        assert y in multiset(t);
      }
      SortedCons(cmp, s[0], t);
    } else if s != [] {
      GreaterThanHead(cmp, s, x, all);
      SortedCons(cmp, x, s);
    }
  }

  lemma {:induction false} InsertKeepsClasses<T>(cmp: Compare<T>, s: seq<T>, x: T, c: T, all: seq<T>)
    requires TotalPreorder(cmp, all) && x in all && c in all && Sorted(cmp, s)
    requires forall y :: y in s ==> y in all
    ensures ClassOf(cmp, c, Insert(cmp, s, x)) == ClassOf(cmp, c, s + [x])
  {
    if s != [] && cmp(s[0], x) <= 0 {
      InsertKeepsClasses(cmp, s[1..], x, c, all);
      assert (s + [x])[1..] == s[1..] + [x];
    } else if s != [] {
      GreaterThanHead(cmp, s, x, all);
      AppendAfterGreater(cmp, s, x, c, all);
    } else {
      assert s + [x] == [x] + s;
    }
  }

  // An element smaller than all of s may stand before s or after it.
  lemma AppendAfterGreater<T>(cmp: Compare<T>, s: seq<T>, x: T, c: T, all: seq<T>)
    requires TotalPreorder(cmp, all) && x in all && c in all
    requires forall y :: y in s ==> y in all && cmp(y, x) > 0
    ensures ClassOf(cmp, c, s + [x]) == ClassOf(cmp, c, [x] + s)
  {
    ClassOfAppend(cmp, c, s, [x]);
    ClassOfAppend(cmp, c, [x], s);
    if cmp(x, c) <= 0 && cmp(c, x) <= 0 {
      NoneInClass(cmp, s, x, c, all);
    }
  }

  lemma {:induction false} NoneInClass<T>(cmp: Compare<T>, s: seq<T>, x: T, c: T, all: seq<T>)
    requires TotalPreorder(cmp, all) && x in all && c in all && cmp(c, x) <= 0
    requires forall y :: y in s ==> y in all && cmp(y, x) > 0
    ensures ClassOf(cmp, c, s) == []
  {
    if s != [] {
      assert s[0] in s;
      NoneInClass(cmp, s[1..], x, c, all);
    }
  }

  lemma {:induction false} ClassOfAppend<T>(cmp: Compare<T>, c: T, s: seq<T>, t: seq<T>)
    ensures ClassOf(cmp, c, s + t) == ClassOf(cmp, c, s) + ClassOf(cmp, c, t)
  {
    if s == [] {
      assert s + t == t;
    } else {
      assert (s + t)[1..] == s[1..] + t;
      ClassOfAppend(cmp, c, s[1..], t);
    }
  }

  lemma {:induction false} InsertAllIsStable<T(!new)>(cmp: Compare<T>, s: seq<T>)
    requires TotalPreorder(cmp, s)
    ensures StableSortOf(cmp, s, InsertAll(cmp, s))
  {
    InsertAllPermutes(cmp, s);
    InsertAllSorted(cmp, s);
    forall c | c in s
      ensures ClassOf(cmp, c, InsertAll(cmp, s)) == ClassOf(cmp, c, s)
    {
      InsertAllKeepsClasses(cmp, s, s, c);
    }
  }

  lemma {:induction false} InsertAllSorted<T>(cmp: Compare<T>, s: seq<T>)
    requires TotalPreorder(cmp, s)
    ensures Sorted(cmp, InsertAll(cmp, s))
  {
    if s != [] {
      var k := |s| - 1;
      PreorderOnSubset(cmp, s, s[..k]);
      InsertAllSorted(cmp, s[..k]);
      InsertedAmong(cmp, s[..k], s);
      InsertSorted(cmp, InsertAll(cmp, s[..k]), s[k], s);
    }
  }

  lemma InsertedAmong<T>(cmp: Compare<T>, s: seq<T>, all: seq<T>)
    requires forall x :: x in s ==> x in all
    ensures forall x :: x in InsertAll(cmp, s) ==> x in all
  {
    InsertAllPermutes(cmp, s);
    forall x | x in InsertAll(cmp, s)
      ensures x in all
    {
      assert x in multiset(InsertAll(cmp, s));
      assert x in s;
    }
  }

  lemma {:induction false} InsertAllKeepsClasses<T>(cmp: Compare<T>, all: seq<T>, s: seq<T>, c: T)
    requires TotalPreorder(cmp, all) && c in all && forall x :: x in s ==> x in all
    ensures ClassOf(cmp, c, InsertAll(cmp, s)) == ClassOf(cmp, c, s)
    decreases |s|
  {
    if s != [] {
      var k := |s| - 1;
      var s', x := s[..k], s[k];
      var t := InsertAll(cmp, s');
      assert s == s' + [x];
      InsertAllKeepsClasses(cmp, all, s', c);
      InsertedAmong(cmp, s', all);
      PreorderOnSubset(cmp, all, s');
      InsertAllSorted(cmp, s');
      InsertKeepsClasses(cmp, t, x, c, all);
      ClassOfAppend(cmp, c, t, [x]);
      ClassOfAppend(cmp, c, s', [x]);
    }
  }

  // ---------- the stable sort is unique ----------

  lemma {:induction false} ClassOfHead<T>(cmp: Compare<T>, s: seq<T>)
    requires s != [] && cmp(s[0], s[0]) <= 0
    ensures ClassOf(cmp, s[0], s) == [s[0]] + ClassOf(cmp, s[0], s[1..])
  {
  }

  // Two sorted lists with the same elements and the same classes are equal.
  lemma {:induction false} SortedClassesDetermine<T(!new)>(cmp: Compare<T>, t: seq<T>, u: seq<T>)
    requires TotalPreorder(cmp, t) && multiset(t) == multiset(u) && Sorted(cmp, t) && Sorted(cmp, u)
    requires forall c :: c in t ==> ClassOf(cmp, c, t) == ClassOf(cmp, c, u)
    ensures t == u
    decreases |t|
  {
    assert |t| == |multiset(t)| == |multiset(u)| == |u|;
    if t != [] {
      HeadsEquivalent(cmp, t, u);
      SameHead(cmp, t, u);
      SameTailMultiset(t, u);
      PreorderOnSubset(cmp, t, t[1..]);
      forall c | c in t[1..]
        ensures ClassOf(cmp, c, t[1..]) == ClassOf(cmp, c, u[1..])
      {
        assert c in t;
        SameTailClass(cmp, c, t, u);
      }
      SortedTail(cmp, t);
      SortedTail(cmp, u);
      SortedClassesDetermine(cmp, t[1..], u[1..]);
      EqualFromParts(t, u);
    }
  }

  lemma EqualFromParts<T>(t: seq<T>, u: seq<T>)
    requires t != [] && u != [] && t[0] == u[0] && t[1..] == u[1..]
    ensures t == u
  {
    assert t == [t[0]] + t[1..];
    assert u == [u[0]] + u[1..];
  }

  lemma SortedTail<T>(cmp: Compare<T>, t: seq<T>)
    requires t != [] && Sorted(cmp, t)
    ensures Sorted(cmp, t[1..])
  {
  }

  lemma SameTailMultiset<T>(t: seq<T>, u: seq<T>)
    requires t != [] && u != [] && t[0] == u[0] && multiset(t) == multiset(u)
    ensures multiset(t[1..]) == multiset(u[1..])
  {
    assert t == [t[0]] + t[1..];
    assert u == [u[0]] + u[1..];
    assert multiset(t[1..]) == multiset(t) - multiset{t[0]};
  }

  lemma SameTailClass<T>(cmp: Compare<T>, c: T, t: seq<T>, u: seq<T>)
    requires t != [] && u != [] && t[0] == u[0] && ClassOf(cmp, c, t) == ClassOf(cmp, c, u)
    ensures ClassOf(cmp, c, t[1..]) == ClassOf(cmp, c, u[1..])
  {
    var ct, cu := ClassOf(cmp, c, t[1..]), ClassOf(cmp, c, u[1..]);
    if cmp(c, t[0]) <= 0 && cmp(t[0], c) <= 0 {
      assert ([t[0]] + ct)[1..] == ct && ([u[0]] + cu)[1..] == cu;
    }
  }

  lemma HeadsEquivalent<T>(cmp: Compare<T>, t: seq<T>, u: seq<T>)
    requires t != [] && u != [] && TotalPreorder(cmp, t) && multiset(t) == multiset(u)
    requires Sorted(cmp, t) && Sorted(cmp, u)
    ensures cmp(t[0], u[0]) <= 0 && cmp(u[0], t[0]) <= 0 && u[0] in t
  {
    assert t[0] in multiset(u) && u[0] in multiset(t);
    var i :| 0 <= i < |u| && u[i] == t[0];
    var j :| 0 <= j < |t| && t[j] == u[0];
    assert cmp(t[0], t[0]) <= 0 && cmp(t[j], t[j]) <= 0;
  }

  lemma SameHead<T>(cmp: Compare<T>, t: seq<T>, u: seq<T>)
    requires t != [] && u != [] && TotalPreorder(cmp, t) && u[0] in t
    requires cmp(t[0], u[0]) <= 0 && cmp(u[0], t[0]) <= 0
    requires ClassOf(cmp, t[0], t) == ClassOf(cmp, t[0], u)
    ensures t[0] == u[0]
  {
    assert t[0] in t;
    ClassOfHead(cmp, t);
    assert ClassOf(cmp, t[0], u) == [u[0]] + ClassOf(cmp, t[0], u[1..]);
    assert ClassOf(cmp, t[0], t)[0] == t[0] && ClassOf(cmp, t[0], u)[0] == u[0];
  }

  // HASH_SRT returns t exactly when t is the stable sort of s.
  lemma {:induction false} MergeSortIsTheStableSort<T(!new)>(cmp: Compare<T>, s: seq<T>, t: seq<T>)
    requires TotalPreorder(cmp, s)
    ensures MergeSort(cmp, s) == t <==> StableSortOf(cmp, s, t)
  {
    MergeSortIsInsertAll(cmp, s);
    InsertAllIsStable(cmp, s);
    var u := MergeSort(cmp, s);
    if StableSortOf(cmp, s, t) {
      forall x | x in u ensures x in s {
        assert x in multiset(u);
      }
      PreorderOnSubset(cmp, s, u);
      SortedClassesDetermine(cmp, u, t);
    }
  }

  // ---------- the same functions in the form the in-place loops follow ----------

  ghost function MergeOnto<T>(cmp: Compare<T>, out: seq<T>, s: seq<T>, i: nat, mid: nat, j: nat, hi: nat): (r: seq<T>)
    requires i <= mid <= j <= hi <= |s|
    ensures |r| == |out| + (mid - i) + (hi - j)
    decreases mid - i + hi - j
  {
    if i == mid && j == hi then out
    else if i == mid || (j < hi && cmp(s[i], s[j]) > 0) then MergeOnto(cmp, out + [s[j]], s, i, mid, j + 1, hi)
    else MergeOnto(cmp, out + [s[i]], s, i + 1, mid, j, hi)
  }

  lemma {:induction false} MergeOntoIsMerge<T>(cmp: Compare<T>, out: seq<T>, s: seq<T>, i: nat, mid: nat, j: nat, hi: nat)
    requires i <= mid <= j <= hi <= |s|
    ensures MergeOnto(cmp, out, s, i, mid, j, hi) == out + Merge(cmp, s[i..mid], s[j..hi])
    decreases mid - i + hi - j
  {
    var a, b := s[i..mid], s[j..hi];
    if i == mid && j == hi {
    } else if i == mid || (j < hi && cmp(s[i], s[j]) > 0) {
      MergeOntoIsMerge(cmp, out + [s[j]], s, i, mid, j + 1, hi);
      assert b[1..] == s[j + 1..hi] && b == [s[j]] + b[1..];
      AppendAssoc(out, s[j], Merge(cmp, a, b[1..]));
    } else {
      MergeOntoIsMerge(cmp, out + [s[i]], s, i + 1, mid, j, hi);
      assert a[1..] == s[i + 1..mid] && a == [s[i]] + a[1..];
      AppendAssoc(out, s[i], Merge(cmp, a[1..], b));
    }
  }

  lemma ConcatAssoc<T>(a: seq<T>, b: seq<T>, c: seq<T>)
    ensures a + b + c == a + (b + c)
  {
  }

  lemma AppendAssoc<T>(a: seq<T>, x: T, b: seq<T>)
    ensures a + [x] + b == a + ([x] + b)
  {
  }

  ghost function PassOnto<T>(cmp: Compare<T>, out: seq<T>, s: seq<T>, lo: nat, w: nat): (r: seq<T>)
    requires w > 0 && lo <= |s|
    ensures |r| == |out| + |s| - lo
    decreases |s| - lo
  {
    if lo == |s| then out else
    var mid := Min(lo + w, |s|);
    var hi := Min(mid + w, |s|);
    PassOnto(cmp, MergeOnto(cmp, out, s, lo, mid, mid, hi), s, hi, w)
  }

  lemma MergePassOfSuffix<T>(cmp: Compare<T>, s: seq<T>, lo: nat, mid: nat, hi: nat, w: nat)
    requires w > 0 && lo < |s| && mid == Min(lo + w, |s|) && hi == Min(mid + w, |s|)
    ensures MergePass(cmp, s[lo..], w) == Merge(cmp, s[lo..mid], s[mid..hi]) + MergePass(cmp, s[hi..], w)
  {
    var rest := s[lo..];
    assert Take(rest, w) == s[lo..mid] && Drop(rest, w) == s[mid..];
    assert Take(s[mid..], w) == s[mid..hi] && Drop(s[mid..], w) == s[hi..];
  }

  lemma PassOntoStep<T>(cmp: Compare<T>, out: seq<T>, s: seq<T>, lo: nat, mid: nat, hi: nat, w: nat, out': seq<T>)
    requires w > 0 && lo < |s| && mid == Min(lo + w, |s|) && hi == Min(mid + w, |s|)
    requires MergeOnto(cmp, out, s, lo, mid, mid, hi) == out'
    ensures PassOnto(cmp, out, s, lo, w) == PassOnto(cmp, out', s, hi, w)
  {
  }

  // One pair of runs: m is their merge, and the pass goes on at hi.
  lemma PassOntoTurn<T>(cmp: Compare<T>, out: seq<T>, s: seq<T>, lo: nat, w: nat) returns (m: seq<T>, hi: nat)
    requires w > 0 && lo < |s|
    ensures lo < hi <= |s|
    ensures PassOnto(cmp, out, s, lo, w) == PassOnto(cmp, out + m, s, hi, w)
    ensures MergePass(cmp, s[lo..], w) == m + MergePass(cmp, s[hi..], w)
  {
    var mid := Min(lo + w, |s|);
    hi := Min(mid + w, |s|);
    m := MergeOfRuns(cmp, out, s, lo, mid, hi);
    PassOntoStep(cmp, out, s, lo, mid, hi, w, out + m);
    MergePassOfSuffix(cmp, s, lo, mid, hi, w);
  }

  lemma MergeOfRuns<T>(cmp: Compare<T>, out: seq<T>, s: seq<T>, lo: nat, mid: nat, hi: nat) returns (m: seq<T>)
    requires lo <= mid <= hi <= |s|
    ensures m == Merge(cmp, s[lo..mid], s[mid..hi])
    ensures MergeOnto(cmp, out, s, lo, mid, mid, hi) == out + m
  {
    m := Merge(cmp, s[lo..mid], s[mid..hi]);
    MergeOntoIsMerge(cmp, out, s, lo, mid, mid, hi);
  }

  lemma {:induction false} PassOntoIsMergePass<T>(cmp: Compare<T>, out: seq<T>, s: seq<T>, lo: nat, w: nat)
    requires w > 0 && lo <= |s|
    ensures PassOnto(cmp, out, s, lo, w) == out + MergePass(cmp, s[lo..], w)
    decreases |s| - lo
  {
    if lo < |s| {
      var m, hi := PassOntoTurn(cmp, out, s, lo, w);
      PassOntoIsMergePass(cmp, out + m, s, hi, w);
      ConcatAssoc(out, m, MergePass(cmp, s[hi..], w));
    }
  }
}
