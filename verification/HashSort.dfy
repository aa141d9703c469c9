// HASH_SRT: the bottom-up merge sort that relinks the list in place.
module HashSort {
  import opened Sequences
  import opened StableSort
  import opened HashTypes
  import opened HashModel
  import opened HashInvariant
  import opened HashLists
  import opened HashTable

  // The list built so far by a merge pass: prev and next are right, except that the last
  // node's next is still unset.
  ghost predicate OutLinks(out: seq<Node>, list: Node?, tail: Node?)
    reads out`prev, out`next
  {
    && list == At(out, 0)
    && tail == At(out, |out| - 1)
    && (forall i {:trigger out[i].prev} :: 0 <= i < |out| ==> out[i].prev == At(out, i - 1))
    && (forall i {:trigger out[i].next} :: 0 <= i < |out| - 1 ==> out[i].next == out[i + 1])
  }

  // A node of s at or after lo, and before mid or at or after hi, has not been emitted yet: it is
  // not in out and its next is still the one of s.
  ghost predicate Pending(s: seq<Node>, out: seq<Node>, lo: nat, mid: nat, hi: nat)
    reads s`next
  {
    forall k {:trigger s[k].next} {:trigger s[k] in out} ::
      0 <= k < |s| && (lo <= k < mid || hi <= k) ==> s[k].next == At(s, k + 1) && s[k] !in out
  }

  method Emit(e: Node, list: Node?, tail: Node?,
              ghost s: seq<Node>, ghost out: seq<Node>, ghost lo: nat, ghost mid: nat, ghost hi: nat)
    returns (list': Node?, tail': Node)
    requires Distinct(out) && OutLinks(out, list, tail) && e !in out
    requires Pending(s, out, lo, mid, hi)
    requires forall k :: 0 <= k < |s| && (lo <= k < mid || hi <= k) ==> s[k] != e
    modifies e`prev, if tail == null then {} else {tail}`next
    ensures Distinct(out + [e]) && OutLinks(out + [e], list', tail')
    ensures Pending(s, out + [e], lo, mid, hi)
  {
    list' := list;
    if tail != null {
      tail.next := e;
    } else {
      list' := e;
    }
    e.prev := tail;
    tail' := e;
    ghost var r := out + [e];
    assert forall i :: 0 <= i < |out| ==> r[i] == out[i];
  }

  // The head of the merge loop: decide which run gives the next element and step past it.
  method NextElement(cmp: Compare<Node>, p: Node?, psize: nat, q: Node?, qsize: nat,
                     ghost s: seq<Node>, ghost i: nat, ghost mid: nat, ghost j: nat, ghost hi: nat)
    returns (e: Node, p': Node?, psize': nat, q': Node?, qsize': nat, ghost fromFirst: bool)
    requires i <= mid <= j <= hi <= |s| && psize == mid - i
    requires hi == Min(j + qsize, |s|)
    requires psize != 0 || (qsize != 0 && q != null)
    requires i < mid ==> p == s[i] && p.next == At(s, i + 1)
    requires q == At(s, j) && (j < |s| ==> s[j].next == At(s, j + 1))
    ensures fromFirst <==> i < mid && (j == hi || cmp(s[i], s[j]) <= 0)
    ensures fromFirst ==>
      e == s[i] && p' == At(s, i + 1) && psize' == psize - 1 && q' == q && qsize' == qsize
    ensures !fromFirst ==>
      j < hi && (i == mid || cmp(s[i], s[j]) > 0) &&
      e == s[j] && q' == At(s, j + 1) && qsize' == qsize - 1 && p' == p && psize' == psize
  {
    p', psize', q', qsize' := p, psize, q, qsize;
    if psize == 0 {
      e := q;
      q' := q.next;
      qsize' := qsize - 1;
      fromFirst := false;
    } else if qsize == 0 || q == null {
      e := p;
      p' := p.next;
      psize' := psize - 1;
      fromFirst := true;
    } else if cmp(p, q) <= 0 {
      e := p;
      p' := p.next;
      psize' := psize - 1;
      fromFirst := true;
    } else {
      e := q;
      q' := q.next;
      qsize' := qsize - 1;
      fromFirst := false;
    }
  }

  // One turn of the merge loop: choose the next element and append it.
  method MergeStep(cmp: Compare<Node>, p: Node?, psize: nat, q: Node?, qsize: nat, list: Node?, tail: Node?,
                   ghost s: seq<Node>, ghost out: seq<Node>, ghost i: nat, ghost mid: nat, ghost j: nat, ghost hi: nat)
    returns (p': Node?, psize': nat, q': Node?, qsize': nat, list': Node?, tail': Node?,
             ghost out': seq<Node>, ghost i': nat, ghost j': nat)
    requires i <= mid <= j <= hi <= |s| && psize == mid - i && hi == Min(j + qsize, |s|)
    requires psize != 0 || (qsize != 0 && q != null)
    requires Distinct(s) && Distinct(out) && OutLinks(out, list, tail)
    requires Pending(s, out, i, mid, j)
    requires (i < mid ==> p == s[i]) && q == At(s, j)
    modifies s`prev, if tail == null then {} else {tail}`next
    ensures i <= i' <= mid <= j <= j' <= hi && psize' == mid - i' && hi == Min(j' + qsize', |s|)
    ensures psize' + qsize' < psize + qsize
    ensures Distinct(out') && OutLinks(out', list', tail') && tail' != null && tail' in s
    ensures Pending(s, out', i', mid, j')
    ensures (i' < mid ==> p' == s[i']) && q' == At(s, j')
    ensures MergeOnto(cmp, out', s, i', mid, j', hi) == MergeOnto(cmp, out, s, i, mid, j, hi)
  {
    var e;
    ghost var fromFirst;
    e, p', psize', q', qsize', fromFirst := NextElement(cmp, p, psize, q, qsize, s, i, mid, j, hi);
    i', j' := if fromFirst then i + 1 else i, if fromFirst then j else j + 1;
    list', tail' := Emit(e, list, tail, s, out, i', mid, j');
    out' := out + [e];
  }

  // One merge of a pass: the run s[lo..mid) and the run s[mid..hi) are appended to out.
  method MergeRuns(cmp: Compare<Node>, p: Node?, psize: nat, q: Node?, qsize: nat,
                   list: Node?, tail: Node?,
                   ghost s: seq<Node>, ghost out: seq<Node>, ghost lo: nat, ghost mid: nat, ghost hi: nat)
    returns (q': Node?, list': Node?, tail': Node?, ghost out': seq<Node>)
    requires lo <= mid <= hi == Min(mid + qsize, |s|) && psize == mid - lo
    requires Distinct(s) && Distinct(out) && OutLinks(out, list, tail)
    requires tail == null || tail in s
    requires Pending(s, out, lo, mid, mid)
    requires p == At(s, lo) && q == At(s, mid)
    modifies s`prev, s`next
    ensures out' == MergeOnto(cmp, out, s, lo, mid, mid, hi)
    ensures Distinct(out') && OutLinks(out', list', tail')
    ensures tail' == null || tail' in s
    ensures Pending(s, out', hi, hi, hi) && q' == At(s, hi)
  {
    ghost var i, j := lo, mid;
    q', list', tail', out' := q, list, tail, out;
    var p', psize', qsize' := p, psize, qsize;
    while psize' != 0 || (qsize' != 0 && q' != null)
      invariant lo <= i <= mid <= j <= hi && psize' == mid - i && hi == Min(j + qsize', |s|)
      invariant Distinct(out') && OutLinks(out', list', tail')
      invariant tail' == null || tail' in s
      invariant Pending(s, out', i, mid, j)
      invariant (i < mid ==> p' == s[i]) && q' == At(s, j)
      invariant MergeOnto(cmp, out', s, i, mid, j, hi) == MergeOnto(cmp, out, s, lo, mid, mid, hi)
      decreases psize' + qsize'
    {
      p', psize', q', qsize', list', tail', out', i, j :=
        MergeStep(cmp, p', psize', q', qsize', list', tail', s, out', i, mid, j, hi);
    }
  }

  // The for loop that steps q over the first run and counts it.
  method StepRun(p: Node, w: nat, ghost s: seq<Node>, ghost lo: nat) returns (q: Node?, psize: nat)
    requires w > 0 && lo < |s| && p == s[lo]
    requires forall k {:trigger s[k].next} :: lo <= k < |s| ==> s[k].next == At(s, k + 1)
    ensures psize == Min(w, |s| - lo) && q == At(s, lo + psize)
  {
    q, psize := p, 0;
    for i := 0 to w
      invariant psize == i && lo + i < |s| && q == s[lo + i]
    {
      psize := psize + 1;
      q := q.next;
      if q == null {
        break;
      }
    }
  }

  // The end of a pass: the last node's next is cleared and the list is complete.
  method Terminate(list: Node?, tail: Node?, ghost out: seq<Node>)
    requires out != [] && Distinct(out) && OutLinks(out, list, tail)
    modifies tail`next
    ensures AppLinks(out)
  {
    assert tail == out[|out| - 1];
    tail.next := null;
  }

  // merges counts the pairs of runs up to lo, as far as the stopping test looks at it.
  ghost predicate CountsMerges(merges: nat, n: nat, w: nat, lo: nat) {
    if merges == 0 then lo == 0
    else if merges == 1 then lo == Min(2 * w, n)
    else 2 * w < n
  }

  lemma CountNext(merges: nat, n: nat, w: nat, lo: nat)
    requires CountsMerges(merges, n, w, lo) && lo < n
    ensures CountsMerges(merges + 1, n, w, Min(Min(lo + w, n) + w, n))
  {
  }

  // One turn of the pass: find the two runs that start at p and merge them.
  method MergeNext(cmp: Compare<Node>, p: Node, w: nat, list: Node?, tail: Node?,
                   ghost s: seq<Node>, ghost out: seq<Node>, ghost lo: nat, ghost mid: nat, ghost hi: nat)
    returns (q': Node?, list': Node?, tail': Node?, ghost out': seq<Node>)
    requires w > 0 && lo < |s| && p == s[lo]
    requires mid == Min(lo + w, |s|) && hi == Min(mid + w, |s|)
    requires Distinct(s) && Distinct(out) && OutLinks(out, list, tail)
    requires tail == null || tail in s
    requires Pending(s, out, lo, lo, lo)
    modifies s`prev, s`next
    ensures |out'| == |out| + hi - lo && PassOnto(cmp, out', s, hi, w) == PassOnto(cmp, out, s, lo, w)
    ensures Distinct(out') && OutLinks(out', list', tail')
    ensures tail' == null || tail' in s
    ensures Pending(s, out', hi, hi, hi) && q' == At(s, hi)
  {
    var q, psize := StepRun(p, w, s, lo);
    q', list', tail', out' := MergeRuns(cmp, p, psize, q, w, list, tail, s, out, lo, mid, hi);
  }

  // One pass over the list at run width w, up to the clearing of the last next.
  method PassLoop(cmp: Compare<Node>, head: Node, w: nat, ghost s: seq<Node>)
    returns (list: Node?, tail: Node?, merges: nat, ghost out: seq<Node>)
    requires w > 0 && s != [] && Distinct(s) && head == s[0]
    requires forall k {:trigger s[k].next} :: 0 <= k < |s| ==> s[k].next == At(s, k + 1)
    modifies s`prev, s`next
    ensures out == PassOnto(cmp, [], s, 0, w)
    ensures Distinct(out) && OutLinks(out, list, tail) && tail != null && tail in s
    ensures CountsMerges(merges, |s|, w, |s|)
  {
    var p: Node? := head;
    list, tail, merges, out := null, null, 0, [];
    ghost var lo := 0;
    while p != null
      invariant lo <= |s| && |out| == lo && p == At(s, lo)
      invariant Distinct(out) && OutLinks(out, list, tail)
      invariant tail == null || tail in s
      invariant Pending(s, out, lo, lo, lo)
      invariant PassOnto(cmp, out, s, lo, w) == PassOnto(cmp, [], s, 0, w)
      invariant CountsMerges(merges, |s|, w, lo)
      decreases |s| - lo
    {
      ghost var mid := Min(lo + w, |s|);
      ghost var hi := Min(mid + w, |s|);
      CountNext(merges, |s|, w, lo);
      merges := merges + 1;
      p, list, tail, out := MergeNext(cmp, p, w, list, tail, s, out, lo, mid, hi);
      lo := hi;
    }
  }

  // One pass over the list at run width w.
  method Pass(cmp: Compare<Node>, head: Node, w: nat, ghost s: seq<Node>)
    returns (list: Node?, tail: Node?, merges: nat)
    requires w > 0 && s != [] && Distinct(s) && head == s[0]
    requires forall k {:trigger s[k].next} :: 0 <= k < |s| ==> s[k].next == At(s, k + 1)
    modifies s`prev, s`next
    ensures var t := PassOnto(cmp, [], s, 0, w);
      Distinct(t) && AppLinks(t) && list == t[0] && tail == t[|t| - 1]
    ensures merges <= 1 <==> |s| <= 2 * w
  {
    ghost var out;
    list, tail, merges, out := PassLoop(cmp, head, w, s);
    Terminate(list, tail, out);
  }

  lemma PassSpec(cmp: Compare<Node>, s: seq<Node>, w: nat)
    requires w > 0 && Distinct(s)
    ensures PassOnto(cmp, [], s, 0, w) == MergePass(cmp, s, w)
    ensures Distinct(MergePass(cmp, s, w)) && Elements(MergePass(cmp, s, w)) == Elements(s)
  {
    assert s[0..] == s;
    PassOntoIsMergePass(cmp, [], s, 0, w);
    assert [] + MergePass(cmp, s, w) == MergePass(cmp, s, w);
    MergePassPermutes(cmp, s, w);
    SameItems(s, MergePass(cmp, s, w));
  }

  // The outer loop of HASH_SRT on the list alone.
  method SortList(cmp: Compare<Node>, head: Node, ghost s: seq<Node>) returns (list: Node, tail: Node)
    requires s != [] && Distinct(s) && head == s[0] && AppLinks(s)
    modifies Elements(s)`prev, Elements(s)`next
    ensures var r := MergeSort(cmp, s);
      Distinct(r) && Elements(r) == Elements(s) && AppLinks(r) && list == r[0] && tail == r[|r| - 1]
  {
    var insize, looping := 1, true;
    ghost var cur := s;
    list, tail := head, head;
    while looping
      invariant 0 < insize && Distinct(cur) && Elements(cur) == Elements(s) && |cur| == |s|
      invariant AppLinks(cur) && list == cur[0]
      invariant if looping then insize <= |s| && MergeSortFrom(cmp, cur, insize) == MergeSort(cmp, s)
                else cur == MergeSort(cmp, s) && tail == cur[|s| - 1]
      decreases looping, |s| - insize
    {
      var merges;
      PassSpec(cmp, cur, insize);
      list, tail, merges := Pass(cmp, list, insize, cur);
      cur := MergePass(cmp, cur, insize);
      if merges <= 1 {
        looping := false;
      }
      insize := insize * 2;
    }
  }

  method SortListOf(t: Table, head: Node, cmp: Compare<Node>, ghost s: seq<Node>) returns (head': Node)
    requires ListRep(t, head, s) && Distinct(s)
    modifies Elements(s)`prev, Elements(s)`next, t`tail
    ensures ListRep(t, head', MergeSort(cmp, s))
  {
    var tail;
    head', tail := SortList(cmp, head, s);
    t.tail := tail;
  }

  // r is st with its list in another order.
  ghost predicate Reordered(r: State, st: State) {
    st.Full? && r.Full? && r == st.(app := r.app) && Elements(r.app) == Elements(st.app) && |r.app| == |st.app|
  }

  method SortTable(t: Table, head: Node, cmp: Compare<Node>, ghost st: State, ghost r: State) returns (head': Node)
    requires Reordered(r, st) && r.app == MergeSort(cmp, st.app) && Distinct(st.app)
    requires TableAndItems(t, head, st)
    modifies Elements(st.app)`prev, Elements(st.app)`next, t`tail
    ensures TableAndItems(t, head', r)
  {
    head' := SortListOf(t, head, cmp, st.app);
    assert forall x :: x in r.app ==> x in Elements(r.app);
  }

  method SortFull(head: Node, cmp: Compare<Node>, ghost st: State, ghost r: State) returns (head': Node)
    requires Reordered(r, st) && r.app == MergeSort(cmp, st.app) && Distinct(st.app)
    requires Rep(head, st)
    modifies Elements(st.app)`prev, Elements(st.app)`next, head.tbl`tail
    ensures Rep(head', r) && head'.tbl == head.tbl
  {
    head' := SortTable(head.tbl, head, cmp, st, r);
    assert head' in Elements(r.app);
  }

  // HASH_SRT.
  method HashSort(head: Node?, cmp: Compare<Node>, ghost st: State) returns (head': Node?)
    requires Rep(head, st) && Inv(st)
    modifies Elements(Items(st))`prev, Elements(Items(st))`next, if head == null then {} else {head.tbl}`tail
    ensures Rep(head', Sort(st, cmp)) && Inv(Sort(st, cmp))
  {
    SortKeepsInv(st, cmp);
    head' := head;
    if head != null {
      SortKeepsItems(cmp, st.app);
      head' := SortFull(head, cmp, st, Sort(st, cmp));
    }
  }
}
