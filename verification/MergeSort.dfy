/**
 The bottom-up merge sort of uthash and utlist, on sequences: what each pass computes, and why
 the last pass leaves the one stable sorted rearrangement of the list.
 */
module MergeSort {

  function Min(a: nat, b: nat): nat {
    if a < b then a else b
  }

  /** One merge: on a tie the element of the left run goes first. */
  function Merge<T>(cmp: (T, T) -> int, p: seq<T>, q: seq<T>): (r: seq<T>)
    ensures |r| == |p| + |q|
    decreases |p| + |q|
  {
    if p == [] then q
    else if q == [] then p
    else if cmp(p[0], q[0]) <= 0 then [p[0]] + Merge(cmp, p[1..], q)
    else [q[0]] + Merge(cmp, p, q[1..])
  }

  /** One pass: neighbouring runs of length k are merged, from the front of the list. */
  function Pass<T>(cmp: (T, T) -> int, s: seq<T>, k: nat): (r: seq<T>)
    requires k > 0
    ensures |r| == |s|
  {
    if s == [] then []
    else
      var m, n := Min(k, |s|), Min(2 * k, |s|);
      Merge(cmp, s[..m], s[m..n]) + Pass(cmp, s[n..], k)
  }

  /** All passes from run length k on, up to the one that needs at most one merge. */
  function BottomUp<T>(cmp: (T, T) -> int, s: seq<T>, k: nat): (r: seq<T>)
    requires k > 0
    ensures |r| == |s|
    decreases |s| - k
  {
    if |s| <= 2 * k then Pass(cmp, s, k) else BottomUp(cmp, Pass(cmp, s, k), 2 * k)
  }

  // ----- What a sort promises -----

  /** cmp orders the elements of s, ties allowed. */
  ghost predicate Orders<T>(cmp: (T, T) -> int, s: seq<T>) {
    && (forall a, b | a in s && b in s :: cmp(a, b) <= 0 || cmp(b, a) <= 0)
    && (forall a, b, c | a in s && b in s && c in s && cmp(a, b) <= 0 && cmp(b, c) <= 0 :: cmp(a, c) <= 0)
  }

  lemma Total<T>(cmp: (T, T) -> int, s: seq<T>, a: T, b: T)
    requires Orders(cmp, s) && a in s && b in s
    ensures cmp(a, b) <= 0 || cmp(b, a) <= 0
  {
  }

  lemma Transitive<T>(cmp: (T, T) -> int, s: seq<T>, a: T, b: T, c: T)
    requires Orders(cmp, s) && a in s && b in s && c in s
    requires cmp(a, b) <= 0 && cmp(b, c) <= 0
    ensures cmp(a, c) <= 0
  {
  }

  /** The elements of s are among those of dom. */
  ghost predicate Within<T>(s: seq<T>, dom: seq<T>) {
    forall e | e in s :: e in dom
  }

  ghost predicate Sorted<T>(cmp: (T, T) -> int, s: seq<T>) {
    forall i, j :: 0 <= i < j < |s| ==> cmp(s[i], s[j]) <= 0
  }

  /** The elements of s that tie with x, in their order in s. */
  ghost function Ties<T>(cmp: (T, T) -> int, x: T, s: seq<T>): (r: seq<T>)
    ensures forall e | e in r :: e in s && cmp(x, e) <= 0 && cmp(e, x) <= 0
    ensures forall e | e in s && cmp(x, e) <= 0 && cmp(e, x) <= 0 :: e in r
  {
    if s == [] then []
    else if cmp(x, s[0]) <= 0 && cmp(s[0], x) <= 0 then [s[0]] + Ties(cmp, x, s[1..])
    else Ties(cmp, x, s[1..])
  }

  /** r keeps, for every element of s, the elements that tie with it in their order. */
  ghost predicate Stable<T>(cmp: (T, T) -> int, s: seq<T>, r: seq<T>) {
    forall x | x in s :: Ties(cmp, x, r) == Ties(cmp, x, s)
  }

  // ----- Contents -----

  lemma {:induction false} MergeContents<T>(cmp: (T, T) -> int, p: seq<T>, q: seq<T>)
    ensures multiset(Merge(cmp, p, q)) == multiset(p) + multiset(q)
    decreases |p| + |q|
  {
    if p != [] && q != [] {
      assert multiset([p[0]] + p[1..]) == multiset(p) by {
        assert p == [p[0]] + p[1..];
      }
      assert multiset([q[0]] + q[1..]) == multiset(q) by {
        assert q == [q[0]] + q[1..];
      }
      if cmp(p[0], q[0]) <= 0 {
        MergeContents(cmp, p[1..], q);
      } else {
        MergeContents(cmp, p, q[1..]);
      }
    }
  }

  lemma SplitAt<T>(s: seq<T>, m: nat, n: nat)
    requires m <= n <= |s|
    ensures s == s[..n] + s[n..]
    ensures s[..n] == s[..m] + s[m..n]
  {
  }

  lemma ContentsSplit<T>(s: seq<T>, m: nat, n: nat)
    requires m <= n <= |s|
    ensures multiset(s) == multiset(s[..m]) + multiset(s[m..n]) + multiset(s[n..])
  {
    SplitAt(s, m, n);
    assert multiset(s[..n] + s[n..]) == multiset(s[..n]) + multiset(s[n..]);
    assert multiset(s[..m] + s[m..n]) == multiset(s[..m]) + multiset(s[m..n]);
  }

  lemma {:induction false} PassContents<T>(cmp: (T, T) -> int, s: seq<T>, k: nat)
    requires k > 0
    ensures multiset(Pass(cmp, s, k)) == multiset(s)
    decreases |s|
  {
    if s != [] {
      var m, n := Min(k, |s|), Min(2 * k, |s|);
      MergeContents(cmp, s[..m], s[m..n]);
      PassContents(cmp, s[n..], k);
      hide Merge;
      ContentsSplit(s, m, n);
      assert multiset(Pass(cmp, s, k)) == multiset(Merge(cmp, s[..m], s[m..n])) + multiset(Pass(cmp, s[n..], k));
    }
  }

  /** The sort rearranges the list, whatever the comparison function. */
  lemma {:induction false} SortContents<T>(cmp: (T, T) -> int, s: seq<T>, k: nat)
    requires k > 0
    ensures multiset(BottomUp(cmp, s, k)) == multiset(s)
    decreases |s| - k
  {
    PassContents(cmp, s, k);
    if |s| > 2 * k {
      SortContents(cmp, Pass(cmp, s, k), 2 * k);
    }
  }

  lemma SameElements<T>(s: seq<T>, r: seq<T>)
    requires multiset(s) == multiset(r)
    ensures |s| == |r| && Within(s, r) && Within(r, s)
  {
    assert |s| == |multiset(s)| && |r| == |multiset(r)|;
    assert forall e :: e in s <==> e in multiset(s);
    assert forall e :: e in r <==> e in multiset(r);
  }

  // ----- Order -----

  /** e comes no later than any element of s. */
  ghost predicate Leads<T>(cmp: (T, T) -> int, e: T, s: seq<T>) {
    forall x | x in s :: cmp(e, x) <= 0
  }

  lemma SortedCons<T>(cmp: (T, T) -> int, e: T, s: seq<T>)
    ensures Sorted(cmp, [e] + s) <==> Leads(cmp, e, s) && Sorted(cmp, s)
  {
    var t := [e] + s;
    if Sorted(cmp, t) {
      forall x | x in s
        ensures cmp(e, x) <= 0
      {
        var i :| 0 <= i < |s| && s[i] == x;
        assert t[0] == e && t[i + 1] == x;
      }
      forall i, j | 0 <= i < j < |s|
        ensures cmp(s[i], s[j]) <= 0
      {
        assert t[i + 1] == s[i] && t[j + 1] == s[j];
      }
    }
  }

  lemma LeadsAll<T>(cmp: (T, T) -> int, dom: seq<T>, a: T, b: T, s: seq<T>)
    requires Orders(cmp, dom) && a in dom && b in dom && Within(s, dom)
    requires cmp(a, b) <= 0 && Leads(cmp, b, s)
    ensures Leads(cmp, a, [b] + s)
  {
  }

  lemma {:induction false} MergeLeads<T>(cmp: (T, T) -> int, e: T, p: seq<T>, q: seq<T>)
    requires Leads(cmp, e, p) && Leads(cmp, e, q)
    ensures Leads(cmp, e, Merge(cmp, p, q))
  {
    MergeContents(cmp, p, q);
    assert multiset(p + q) == multiset(p) + multiset(q);
    SameElements(Merge(cmp, p, q), p + q);
  }

  lemma {:induction false} MergeSorted<T>(cmp: (T, T) -> int, dom: seq<T>, p: seq<T>, q: seq<T>)
    requires Orders(cmp, dom) && Within(p, dom) && Within(q, dom)
    requires Sorted(cmp, p) && Sorted(cmp, q)
    ensures Sorted(cmp, Merge(cmp, p, q))
    decreases |p| + |q|
  {
    hide Orders, Sorted;
    if p != [] && q != [] {
      assert p == [p[0]] + p[1..] && q == [q[0]] + q[1..];
      SortedCons(cmp, p[0], p[1..]);
      SortedCons(cmp, q[0], q[1..]);
      if cmp(p[0], q[0]) <= 0 {
        MergeSorted(cmp, dom, p[1..], q);
        LeadsAll(cmp, dom, p[0], q[0], q[1..]);
        MergeLeads(cmp, p[0], p[1..], q);
        SortedCons(cmp, p[0], Merge(cmp, p[1..], q));
      } else {
        Total(cmp, dom, p[0], q[0]);
        MergeSorted(cmp, dom, p, q[1..]);
        LeadsAll(cmp, dom, q[0], p[0], p[1..]);
        MergeLeads(cmp, q[0], p, q[1..]);
        SortedCons(cmp, q[0], Merge(cmp, p, q[1..]));
      }
    }
  }

  /** Every full or last run of length k, counted from the front, is sorted. */
  ghost predicate RunsSorted<T>(cmp: (T, T) -> int, s: seq<T>, k: nat)
    requires k > 0
    decreases |s|
  {
    s == [] || (Sorted(cmp, s[..Min(k, |s|)]) && RunsSorted(cmp, s[Min(k, |s|)..], k))
  }

  lemma {:induction false} SingletonRuns<T>(cmp: (T, T) -> int, s: seq<T>)
    ensures RunsSorted(cmp, s, 1)
    decreases |s|
  {
    if s != [] {
      SingletonRuns(cmp, s[1..]);
    }
  }

  /** The first two runs, and the runs after them. */
  lemma FirstRuns<T>(cmp: (T, T) -> int, s: seq<T>, k: nat)
    requires k > 0 && s != [] && RunsSorted(cmp, s, k)
    ensures var m, n := Min(k, |s|), Min(2 * k, |s|);
            Sorted(cmp, s[..m]) && Sorted(cmp, s[m..n]) && RunsSorted(cmp, s[n..], k)
  {
    var m, n := Min(k, |s|), Min(2 * k, |s|);
    var t := s[m..];
    if t != [] {
      assert t[..Min(k, |t|)] == s[m..n] && t[Min(k, |t|)..] == s[n..];
    }
  }

  /** A pass doubles the length of the sorted runs. */
  lemma {:induction false} PassSorted<T>(cmp: (T, T) -> int, dom: seq<T>, s: seq<T>, k: nat)
    requires k > 0 && Orders(cmp, dom) && Within(s, dom) && RunsSorted(cmp, s, k)
    ensures RunsSorted(cmp, Pass(cmp, s, k), 2 * k)
    decreases |s|
  {
    hide Orders, Sorted;
    if s != [] {
      var m, n := Min(k, |s|), Min(2 * k, |s|);
      FirstRuns(cmp, s, k);
      MergeSorted(cmp, dom, s[..m], s[m..n]);
      PassSorted(cmp, dom, s[n..], k);
      var r := Pass(cmp, s, k);
      assert r[..n] == Merge(cmp, s[..m], s[m..n]) && r[n..] == Pass(cmp, s[n..], k);
    }
  }

  lemma {:induction false} SortSorted<T>(cmp: (T, T) -> int, dom: seq<T>, s: seq<T>, k: nat)
    requires k > 0 && Orders(cmp, dom) && Within(s, dom) && RunsSorted(cmp, s, k)
    ensures Sorted(cmp, BottomUp(cmp, s, k))
    decreases |s| - k
  {
    hide Orders, Sorted;
    var r := Pass(cmp, s, k);
    PassSorted(cmp, dom, s, k);
    if |s| <= 2 * k {
      if r == [] {
        SortedNil(cmp, r);
      } else {
        assert r[..|r|] == r;
      }
    } else {
      PassContents(cmp, s, k);
      SameElements(s, r);
      SortSorted(cmp, dom, r, 2 * k);
    }
  }

  lemma SortedNil<T>(cmp: (T, T) -> int, s: seq<T>)
    requires s == []
    ensures Sorted(cmp, s)
  {
  }

  // ----- Stability -----

  lemma {:induction false} TiesConcat<T>(cmp: (T, T) -> int, x: T, s: seq<T>, t: seq<T>)
    ensures Ties(cmp, x, s + t) == Ties(cmp, x, s) + Ties(cmp, x, t)
    decreases |s|
  {
    if s == [] {
      assert s + t == t;
    } else {
      assert (s + t)[1..] == s[1..] + t;
      TiesConcat(cmp, x, s[1..], t);
    }
  }

  lemma NoTies<T>(cmp: (T, T) -> int, x: T, s: seq<T>)
    requires forall e | e in s :: !(cmp(x, e) <= 0 && cmp(e, x) <= 0)
    ensures Ties(cmp, x, s) == []
  {
  }

  /** If c ties with x and comes strictly before the head of the sorted run p, nothing in p ties with x. */
  lemma StrictlyAfter<T>(cmp: (T, T) -> int, dom: seq<T>, x: T, c: T, p: seq<T>)
    requires Orders(cmp, dom) && x in dom && c in dom && Within(p, dom)
    requires p != [] && Leads(cmp, p[0], p[1..])
    requires cmp(p[0], c) > 0 && cmp(x, c) <= 0
    ensures Ties(cmp, x, p) == []
  {
    hide Orders;
    forall e | e in p
      ensures !(cmp(x, e) <= 0 && cmp(e, x) <= 0)
    {
      if cmp(e, x) <= 0 {
        Transitive(cmp, dom, e, x, c);
        if e in p[1..] {
          Transitive(cmp, dom, p[0], e, c);
        }
      }
    }
    NoTies(cmp, x, p);
  }

  lemma {:induction false} MergeStable<T>(cmp: (T, T) -> int, dom: seq<T>, x: T, p: seq<T>, q: seq<T>)
    requires Orders(cmp, dom) && x in dom && Within(p, dom) && Within(q, dom)
    requires Sorted(cmp, p)
    ensures Ties(cmp, x, Merge(cmp, p, q)) == Ties(cmp, x, p) + Ties(cmp, x, q)
    decreases |p| + |q|
  {
    hide Orders, Sorted;
    if p != [] && q != [] {
      assert p == [p[0]] + p[1..];
      SortedCons(cmp, p[0], p[1..]);
      if cmp(p[0], q[0]) <= 0 {
        MergeStable(cmp, dom, x, p[1..], q);
      } else {
        var c := q[0];
        MergeStable(cmp, dom, x, p, q[1..]);
        if cmp(x, c) <= 0 && cmp(c, x) <= 0 {
          StrictlyAfter(cmp, dom, x, c, p);
        }
      }
    }
  }

  lemma {:induction false} PassStable<T>(cmp: (T, T) -> int, dom: seq<T>, x: T, s: seq<T>, k: nat)
    requires k > 0 && Orders(cmp, dom) && x in dom && Within(s, dom) && RunsSorted(cmp, s, k)
    ensures Ties(cmp, x, Pass(cmp, s, k)) == Ties(cmp, x, s)
    decreases |s|
  {
    hide Orders, Sorted, Ties;
    if s != [] {
      var m, n := Min(k, |s|), Min(2 * k, |s|);
      var p, q, rest := s[..m], s[m..n], s[n..];
      FirstRuns(cmp, s, k);
      MergeStable(cmp, dom, x, p, q);
      PassStable(cmp, dom, x, rest, k);
      hide RunsSorted, Within, Merge;
      TiesConcat(cmp, x, Merge(cmp, p, q), Pass(cmp, rest, k));
      TiesConcat3(cmp, x, s, m, n);
    }
  }

  lemma TiesConcat3<T>(cmp: (T, T) -> int, x: T, s: seq<T>, m: nat, n: nat)
    requires m <= n <= |s|
    ensures Ties(cmp, x, s) == Ties(cmp, x, s[..m]) + Ties(cmp, x, s[m..n]) + Ties(cmp, x, s[n..])
  {
    hide Ties;
    TiesConcat(cmp, x, s[..m], s[m..n]);
    TiesConcat(cmp, x, s[..n], s[n..]);
    SplitAt(s, m, n);
  }

  lemma {:induction false} SortStable<T>(cmp: (T, T) -> int, dom: seq<T>, x: T, s: seq<T>, k: nat)
    requires k > 0 && Orders(cmp, dom) && x in dom && Within(s, dom) && RunsSorted(cmp, s, k)
    ensures Ties(cmp, x, BottomUp(cmp, s, k)) == Ties(cmp, x, s)
    decreases |s| - k
  {
    hide Orders, Sorted, Ties;
    var r := Pass(cmp, s, k);
    PassStable(cmp, dom, x, s, k);
    if |s| > 2 * k {
      PassSorted(cmp, dom, s, k);
      PassContents(cmp, s, k);
      SameElements(s, r);
      SortStable(cmp, dom, x, r, 2 * k);
    }
  }

  /** The sort's result: a sorted, stable rearrangement of the list. */
  lemma SortCorrect<T>(cmp: (T, T) -> int, s: seq<T>)
    requires Orders(cmp, s)
    ensures multiset(BottomUp(cmp, s, 1)) == multiset(s)
    ensures Sorted(cmp, BottomUp(cmp, s, 1))
    ensures Stable(cmp, s, BottomUp(cmp, s, 1))
  {
    hide Orders, Sorted, Ties;
    SortContents(cmp, s, 1);
    SingletonRuns(cmp, s);
    SortSorted(cmp, s, s, 1);
    forall x | x in s
      ensures Ties(cmp, x, BottomUp(cmp, s, 1)) == Ties(cmp, x, s)
    {
      SortStable(cmp, s, x, s, 1);
    }
  }

  /** Two sorted lists of the same elements have tying heads. */
  lemma HeadsTie<T>(cmp: (T, T) -> int, dom: seq<T>, a: seq<T>, b: seq<T>)
    requires Orders(cmp, dom) && Within(a, dom) && a != [] && b != []
    requires Sorted(cmp, a) && Sorted(cmp, b)
    requires a[0] in b && b[0] in a
    ensures cmp(a[0], b[0]) <= 0 && cmp(b[0], a[0]) <= 0
    ensures cmp(a[0], a[0]) <= 0
  {
  }

  lemma TiesHead<T>(cmp: (T, T) -> int, x: T, e: T, s: seq<T>)
    requires cmp(x, e) <= 0 && cmp(e, x) <= 0
    ensures Ties(cmp, x, [e] + s) == [e] + Ties(cmp, x, s)
  {
  }

  lemma TiesTail<T>(cmp: (T, T) -> int, z: T, e: T, s: seq<T>, t: seq<T>)
    requires Ties(cmp, z, [e] + s) == Ties(cmp, z, [e] + t)
    ensures Ties(cmp, z, s) == Ties(cmp, z, t)
  {
    hide Ties;
    TiesConcat(cmp, z, [e], s);
    TiesConcat(cmp, z, [e], t);
    var a, b, c := Ties(cmp, z, [e]), Ties(cmp, z, s), Ties(cmp, z, t);
    assert b == (a + b)[|a|..] && c == (a + c)[|a|..];
  }

  lemma StableTail<T>(cmp: (T, T) -> int, e: T, s: seq<T>, t: seq<T>)
    requires Stable(cmp, [e] + s, [e] + t)
    ensures Stable(cmp, s, t)
  {
    hide Ties;
    forall z | z in s
      ensures Ties(cmp, z, t) == Ties(cmp, z, s)
    {
      assert z in [e] + s;
      TiesTail(cmp, z, e, s, t);
    }
  }

  lemma ContentsTail<T>(e: T, s: seq<T>, t: seq<T>)
    requires multiset([e] + s) == multiset([e] + t)
    ensures multiset(s) == multiset(t)
  {
    assert multiset(s) == multiset([e] + s) - multiset{e};
    assert multiset(t) == multiset([e] + t) - multiset{e};
  }

  /** There is only one such rearrangement. */
  lemma {:induction false} StableSortUnique<T>(cmp: (T, T) -> int, dom: seq<T>, a: seq<T>, b: seq<T>)
    requires Orders(cmp, dom) && Within(a, dom)
    requires Sorted(cmp, a) && Sorted(cmp, b)
    requires multiset(a) == multiset(b)
    requires Stable(cmp, a, b)
    ensures a == b
    decreases |a|
  {
    hide Orders, Sorted, Ties;
    SameElements(a, b);
    if a != [] {
      var x, a', b' := a[0], a[1..], b[1..];
      assert a == [a[0]] + a' && b == [b[0]] + b';
      assert x in a && b[0] in b;
      HeadsTie(cmp, dom, a, b);
      TiesHead(cmp, x, x, a');
      TiesHead(cmp, x, b[0], b');
      assert x == Ties(cmp, x, a)[0] == Ties(cmp, x, b)[0] == b[0];
      ContentsTail(x, a', b');
      SortedCons(cmp, x, a');
      SortedCons(cmp, x, b');
      StableTail(cmp, x, a', b');
      StableSortUnique(cmp, dom, a', b');
    }
  }
}
