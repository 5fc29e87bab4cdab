/**
 Intrusive list nodes, and the in-place merge pass that HASH_SRT and DL_SORT2 share. The pass
 relinks next and prev through the loop variables of the two macros and is proved to compute
 the pass of module MergeSort.
 */
module ListSort {
  import opened MergeSort

  /** An element with an embedded UT_hash_handle; utlist uses only its next and prev. */
  class Node {
    const key: string
    var hashv: nat
    var next: Node?
    var prev: Node?
    var hhNext: Node?
    var hhPrev: Node?

    constructor (key: string)
      ensures this.key == key
    {
      this.key := key;
      next, prev, hhNext, hhPrev := null, null, null, null;
    }
  }

  ghost predicate Distinct(s: seq<Node>) {
    forall i, j :: 0 <= i < j < |s| ==> s[i] != s[j]
  }

  ghost predicate Apart(s: seq<Node>, t: seq<Node>) {
    forall i, j :: 0 <= i < |s| && 0 <= j < |t| ==> s[i] != t[j]
  }

  ghost function Nodes(s: seq<Node>): set<Node> {
    set n | n in s
  }

  /** Each node of s but the last points at the one after it. */
  ghost predicate Chained(s: seq<Node>)
    reads s`next
  {
    forall i :: 0 <= i < |s| - 1 ==> s[i].next == s[i + 1]
  }

  /** Each node of s points back at the one before it, the first at nothing. */
  ghost predicate BackChained(s: seq<Node>)
    reads s`prev
  {
    (s != [] ==> s[0].prev == null) && forall i :: 1 <= i < |s| ==> s[i].prev == s[i - 1]
  }

  /** s is the whole of a list in next order. */
  ghost predicate Linked(s: seq<Node>)
    reads s`next
  {
    Chained(s) && (s != [] ==> s[|s| - 1].next == null)
  }

  /** A list that ends does not meet a node twice. */
  lemma {:induction false} LinkedDistinct(s: seq<Node>)
    requires Linked(s)
    ensures Distinct(s)
  {
    forall i, j | 0 <= i < j < |s| ensures s[i] != s[j] {
      LinkedApart(s, i, j);
    }
  }

  lemma {:induction false} LinkedApart(s: seq<Node>, i: nat, j: nat)
    requires Linked(s) && i < j < |s|
    ensures s[i] != s[j]
    decreases |s| - j
  {
    if j + 1 < |s| {
      LinkedApart(s, i + 1, j + 1);
    } else {
      assert s[i].next == s[i + 1];
    }
  }

  function Head(s: seq<Node>): Node? {
    if s == [] then null else s[0]
  }

  function Last(s: seq<Node>): Node? {
    if s == [] then null else s[|s| - 1]
  }

  /** A list linked both ways, null at both ends. */
  ghost predicate AppList(s: seq<Node>)
    reads s`next, s`prev
  {
    Linked(s) && BackChained(s) && Distinct(s)
  }

  /** The state inside a merge: out is done, p is what is left of the left run, q the rest of the list. */
  ghost predicate Merging(out: seq<Node>, p: seq<Node>, q: seq<Node>)
    reads out`next, out`prev, p`next, q`next
  {
    && Chained(out) && BackChained(out) && Chained(p) && Linked(q)
    && Distinct(out) && Distinct(p) && Distinct(q)
    && Apart(out, p) && Apart(out, q) && Apart(p, q)
  }

  /** Hooks e, which left one of the runs, behind the done part. */
  method Hook(list: Node?, tail: Node?, e: Node, ghost out: seq<Node>, ghost p: seq<Node>, ghost q: seq<Node>)
    returns (list': Node, tail': Node)
    requires Merging(out, p, q)
    requires e !in out && e !in p && e !in q
    requires list == Head(out) && tail == Last(out)
    modifies Nodes(out)`next, e`prev
    ensures Merging(out + [e], p, q)
    ensures list' == Head(out + [e]) && tail' == e
  {
    if tail != null {
      tail.next := e;
      list' := list;
    } else {
      list' := e;
    }
    e.prev := tail;
    tail' := e;
    ghost var done := out + [e];
    assert forall i :: 0 <= i < |out| ==> done[i] == out[i] && done[i] != e;
    assert forall i :: 0 <= i < |out| ==> done[i].prev == old(out[i].prev);
    assert done[|out|] == e;
    assert out != [] ==> done[|out| - 1] == tail;
  }

  /** The length of the run that starts at the head of rem, and the node after it. */
  method TakeRun(p: Node, ghost rem: seq<Node>, insize: nat) returns (q: Node?, psize: nat)
    requires rem != [] && p == rem[0] && Linked(rem) && insize > 0
    ensures psize == Min(insize, |rem|)
    ensures q == Head(rem[psize..])
  {
    q := p;
    psize := 0;
    var i := 0;
    while i < insize
      invariant 0 <= i <= insize && psize == i < |rem| && q == rem[i]
    {
      psize := psize + 1;
      assert i < |rem| - 1 ==> rem[i].next == rem[i + 1];
      q := q.next;
      if q == null {
        break;
      }
      i := i + 1;
    }
  }

  /** Taking the head off the left run. */
  lemma DropLeft(out: seq<Node>, p: seq<Node>, q: seq<Node>)
    requires Merging(out, p, q) && p != []
    ensures Merging(out, p[1..], q)
    ensures p[0] !in out && p[0] !in p[1..] && p[0] !in q
    ensures |p| > 1 ==> p[0].next == p[1]
  {
  }

  /** Taking the head off the rest of the list. */
  lemma DropRight(out: seq<Node>, p: seq<Node>, q: seq<Node>)
    requires Merging(out, p, q) && q != []
    ensures Merging(out, p, q[1..])
    ensures q[0] !in out && q[0] !in p && q[0] !in q[1..]
    ensures q[0].next == Head(q[1..])
  {
  }

  /** What a merge of the run p with the first n nodes of q still has to append, and leaves behind. */
  ghost predicate Remaining(cmp: (Node, Node) -> int, goal: seq<Node>, rest: seq<Node>, out: seq<Node>, p: seq<Node>,
                            q: seq<Node>, n: nat)
  {
    var m := Min(n, |q|);
    goal == out + Merge(cmp, p, q[..m]) && rest == q[m..]
  }

  lemma RemainingLeft(cmp: (Node, Node) -> int, goal: seq<Node>, rest: seq<Node>, out: seq<Node>, p: seq<Node>,
                      q: seq<Node>, n: nat)
    requires Remaining(cmp, goal, rest, out, p, q, n) && p != []
    requires n == 0 || q == [] || cmp(p[0], q[0]) <= 0
    ensures Remaining(cmp, goal, rest, out + [p[0]], p[1..], q, n)
  {
  }

  lemma MergeTakesRight(cmp: (Node, Node) -> int, p: seq<Node>, q: seq<Node>)
    requires q != [] && (p == [] || cmp(p[0], q[0]) > 0)
    ensures Merge(cmp, p, q) == [q[0]] + Merge(cmp, p, q[1..])
  {
  }

  lemma RemainingRight(cmp: (Node, Node) -> int, goal: seq<Node>, rest: seq<Node>, out: seq<Node>, p: seq<Node>,
                       q: seq<Node>, n: nat)
    requires Remaining(cmp, goal, rest, out, p, q, n) && q != [] && n > 0
    requires p == [] || cmp(p[0], q[0]) > 0
    ensures Remaining(cmp, goal, rest, out + [q[0]], p, q[1..], n - 1)
  {
    hide Merge;
    var m := Min(n, |q|);
    MergeTakesRight(cmp, p, q[..m]);
    assert q[..m][1..] == q[1..][..m - 1];
    assert q[m..] == q[1..][m - 1..];
  }

  lemma WithinGrows(out: seq<Node>, e: Node, all: seq<Node>)
    requires Within(out, all) && e in Nodes(all)
    ensures Within(out + [e], all) && Nodes(out) <= Nodes(all)
  {
  }

  /** The two moves of a merge. */
  lemma TakeLeft(cmp: (Node, Node) -> int, goal: seq<Node>, rest: seq<Node>, out: seq<Node>, p: seq<Node>, q: seq<Node>,
                 n: nat, all: seq<Node>)
    requires Merging(out, p, q) && Remaining(cmp, goal, rest, out, p, q, n) && Within(p, all)
    requires p != [] && (n == 0 || q == [] || cmp(p[0], q[0]) <= 0)
    ensures Merging(out, p[1..], q) && Remaining(cmp, goal, rest, out + [p[0]], p[1..], q, n) && Within(p[1..], all)
    ensures p[0] !in out && p[0] !in p[1..] && p[0] !in q && p[0] in Nodes(all)
    ensures |p| > 1 ==> p[0].next == p[1..][0]
  {
    hide Merging, Remaining;
    DropLeft(out, p, q);
    RemainingLeft(cmp, goal, rest, out, p, q, n);
    assert p[0] in p;
  }

  lemma TakeRight(cmp: (Node, Node) -> int, goal: seq<Node>, rest: seq<Node>, out: seq<Node>, p: seq<Node>,
                  q: seq<Node>, n: nat, all: seq<Node>)
    requires Merging(out, p, q) && Remaining(cmp, goal, rest, out, p, q, n) && Within(q, all)
    requires q != [] && n > 0 && (p == [] || cmp(p[0], q[0]) > 0)
    ensures Merging(out, p, q[1..]) && Remaining(cmp, goal, rest, out + [q[0]], p, q[1..], n - 1) && Within(q[1..], all)
    ensures q[0] !in out && q[0] !in p && q[0] !in q[1..] && q[0] in Nodes(all)
    ensures q[0].next == Head(q[1..])
  {
    hide Merging, Remaining;
    DropRight(out, p, q);
    RemainingRight(cmp, goal, rest, out, p, q, n);
    assert q[0] in q;
  }

  /** One merge of the pass: the run of psize nodes at p with the run of at most qsize nodes at q. */
  method MergeRuns(list0: Node?, tail0: Node?, p0: Node?, psize0: nat, q0: Node?, insize: nat, cmp: (Node, Node) -> int,
                   ghost out0: seq<Node>, ghost left: seq<Node>, ghost right: seq<Node>)
    returns (list: Node?, tail: Node?, q: Node?, ghost out: seq<Node>, ghost rest: seq<Node>)
    requires Merging(out0, left, right) && list0 == Head(out0) && tail0 == Last(out0)
    requires psize0 == |left| && p0 == Head(left) && q0 == Head(right)
    modifies Nodes(out0 + left + right)`next, Nodes(out0 + left + right)`prev
    ensures Merging(out, [], rest) && list == Head(out) && tail == Last(out) && q == Head(rest)
    ensures Remaining(cmp, out, rest, out0, left, right, insize)
  {
    hide Merging, Remaining, Merge, Apart, Distinct, Linked, Chained, BackChained;
    list, tail, q, out := list0, tail0, q0, out0;
    var p, psize, qsize := p0, psize0, insize;
    ghost var P, Q := left, right;
    ghost var goal := out + Merge(cmp, P, Q[..Min(qsize, |Q|)]);
    rest := Q[Min(qsize, |Q|)..];
    assert Remaining(cmp, goal, rest, out, P, Q, qsize) by {
      RemainingStart(cmp, goal, rest, out, P, Q, qsize);
    }
    ghost var all := out0 + left + right;
    assert Within(out, all) && Within(P, all) && Within(Q, all);
    hide Within, Nodes, Min, Last;
    while psize != 0 || (qsize != 0 && q != null)
      invariant Merging(out, P, Q) && psize == |P|
      invariant psize > 0 ==> p == P[0]
      invariant q == Head(Q)
      invariant Within(out, all) && Within(P, all) && Within(Q, all)
      invariant Remaining(cmp, goal, rest, out, P, Q, qsize)
      invariant list == Head(out) && tail == Last(out)
      decreases psize + qsize
    {
      var e: Node;
      if psize == 0 {
        TakeRight(cmp, goal, rest, out, P, Q, qsize, all);
        e := q;
        q := q.next;
        qsize := qsize - 1;
        Q := Q[1..];
      } else if qsize == 0 || q == null {
        TakeLeft(cmp, goal, rest, out, P, Q, qsize, all);
        e := p;
        p := p.next;
        psize := psize - 1;
        P := P[1..];
      } else if cmp(p, q) <= 0 {
        TakeLeft(cmp, goal, rest, out, P, Q, qsize, all);
        e := p;
        p := p.next;
        psize := psize - 1;
        P := P[1..];
      } else {
        TakeRight(cmp, goal, rest, out, P, Q, qsize, all);
        e := q;
        q := q.next;
        qsize := qsize - 1;
        Q := Q[1..];
      }
      assert Remaining(cmp, goal, rest, out + [e], P, Q, qsize);
      WithinGrows(out, e, all);
      list, tail := Hook(list, tail, e, out, P, Q);
      out := out + [e];
    }
    RemainingDone(cmp, goal, rest, out, Q, qsize);
  }

  lemma RemainingStart(cmp: (Node, Node) -> int, goal: seq<Node>, rest: seq<Node>, out: seq<Node>, p: seq<Node>,
                       q: seq<Node>, n: nat)
    requires goal == out + Merge(cmp, p, q[..Min(n, |q|)]) && rest == q[Min(n, |q|)..]
    ensures Remaining(cmp, goal, rest, out, p, q, n)
  {
  }

  lemma RemainingDone(cmp: (Node, Node) -> int, goal: seq<Node>, rest: seq<Node>, out: seq<Node>, q: seq<Node>, n: nat)
    requires Remaining(cmp, goal, rest, out, [], q, n) && (n == 0 || q == [])
    ensures goal == out && rest == q
  {
  }

  lemma WholeList(s: seq<Node>)
    requires Linked(s) && Distinct(s)
    ensures Merging([], [], s)
  {
  }

  lemma RestOfList(out: seq<Node>, p: seq<Node>, q: seq<Node>)
    requires Merging(out, p, q)
    ensures Linked(q)
  {
  }

  /** Closing the list behind the last node of the done part. */
  method Close(tail: Node?, ghost out: seq<Node>)
    requires Merging(out, [], []) && tail == Last(out)
    modifies Nodes(out)`next
    ensures AppList(out)
  {
    if tail != null {
      tail.next := null;
    }
  }

  /** Cutting a list into its first run and the rest. */
  lemma CutRun(out: seq<Node>, rem: seq<Node>, n: nat)
    requires Merging(out, [], rem) && n <= |rem|
    ensures Merging(out, rem[..n], rem[n..])
  {
  }

  /** The outcome of a merge at the head of rem, in terms of the list alone. */
  lemma MergeOutcome(cmp: (Node, Node) -> int, out: seq<Node>, rem: seq<Node>, k: nat, out': seq<Node>, rest: seq<Node>)
    requires k > 0
    requires Remaining(cmp, out', rest, out, rem[..Min(k, |rem|)], rem[Min(k, |rem|)..], k)
    ensures var m, n := Min(k, |rem|), Min(2 * k, |rem|);
            m <= n && out' == out + Merge(cmp, rem[..m], rem[m..n]) && rest == rem[n..]
  {
    hide Merge;
    var m, n, q := Min(k, |rem|), Min(2 * k, |rem|), rem[Min(k, |rem|)..];
    assert q[..Min(k, |q|)] == rem[m..n] && q[Min(k, |q|)..] == rem[n..];
  }

  lemma PassUnfold(cmp: (Node, Node) -> int, out: seq<Node>, rem: seq<Node>, k: nat)
    requires k > 0 && rem != []
    ensures var m, n := Min(k, |rem|), Min(2 * k, |rem|);
            out + Pass(cmp, rem, k) == out + Merge(cmp, rem[..m], rem[m..n]) + Pass(cmp, rem[n..], k)
  {
  }

  /** One merge advances the pass. */
  lemma PassStep(cmp: (Node, Node) -> int, out: seq<Node>, rem: seq<Node>, k: nat, out': seq<Node>, rest: seq<Node>)
    requires k > 0 && rem != []
    requires Remaining(cmp, out', rest, out, rem[..Min(k, |rem|)], rem[Min(k, |rem|)..], k)
    ensures out' + Pass(cmp, rest, k) == out + Pass(cmp, rem, k)
    ensures rest == rem[Min(2 * k, |rem|)..] && |out'| == |out| + Min(2 * k, |rem|)
    ensures Within(out', out + rem) && Within(rest, rem)
  {
    hide Merge, Within, Remaining, Pass;
    MergeOutcome(cmp, out, rem, k, out', rest);
    PassUnfold(cmp, out, rem, k);
    MergeWithin(cmp, out, rem, Min(k, |rem|), Min(2 * k, |rem|));
    SuffixWithin(rem, Min(2 * k, |rem|));
  }

  lemma SuffixWithin(s: seq<Node>, n: nat)
    requires n <= |s|
    ensures Within(s[n..], s)
  {
  }

  lemma MergeWithin(cmp: (Node, Node) -> int, out: seq<Node>, rem: seq<Node>, m: nat, n: nat)
    requires m <= n <= |rem|
    ensures Within(out + Merge(cmp, rem[..m], rem[m..n]), out + rem)
  {
    hide Merge;
    MergeContents(cmp, rem[..m], rem[m..n]);
    assert multiset(rem[..m] + rem[m..n]) == multiset(rem[..m]) + multiset(rem[m..n]);
    SameElements(Merge(cmp, rem[..m], rem[m..n]), rem[..m] + rem[m..n]);
  }

  lemma PassEnd(cmp: (Node, Node) -> int, out: seq<Node>, k: nat)
    requires k > 0
    ensures out + Pass(cmp, [], k) == out
  {
  }

  /** How far the pass has come when nmerges merges are done: at most one suffices for 2 * k nodes. */
  ghost predicate MergeCount(nmerges: nat, done: nat, left: nat, k: nat) {
    && (nmerges == 0 ==> done == 0)
    && (nmerges == 1 ==> done <= 2 * k)
    && (nmerges >= 1 && left > 0 ==> done >= 2 * k)
    && (nmerges >= 2 ==> done + left > 2 * k)
  }

  /** One pass of HASH_SRT (and DL_SORT2): the list s is relinked to the pass of the merge sort. */
  method MergePass(list: Node, insize: nat, cmp: (Node, Node) -> int, ghost s: seq<Node>)
    returns (list': Node?, tail: Node?, nmerges: nat)
    requires s != [] && list == s[0] && Linked(s) && Distinct(s) && insize > 0
    modifies Nodes(s)`next, Nodes(s)`prev
    ensures AppList(Pass(cmp, s, insize))
    ensures multiset(Pass(cmp, s, insize)) == multiset(s)
    ensures list' == Head(Pass(cmp, s, insize)) && tail == Last(Pass(cmp, s, insize))
    ensures nmerges <= 1 <==> |s| <= 2 * insize
  {
    hide Merging, Merge, Apart, Distinct, BackChained, AppList, Linked, Pass, Remaining;
    var p: Node? := list;
    list', tail, nmerges := null, null, 0;
    WholeList(s);
    ghost var out: seq<Node>, rem := [], s;
    while p != null
      invariant Merging(out, [], rem) && p == Head(rem)
      invariant out + Pass(cmp, rem, insize) == Pass(cmp, s, insize)
      invariant Within(out, s) && Within(rem, s)
      invariant list' == Head(out) && tail == Last(out)
      invariant |out| + |rem| == |s|
      invariant MergeCount(nmerges, |out|, |rem|, insize)
      decreases |rem|
    {
      nmerges := nmerges + 1;
      RestOfList(out, [], rem);
      var q, psize := TakeRun(p, rem, insize);
      CutRun(out, rem, psize);
      ghost var out', rest;
      list', tail, q, out', rest := MergeRuns(list', tail, p, psize, q, insize, cmp, out, rem[..psize], rem[psize..]);
      PassStep(cmp, out, rem, insize, out', rest);
      p := q;
      out, rem := out', rest;
    }
    PassEnd(cmp, out, insize);
    Close(tail, out);
    PassContents(cmp, s, insize);
  }

  /** A utlist list: null after the last node, and the head points back at the last node. */
  ghost predicate DlList(s: seq<Node>)
    reads s
  {
    && Linked(s) && Distinct(s)
    && (s != [] ==> s[0].prev == s[|s| - 1])
    && forall i :: 1 <= i < |s| ==> s[i].prev == s[i - 1]
  }

  /** What DL_SORT2 does after each pass. */
  method CloseRing(list: Node, tail: Node, ghost s: seq<Node>)
    requires AppList(s) && list == Head(s) && tail == Last(s)
    modifies list`prev, tail`next
    ensures DlList(s)
  {
    list.prev := tail;
    tail.next := null;
  }

  /** A pass without a merge of two runs is the last one. */
  lemma BottomUpStep(cmp: (Node, Node) -> int, s: seq<Node>, k: nat)
    requires k > 0
    ensures BottomUp(cmp, s, k) == if |s| <= 2 * k then Pass(cmp, s, k) else BottomUp(cmp, Pass(cmp, s, k), 2 * k)
  {
  }

  lemma DlListParts(s: seq<Node>)
    requires DlList(s)
    ensures Linked(s) && Distinct(s)
  {
  }

  lemma SameNodes(s: seq<Node>, t: seq<Node>)
    requires multiset(s) == multiset(t)
    ensures |s| == |t| && Nodes(s) == Nodes(t)
  {
    SameElements(s, t);
  }

  /** DL_SORT2 on a list given by its head. */
  method DlSort(head: Node?, cmp: (Node, Node) -> int, ghost s: seq<Node>) returns (list: Node?)
    requires DlList(s) && head == Head(s)
    modifies Nodes(s)`next, Nodes(s)`prev
    ensures DlList(BottomUp(cmp, s, 1)) && list == Head(BottomUp(cmp, s, 1))
    ensures multiset(BottomUp(cmp, s, 1)) == multiset(s)
    ensures Orders(cmp, s) ==> Sorted(cmp, BottomUp(cmp, s, 1)) && Stable(cmp, s, BottomUp(cmp, s, 1))
  {
    hide DlList, Linked, Distinct, AppList, Pass, BottomUp, Orders, Sorted, Stable, Nodes;
    list := head;
    SortContents(cmp, s, 1);
    if list != null {
      var insize, looping := 1, true;
      ghost var t := s;
      while looping
        invariant insize > 0 && t != []
        invariant DlList(t) && list == Head(t) && multiset(t) == multiset(s)
        invariant if looping then BottomUp(cmp, t, insize) == BottomUp(cmp, s, 1) else t == BottomUp(cmp, s, 1)
        decreases looping, |s| - insize
      {
        SameNodes(s, t);
        DlListParts(t);
        BottomUpStep(cmp, t, insize);
        var tail, nmerges;
        list, tail, nmerges := MergePass(list, insize, cmp, t);
        t := Pass(cmp, t, insize);
        SameNodes(s, t);
        assert list in Nodes(t) && tail in Nodes(t) by {
          EndsAreNodes(t);
        }
        CloseRing(list, tail, t);
        if nmerges <= 1 {
          looping := false;
        }
        insize := insize * 2;
      }
    } else {
      assert BottomUp(cmp, s, 1) == s;
    }
    if Orders(cmp, s) {
      SortCorrect(cmp, s);
    }
  }

  lemma EndsAreNodes(s: seq<Node>)
    requires s != []
    ensures Head(s) in Nodes(s) && Last(s) in Nodes(s)
  {
  }
}
