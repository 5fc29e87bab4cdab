/**
 Whole runs of a hash table: adds of fresh keys, deletes, finds and sorts in any order, for any
 hash function, answered as a plain map from keys to elements would answer them.
 */
module HashRuns {
  import opened MergeSort
  import opened ListSort
  import opened UtHash
  import opened HashTable

  datatype Op = Add(n: Node) | Delete(n: Node) | Find(key: string) | Sort(cmp: (Node, Node) -> int)

  // ----- The abstract table: a map, and the application order -----

  function MapStep(m: map<string, Node>, op: Op): map<string, Node> {
    match op
    case Add(n) => m[n.key := n]
    case Delete(n) => m - {n.key}
    case _ => m
  }

  /** What the finds of a run answer. */
  function MapAnswers(m: map<string, Node>, ops: seq<Op>): seq<Node?>
    decreases |ops|
  {
    if ops == [] then []
    else
      (if ops[0].Find? then [if ops[0].key in m then m[ops[0].key] else null] else [])
      + MapAnswers(MapStep(m, ops[0]), ops[1..])
  }

  /** Adds bring elements under fresh keys, deletes name elements of the table. */
  ghost predicate Legal(m: map<string, Node>, ops: seq<Op>)
    decreases |ops|
  {
    ops == [] ||
    (&& (ops[0].Add? ==> ops[0].n.key !in m)
     && (ops[0].Delete? ==> ops[0].n.key in m && m[ops[0].n.key] == ops[0].n)
     && Legal(MapStep(m, ops[0]), ops[1..]))
  }

  function Without(s: seq<Node>, n: Node): seq<Node> {
    if s == [] then [] else if s[0] == n then s[1..] else [s[0]] + Without(s[1..], n)
  }

  /** Adds go to the end, deletes keep the order of the others, a sort is the merge sort. */
  function OrderStep(s: seq<Node>, op: Op): seq<Node> {
    match op
    case Add(n) => s + [n]
    case Delete(n) => Without(s, n)
    case Find(_) => s
    case Sort(cmp) => BottomUp(cmp, s, 1)
  }

  function OrderAfter(s: seq<Node>, ops: seq<Op>): seq<Node>
    decreases |ops|
  {
    if ops == [] then s else OrderAfter(OrderStep(s, ops[0]), ops[1..])
  }

  /** The elements in application order are those of the map. */
  ghost predicate Represents(s: seq<Node>, m: map<string, Node>) {
    && (forall n | n in s :: n.key in m && m[n.key] == n)
    && (forall k | k in m :: m[k] in s && m[k].key == k)
  }

  lemma {:induction false} WithoutIsRemove(s: seq<Node>, k: nat)
    requires Distinct(s) && k < |s|
    ensures Without(s, s[k]) == Remove(s, k)
    decreases k
  {
    if k > 0 {
      assert s[0] != s[k];
      var t := s[1..];
      DistinctTail(s);
      hide Distinct;
      WithoutIsRemove(t, k - 1);
      assert t[k - 1] == s[k];
      RemoveTail(s, k);
      hide Remove;
    }
  }

  lemma DistinctTail(s: seq<Node>)
    requires Distinct(s) && s != []
    ensures Distinct(s[1..])
  {
    var t := s[1..];
    forall i, j | 0 <= i < j < |t|
      ensures t[i] != t[j]
    {
      assert t[i] == s[i + 1] && t[j] == s[j + 1];
    }
  }

  lemma RemoveTail(s: seq<Node>, k: nat)
    requires 0 < k < |s|
    ensures Remove(s, k) == [s[0]] + Remove(s[1..], k - 1)
  {
  }

  lemma RepresentsAdd(s: seq<Node>, m: map<string, Node>, n: Node)
    requires Represents(s, m) && n.key !in m
    ensures n !in s && Represents(s + [n], m[n.key := n])
  {
  }

  lemma RepresentsRemove(s: seq<Node>, m: map<string, Node>, k: nat)
    requires Represents(s, m) && Distinct(s) && k < |s|
    ensures Represents(Remove(s, k), m - {s[k].key})
  {
  }

  lemma RepresentsSort(s: seq<Node>, m: map<string, Node>, s': seq<Node>)
    requires Represents(s, m) && multiset(s) == multiset(s')
    ensures Represents(s', m)
  {
    SameElements(s, s');
  }

  ghost function OpNodes(ops: seq<Op>): set<Node> {
    set i | 0 <= i < |ops| && (ops[i].Add? || ops[i].Delete?) :: ops[i].n
  }

  method PerformDelete(t: Table, n: Node, ghost m: map<string, Node>)
    requires t.Valid() && Represents(t.items, m) && n.key in m && m[n.key] == n
    modifies t, t.buckets, Nodes(t.items)
    ensures t.Valid() && t.items == Without(old(t.items), n)
    ensures Represents(t.items, m - {n.key}) && Nodes(t.items) <= old(Nodes(t.items))
    ensures t.buckets == old(t.buckets)
  {
    assert m[n.key] in t.items;
    DistinctTable(t);
    t.Delete(n);
    ghost var k :| 0 <= k < |old(t.items)| && old(t.items)[k] == n && t.items == Remove(old(t.items), k);
    hide Represents, Remove, Without, Distinct;
    WithoutIsRemove(old(t.items), k);
    RepresentsRemove(old(t.items), m, k);
    RemoveWithin(old(t.items), k);
  }

  /** One operation. */
  method Perform(t: Table, op: Op, ghost m: map<string, Node>) returns (answer: seq<Node?>)
    requires t.Valid() && Represents(t.items, m) && Legal(m, [op])
    modifies t, t.buckets, Nodes(t.items), OpNodes([op])
    ensures t.Valid() && t.items == OrderStep(old(t.items), op)
    ensures Represents(t.items, MapStep(m, op))
    ensures answer == MapAnswers(m, [op])
    ensures Nodes(t.items) <= old(Nodes(t.items)) + OpNodes([op])
    ensures t.buckets == old(t.buckets) || fresh(t.buckets)
  {
    hide BottomUp, Without, Distinct, Spread, AppList;
    answer := [];
    match op {
      case Add(n) =>
        RepresentsAdd(t.items, m, n);
        assert [op][0].n in OpNodes([op]);
        t.Add(n);
      case Delete(n) =>
        PerformDelete(t, n, m);
      case Find(key) =>
        var found := t.Find(key);
        answer := [found];
      case Sort(cmp) =>
        t.Sort(cmp);
        RepresentsSort(old(t.items), m, t.items);
        SameNodes(old(t.items), t.items);
    }
  }

  /** A whole run, from any valid table; the final list is what HASH_ITER then visits. */
  method Run(t: Table, ops: seq<Op>, ghost m: map<string, Node>) returns (answers: seq<Node?>, visited: seq<Node>)
    requires t.Valid() && Represents(t.items, m) && Legal(m, ops)
    modifies t, t.buckets, Nodes(t.items), OpNodes(ops)
    ensures t.Valid()
    ensures answers == MapAnswers(m, ops)
    ensures visited == t.items == OrderAfter(old(t.items), ops)
    decreases |ops|
  {
    if ops == [] {
      answers := [];
      visited := t.Iterate();
    } else {
      FirstOp(m, ops, t.items);
      hide MapAnswers, MapStep, Represents, Legal, OpNodes, Nodes, OrderStep, OrderAfter;
      var answer := Perform(t, ops[0], m);
      var rest;
      rest, visited := Run(t, ops[1..], MapStep(m, ops[0]));
      answers := answer + rest;
    }
  }

  /** The first operation of a run, and the ones after it. */
  lemma FirstOp(m: map<string, Node>, ops: seq<Op>, s: seq<Node>)
    requires ops != [] && Legal(m, ops)
    ensures Legal(m, [ops[0]]) && Legal(MapStep(m, ops[0]), ops[1..])
    ensures MapAnswers(m, ops) == MapAnswers(m, [ops[0]]) + MapAnswers(MapStep(m, ops[0]), ops[1..])
    ensures OrderAfter(s, ops) == OrderAfter(OrderStep(s, ops[0]), ops[1..])
    ensures OpNodes([ops[0]]) <= OpNodes(ops) && OpNodes(ops[1..]) <= OpNodes(ops)
  {
  }

  lemma DistinctTable(t: Table)
    requires t.Valid()
    ensures Distinct(t.items)
  {
  }
}
