/**
 The hash table of uthash.h. Every element is linked twice: into the list in insertion order
 (next, prev) and into the chain of its bucket (hhNext, hhPrev). The hash function is arbitrary.
 */
module UtHash {
  import opened Bits
  import opened MergeSort
  import opened ListSort

  const INITIAL_NUM_BUCKETS: nat := 32
  const INITIAL_NUM_BUCKETS_LOG2: nat := 5
  const BKT_CAPACITY_THRESH: nat := 10

  /** A UT_hash_bucket. */
  datatype Bucket = Bucket(hhHead: Node?, count: nat, expandMult: nat)

  const EMPTY_BUCKET := Bucket(null, 0, 0)

  // ----- Bucket chains -----

  function Remove(s: seq<Node>, k: nat): seq<Node>
    requires k < |s|
  {
    s[..k] + s[k + 1..]
  }

  lemma RemoveAt(s: seq<Node>, k: nat)
    requires k < |s|
    ensures |Remove(s, k)| == |s| - 1
    ensures forall i :: 0 <= i < |s| - 1 ==> Remove(s, k)[i] == if i < k then s[i] else s[i + 1]
  {
  }

  lemma RemoveDistinct(s: seq<Node>, k: nat)
    requires k < |s| && Distinct(s)
    ensures Distinct(Remove(s, k))
    ensures forall n :: n in Remove(s, k) <==> n in s && n != s[k]
  {
  }

  /** c is a bucket chain, linked both ways, null at both ends. */
  ghost predicate Chain(c: seq<Node>)
    reads Nodes(c)`hhNext, Nodes(c)`hhPrev
  {
    && (forall i :: 0 <= i < |c| - 1 ==> c[i].hhNext == c[i + 1])
    && (c != [] ==> c[|c| - 1].hhNext == null)
    && (c != [] ==> c[0].hhPrev == null)
    && (forall i :: 1 <= i < |c| ==> c[i].hhPrev == c[i - 1])
    && Distinct(c)
  }

  /** The hh_next pointers of c lead through it and end. */
  ghost predicate HhLinked(c: seq<Node>)
    reads Nodes(c)`hhNext
  {
    (forall i :: 0 <= i < |c| - 1 ==> c[i].hhNext == c[i + 1]) && (c != [] ==> c[|c| - 1].hhNext == null)
  }

  ghost predicate HhBackChained(c: seq<Node>)
    reads Nodes(c)`hhPrev
  {
    (c != [] ==> c[0].hhPrev == null) && forall i :: 1 <= i < |c| ==> c[i].hhPrev == c[i - 1]
  }

  lemma ChainParts(c: seq<Node>)
    ensures Chain(c) <==> HhLinked(c) && HhBackChained(c) && Distinct(c)
  {
  }

  ghost predicate BucketHolds(b: Bucket, c: seq<Node>)
    reads Nodes(c)`hhNext, Nodes(c)`hhPrev
  {
    Chain(c) && b.hhHead == Head(c) && b.count == |c|
  }

  /** The linking step of HASH_ADD_TO_BKT and of HASH_EXPAND_BUCKETS. */
  method PushFront(hhHead: Node?, add: Node, ghost c: seq<Node>) returns (newHead: Node)
    requires Chain(c) && hhHead == Head(c) && add !in c
    modifies add`hhNext, add`hhPrev, Nodes(c)`hhPrev
    ensures newHead == add && Chain([add] + c)
  {
    add.hhNext := hhHead;
    add.hhPrev := null;
    if hhHead != null {
      hhHead.hhPrev := add;
    }
    newHead := add;
    ghost var d := [add] + c;
    assert forall i :: 1 <= i < |d| ==> d[i] == c[i - 1];
  }

  /** The unlinking steps of HASH_DEL_IN_BKT. */
  method Unchain(hhHead: Node?, del: Node, ghost c: seq<Node>, ghost k: nat) returns (newHead: Node?)
    requires Chain(c) && hhHead == Head(c) && k < |c| && c[k] == del
    modifies Nodes(c)`hhNext, Nodes(c)`hhPrev
    ensures newHead == Head(Remove(c, k)) && Chain(Remove(c, k))
  {
    newHead := hhHead;
    if newHead == del {
      newHead := del.hhNext;
    }
    assert k > 0 ==> c[k - 1].hhNext == del && del.hhPrev == c[k - 1];
    assert k + 1 < |c| ==> c[k].hhNext == c[k + 1];
    if del.hhPrev != null {
      del.hhPrev.hhNext := del.hhNext;
    }
    if del.hhNext != null {
      del.hhNext.hhPrev := del.hhPrev;
    }
    ghost var d := Remove(c, k);
    RemoveAt(c, k);
    RemoveDistinct(c, k);
    hide Remove, Distinct;
    assert forall i :: 0 <= i < |d| ==> d[i] != del;
    forall i | 0 <= i < |d| - 1
      ensures d[i].hhNext == d[i + 1]
    {
      assert i + 1 < |c| && old(c[i].hhNext) == c[i + 1];
      assert i + 2 < |c| ==> old(c[i + 1].hhNext) == c[i + 2];
    }
    forall i | 1 <= i < |d|
      ensures d[i].hhPrev == d[i - 1]
    {
      assert old(c[i].hhPrev) == c[i - 1];
      assert i + 1 < |c| ==> old(c[i + 1].hhPrev) == c[i];
    }
  }

  // ----- The list in insertion order -----

  /** HASH_APPEND_LIST. */
  method AppendList(tail: Node, add: Node, ghost s: seq<Node>) returns (newTail: Node)
    requires AppList(s) && s != [] && tail == Last(s) && add !in s
    modifies add`next, add`prev, Nodes(s)`next
    ensures newTail == add && AppList(s + [add])
  {
    add.next := null;
    add.prev := tail;
    tail.next := add;
    newTail := add;
    ghost var d := s + [add];
    assert forall i :: 0 <= i < |s| ==> d[i] == s[i];
    assert d[|s|] == add;
  }

  /** The list patches of HASH_DELETE_HH, for a list of at least two elements. */
  method Unlist(head: Node, tail: Node, del: Node, ghost s: seq<Node>, ghost k: nat)
    returns (newHead: Node?, newTail: Node?)
    requires AppList(s) && |s| > 1 && head == Head(s) && tail == Last(s) && k < |s| && s[k] == del
    modifies Nodes(s)`next, Nodes(s)`prev
    ensures AppList(Remove(s, k)) && newHead == Head(Remove(s, k)) && newTail == Last(Remove(s, k))
  {
    newHead, newTail := head, tail;
    assert k > 0 ==> s[k].prev == s[k - 1] && s[k - 1].next == s[k];
    assert k + 1 < |s| ==> s[k].next == s[k + 1] && s[k + 1].prev == s[k];
    if del == tail {
      newTail := del.prev;
    }
    if del.prev != null {
      del.prev.next := del.next;
    } else {
      newHead := del.next;
    }
    if del.next != null {
      del.next.prev := del.prev;
    }
    ghost var d := Remove(s, k);
    RemoveAt(s, k);
    RemoveDistinct(s, k);
    hide Remove, Distinct;
    assert forall i :: 0 <= i < |d| ==> d[i] != del;
    forall i | 0 <= i < |d| - 1
      ensures d[i].next == d[i + 1]
    {
      assert i + 1 < |s| && old(s[i].next) == s[i + 1];
      assert i + 2 < |s| ==> old(s[i + 1].next) == s[i + 2];
    }
    forall i | 1 <= i < |d|
      ensures d[i].prev == d[i - 1]
    {
      assert old(s[i].prev) == s[i - 1];
      assert i + 1 < |s| ==> old(s[i + 1].prev) == s[i];
    }
  }

  // ----- How the elements are spread over the buckets -----

  /** The bucket of n among m buckets. */
  function Slot(hash: string -> nat, n: Node, m: nat): (b: nat)
    requires m > 0
    ensures b < m
  {
    hash(n.key) % m
  }

  /** Every element of items is in the chain of its slot, once, and the chains hold nothing else. */
  ghost predicate Spread(hash: string -> nat, items: seq<Node>, chains: seq<seq<Node>>) {
    && |chains| > 0
    && (forall b :: 0 <= b < |chains| ==> Distinct(chains[b]))
    && (forall b, n :: 0 <= b < |chains| && n in chains[b] ==> n in items && Slot(hash, n, |chains|) == b)
    && (forall n | n in items :: n in chains[Slot(hash, n, |chains|)])
  }

  /** Chain b, as a set, holds exactly the elements of its slot. */
  lemma SpreadChain(hash: string -> nat, items: seq<Node>, chains: seq<seq<Node>>, b: nat)
    requires Spread(hash, items, chains) && b < |chains|
    ensures Distinct(chains[b])
    ensures forall n :: n in chains[b] <==> n in items && Slot(hash, n, |chains|) == b
  {
  }

  lemma SpreadAdd(hash: string -> nat, items: seq<Node>, chains: seq<seq<Node>>, n: Node)
    requires Spread(hash, items, chains) && n !in items
    ensures var b := Slot(hash, n, |chains|);
            Spread(hash, items + [n], chains[b := [n] + chains[b]])
  {
    var b := Slot(hash, n, |chains|);
    var c := [n] + chains[b];
    assert n !in chains[b];
    assert Distinct(c);
    var chains' := chains[b := c];
    assert forall x :: 0 <= x < |chains| && x != b ==> chains'[x] == chains[x];
    forall e | e in items + [n]
      ensures e in chains'[Slot(hash, e, |chains'|)]
    {
      if e != n {
        assert e in chains[Slot(hash, e, |chains|)];
      } else {
        assert c[0] == n;
      }
    }
  }

  lemma SpreadRemove(hash: string -> nat, items: seq<Node>, chains: seq<seq<Node>>, k: nat, b: nat, j: nat)
    requires Spread(hash, items, chains) && Distinct(items) && k < |items|
    requires b < |chains| && j < |chains[b]| && chains[b][j] == items[k]
    ensures Spread(hash, Remove(items, k), chains[b := Remove(chains[b], j)])
  {
    RemoveDistinct(items, k);
    RemoveDistinct(chains[b], j);
    var n := items[k];
    assert n in chains[b];
    var chains' := chains[b := Remove(chains[b], j)];
    assert forall x :: 0 <= x < |chains| && x != b ==> chains'[x] == chains[x];
    hide Distinct, Remove;
    forall x, e | 0 <= x < |chains'| && e in chains'[x]
      ensures e in Remove(items, k) && Slot(hash, e, |chains'|) == x
    {
      if x == b {
        assert chains'[x] == Remove(chains[b], j);
      } else {
        assert e in chains[x] && Slot(hash, n, |chains|) == b;
      }
    }
    forall e | e in Remove(items, k)
      ensures e in chains'[Slot(hash, e, |chains'|)]
    {
      assert e in chains[Slot(hash, e, |chains|)];
    }
  }

  /** The total length of the first k chains. */
  ghost function TotalLength(chains: seq<seq<Node>>, k: nat): nat
    requires k <= |chains|
  {
    if k == 0 then 0 else TotalLength(chains, k - 1) + |chains[k - 1]|
  }

  lemma {:induction false} DistinctCount(s: seq<Node>)
    requires Distinct(s)
    ensures |Nodes(s)| == |s|
  {
    if s != [] {
      var t := s[..|s| - 1];
      DistinctCount(t);
      assert Nodes(s) == Nodes(t) + {s[|s| - 1]} by {
        assert s == t + [s[|s| - 1]];
      }
      assert s[|s| - 1] !in t;
    }
  }

  /** The elements whose slot among m is below k. */
  ghost function LowSlots(hash: string -> nat, items: seq<Node>, m: nat, k: nat): set<Node>
    requires m > 0
  {
    set n | n in items && Slot(hash, n, m) < k
  }

  lemma LowSlotsStep(hash: string -> nat, items: seq<Node>, m: nat, k: nat, c: seq<Node>)
    requires m > 0
    requires forall n :: n in c <==> n in items && Slot(hash, n, m) == k
    ensures LowSlots(hash, items, m, k + 1) == LowSlots(hash, items, m, k) + Nodes(c)
    ensures LowSlots(hash, items, m, k) !! Nodes(c)
  {
  }

  lemma {:induction false} LowSlotsCount(hash: string -> nat, items: seq<Node>, chains: seq<seq<Node>>, k: nat)
    requires Spread(hash, items, chains) && k <= |chains|
    ensures |LowSlots(hash, items, |chains|, k)| == TotalLength(chains, k)
    decreases k
  {
    if k == 0 {
      assert LowSlots(hash, items, |chains|, 0) == {};
    } else {
      LowSlotsCount(hash, items, chains, k - 1);
      SpreadChain(hash, items, chains, k - 1);
      hide Spread, LowSlots, Nodes;
      DistinctCount(chains[k - 1]);
      LowSlotsStep(hash, items, |chains|, k - 1, chains[k - 1]);
    }
  }

  /** The bucket counts add up to the number of elements. */
  lemma SpreadCount(hash: string -> nat, items: seq<Node>, chains: seq<seq<Node>>)
    requires Spread(hash, items, chains) && Distinct(items)
    ensures TotalLength(chains, |chains|) == |items|
  {
    LowSlotsCount(hash, items, chains, |chains|);
    DistinctCount(items);
    assert LowSlots(hash, items, |chains|, |chains|) == Nodes(items);
  }

  // ----- Bucket expansion -----

  ghost function AllNodes(chains: seq<seq<Node>>): (r: set<Node>)
    ensures forall b :: 0 <= b < |chains| ==> Nodes(chains[b]) <= r
  {
    set b, n | 0 <= b < |chains| && n in chains[b] :: n
  }

  /** The buckets hold the chains, one each. */
  ghost predicate BucketsHold(buckets: seq<Bucket>, chains: seq<seq<Node>>)
    reads AllNodes(chains)`hhNext, AllNodes(chains)`hhPrev
  {
    |buckets| == |chains| && forall b :: 0 <= b < |chains| ==> BucketHolds(buckets[b], chains[b])
  }

  /** The stored hash value of each element is that of its key. */
  ghost predicate Hashed(hash: string -> nat, members: seq<Node>)
    reads Nodes(members)`hashv
  {
    forall n | n in members :: n.hashv == hash(n.key)
  }

  /** The elements of a chain beyond its ideal length. */
  function Excess(len: nat, ideal: nat): nat {
    if len > ideal then len - ideal else 0
  }

  ghost function TotalExcess(chains: seq<seq<Node>>, ideal: nat, k: nat): nat
    requires k <= |chains|
  {
    if k == 0 then 0 else TotalExcess(chains, ideal, k - 1) + Excess(|chains[k - 1]|, ideal)
  }

  lemma {:induction false} TotalExcessUpdate(chains: seq<seq<Node>>, ideal: nat, k: nat, b: nat, c: seq<Node>)
    requires k <= |chains| && b < |chains|
    ensures TotalExcess(chains[b := c], ideal, k) ==
            TotalExcess(chains, ideal, k) + if b < k then Excess(|c|, ideal) - Excess(|chains[b]|, ideal) else 0
    decreases k
  {
    if k > 0 {
      TotalExcessUpdate(chains, ideal, k - 1, b, c);
    }
  }

  /** What HASH_EXPAND_BUCKETS leaves in the new bucket that holds the chain c. */
  ghost predicate Expanded(b: Bucket, c: seq<Node>, ideal: nat)
    requires ideal > 0
    reads Nodes(c)`hhNext, Nodes(c)`hhPrev
  {
    BucketHolds(b, c) && b.expandMult == if |c| > ideal then |c| / ideal else 0
  }

  ghost predicate AllExpanded(buckets: seq<Bucket>, chains: seq<seq<Node>>, ideal: nat)
    requires ideal > 0
    reads AllNodes(chains)`hhNext, AllNodes(chains)`hhPrev
  {
    |buckets| == |chains| && forall b :: 0 <= b < |chains| ==> Expanded(buckets[b], chains[b], ideal)
  }

  /** The chains hold exactly the elements of moved, each in its slot. */
  ghost predicate Gathered(hash: string -> nat, moved: set<Node>, chains: seq<seq<Node>>) {
    && |chains| > 0
    && (forall b :: 0 <= b < |chains| ==> Distinct(chains[b]))
    && (forall b, n :: 0 <= b < |chains| && n in chains[b] ==> n in moved && Slot(hash, n, |chains|) == b)
    && (forall n | n in moved :: n in chains[Slot(hash, n, |chains|)])
  }

  /** What has been moved when the walk stands at element pos of old chain i. */
  ghost predicate WalkedTo(chains: seq<seq<Node>>, moved: set<Node>, i: nat, pos: nat) {
    && (forall x, j :: 0 <= x < |chains| && 0 <= j < |chains[x]| ==>
      (chains[x][j] in moved <==> x < i || (x == i && j < pos)))
    && (forall n | n in moved :: n in AllNodes(chains))
  }

  ghost predicate NextInChain(c: seq<Node>, j: nat)
    requires j < |c|
    reads Nodes(c)`hhNext
  {
    c[j].hhNext == if j + 1 < |c| then c[j + 1] else null
  }

  /** The chains that still have to be walked are intact as far as hhNext goes. */
  ghost predicate Ahead(chains: seq<seq<Node>>, i: nat, pos: nat)
    reads AllNodes(chains)`hhNext
  {
    forall x, j :: 0 <= x < |chains| && 0 <= j < |chains[x]| && (x > i || (x == i && j >= pos)) ==>
      NextInChain(chains[x], j)
  }

  lemma SpreadUnique(hash: string -> nat, items: seq<Node>, chains: seq<seq<Node>>, x: nat, j: nat, y: nat, l: nat)
    requires Spread(hash, items, chains)
    requires x < |chains| && j < |chains[x]| && y < |chains| && l < |chains[y]|
    requires chains[x][j] == chains[y][l]
    ensures x == y && j == l
  {
    var n := chains[x][j];
    assert n in chains[x] && n in chains[y];
    assert x == Slot(hash, n, |chains|) == y;
    var c := chains[x];
    assert Distinct(c) && c[j] == c[l];
  }

  lemma WalkStep(hash: string -> nat, items: seq<Node>, chains: seq<seq<Node>>, moved: set<Node>, i: nat, pos: nat)
    requires Spread(hash, items, chains) && WalkedTo(chains, moved, i, pos)
    requires i < |chains| && pos < |chains[i]|
    ensures chains[i][pos] !in moved
    ensures WalkedTo(chains, moved + {chains[i][pos]}, i, pos + 1)
  {
    hide Spread;
    var n := chains[i][pos];
    forall x, j | 0 <= x < |chains| && 0 <= j < |chains[x]|
      ensures chains[x][j] == n <==> x == i && j == pos
    {
      if chains[x][j] == n {
        SpreadUnique(hash, items, chains, x, j, i, pos);
      }
    }
    assert n in chains[i];
  }

  lemma GatherStep(hash: string -> nat, moved: set<Node>, news: seq<seq<Node>>, n: Node, b: nat)
    requires Gathered(hash, moved, news) && n !in moved && b == Slot(hash, n, |news|)
    ensures n !in news[b]
    ensures Gathered(hash, moved + {n}, news[b := [n] + news[b]])
  {
  }

  lemma GatheredApart(hash: string -> nat, moved: set<Node>, news: seq<seq<Node>>, x: nat, y: nat)
    requires Gathered(hash, moved, news) && x < |news| && y < |news| && x != y
    ensures Nodes(news[x]) !! Nodes(news[y])
  {
    forall n | n in news[x]
      ensures n !in news[y]
    {
      assert Slot(hash, n, |news|) == x;
    }
  }

  lemma GatheredIn(hash: string -> nat, moved: set<Node>, news: seq<seq<Node>>)
    requires Gathered(hash, moved, news)
    ensures forall x :: 0 <= x < |news| ==> Nodes(news[x]) <= moved
  {
  }

  /** The loop body of HASH_EXPAND_BUCKETS once the new bucket is known. */
  method MoveInto(newBuckets: array<Bucket>, bkt: nat, thh: Node, ideal: nat, nonideal: nat, ghost c: seq<Node>)
    returns (nonideal': nat)
    requires bkt < newBuckets.Length && ideal > 0 && thh !in c && Expanded(newBuckets[bkt], c, ideal)
    modifies newBuckets, thh`hhNext, thh`hhPrev, Nodes(c)`hhPrev
    ensures newBuckets[..] == old(newBuckets[..])[bkt := newBuckets[bkt]]
    ensures Expanded(newBuckets[bkt], [thh] + c, ideal)
    ensures nonideal' == nonideal + Excess(|c| + 1, ideal) - Excess(|c|, ideal)
  {
    hide Distinct, Nodes;
    var b := newBuckets[bkt];
    b := b.(count := b.count + 1);
    nonideal' := nonideal;
    if b.count > ideal {
      nonideal' := nonideal' + 1;
      b := b.(expandMult := b.count / ideal);
    }
    var newHead := PushFront(b.hhHead, thh, c);
    newBuckets[bkt] := b.(hhHead := newHead);
  }

  lemma AllExpandedAt(buckets: seq<Bucket>, chains: seq<seq<Node>>, ideal: nat, b: nat)
    requires ideal > 0 && AllExpanded(buckets, chains, ideal) && b < |chains|
    ensures Expanded(buckets[b], chains[b], ideal)
  {
  }

  lemma AheadAt(chains: seq<seq<Node>>, i: nat, pos: nat)
    requires Ahead(chains, i, pos) && i < |chains| && pos < |chains[i]|
    ensures NextInChain(chains[i], pos)
    ensures Ahead(chains, i, pos + 1)
  {
  }

  /** The state of the walk at element pos of old chain i. */
  ghost predicate Walking(hash: string -> nat, chains: seq<seq<Node>>, newBuckets: seq<Bucket>, news: seq<seq<Node>>,
                          moved: set<Node>, ideal: nat, nonideal: nat, i: nat, pos: nat)
    requires ideal > 0
    reads AllNodes(chains), AllNodes(news)
  {
    && Gathered(hash, moved, news) && |news| == 2 * |chains|
    && AllExpanded(newBuckets, news, ideal) && nonideal == TotalExcess(news, ideal, |news|)
    && WalkedTo(chains, moved, i, pos) && Ahead(chains, i, pos)
  }

  lemma NotYetMoved(chains: seq<seq<Node>>, moved: set<Node>, i: nat, pos: nat, x: nat, j: nat)
    requires WalkedTo(chains, moved, i, pos) && x < |chains| && j < |chains[x]| && (x > i || (x == i && j >= pos))
    ensures chains[x][j] !in moved
  {
  }

  /** One step of the walk. */
  method MoveOne(hash: string -> nat, newBuckets: array<Bucket>, thh: Node, nb: nat, log2: nat, ideal: nat,
                 nonideal: nat, ghost items: seq<Node>, ghost chains: seq<seq<Node>>, ghost news: seq<seq<Node>>,
                 ghost moved: set<Node>, ghost i: nat, ghost pos: nat)
    returns (nxt: Node?, nonideal': nat, ghost news': seq<seq<Node>>)
    requires Spread(hash, items, chains) && |chains| == nb == Pow2(log2)
    requires i < nb && pos < |chains[i]| && thh == chains[i][pos] && thh.hashv == hash(thh.key)
    requires ideal > 0 && Walking(hash, chains, newBuckets[..], news, moved, ideal, nonideal, i, pos)
    modifies newBuckets, thh`hhNext, thh`hhPrev, moved`hhPrev
    ensures Walking(hash, chains, newBuckets[..], news', moved + {thh}, ideal, nonideal', i, pos + 1)
    ensures nxt == if pos + 1 < |chains[i]| then chains[i][pos + 1] else null
  {
    hide Spread, WalkedTo, Gathered, TotalExcess;
    AheadAt(chains, i, pos);
    nxt := thh.hhNext;
    var bkt := And(thh.hashv, nb * 2 - 1);
    AndMask(thh.hashv, log2 + 1);
    WalkStep(hash, items, chains, moved, i, pos);
    GatherStep(hash, moved, news, thh, bkt);
    GatheredIn(hash, moved, news);
    AllExpandedAt(newBuckets[..], news, ideal, bkt);
    nonideal' := MoveInto(newBuckets, bkt, thh, ideal, nonideal, news[bkt]);
    news' := news[bkt := [thh] + news[bkt]];
    forall x | 0 <= x < |news|
      ensures Expanded(newBuckets[x], news'[x], ideal)
    {
      if x != bkt {
        GatheredApart(hash, moved, news, x, bkt);
        assert old(Expanded(newBuckets[x], news[x], ideal));
      }
    }
    TotalExcessUpdate(news, ideal, |news|, bkt, [thh] + news[bkt]);
    forall x, j | 0 <= x < |chains| && 0 <= j < |chains[x]| && (x > i || (x == i && j >= pos + 1))
      ensures NextInChain(chains[x], j)
    {
      assert old(NextInChain(chains[x], j));
      NotYetMoved(chains, moved + {thh}, i, pos + 1, x, j);
    }
  }

  /** The walk starts with empty new buckets. */
  lemma WalkStart(hash: string -> nat, items: seq<Node>, buckets: seq<Bucket>, chains: seq<seq<Node>>,
                  newBuckets: seq<Bucket>, news: seq<seq<Node>>, ideal: nat)
    requires Spread(hash, items, chains) && ideal > 0
    requires BucketsHold(buckets, chains)
    requires |news| == |newBuckets| == 2 * |chains|
    requires forall b :: 0 <= b < |news| ==> news[b] == [] && newBuckets[b] == EMPTY_BUCKET
    ensures Walking(hash, chains, newBuckets, news, {}, ideal, 0, 0, 0)
  {
    NoExcess(news, ideal, |news|);
    assert Ahead(chains, 0, 0) by {
      forall x, j | 0 <= x < |chains| && 0 <= j < |chains[x]|
        ensures NextInChain(chains[x], j)
      {
        assert BucketHolds(buckets[x], chains[x]);
      }
    }
    assert AllExpanded(newBuckets, news, ideal) by {
      forall b | 0 <= b < |news|
        ensures Expanded(newBuckets[b], news[b], ideal)
      {
        assert news[b] == [] && newBuckets[b] == EMPTY_BUCKET;
      }
    }
  }

  lemma {:induction false} NoExcess(news: seq<seq<Node>>, ideal: nat, k: nat)
    requires k <= |news| && forall b :: 0 <= b < |news| ==> news[b] == []
    ensures TotalExcess(news, ideal, k) == 0
    decreases k
  {
    if k > 0 {
      NoExcess(news, ideal, k - 1);
    }
  }

  /** From the end of one old chain to the start of the next. */
  lemma NextChain(hash: string -> nat, chains: seq<seq<Node>>, newBuckets: seq<Bucket>, news: seq<seq<Node>>,
                  moved: set<Node>, ideal: nat, nonideal: nat, i: nat)
    requires ideal > 0 && i < |chains|
    requires Walking(hash, chains, newBuckets, news, moved, ideal, nonideal, i, |chains[i]|)
    ensures Walking(hash, chains, newBuckets, news, moved, ideal, nonideal, i + 1, 0)
  {
  }

  /** At the end of the walk the new chains spread the same elements. */
  lemma WalkEnd(hash: string -> nat, items: seq<Node>, chains: seq<seq<Node>>, news: seq<seq<Node>>, moved: set<Node>)
    requires Spread(hash, items, chains)
    requires Gathered(hash, moved, news) && WalkedTo(chains, moved, |chains|, 0)
    ensures Spread(hash, items, news)
  {
    forall n
      ensures n in items <==> n in moved
    {
      if n in items {
        var c := chains[Slot(hash, n, |chains|)];
        assert n in c;
      }
      if n in moved {
        assert n in AllNodes(chains);
      }
    }
  }

  /** The inner loop of HASH_EXPAND_BUCKETS: one old chain. */
  method WalkBucket(hash: string -> nat, hhHead: Node?, newBuckets: array<Bucket>, nb: nat, log2: nat, ideal: nat,
                    nonideal0: nat, ghost items: seq<Node>, ghost chains: seq<seq<Node>>, ghost news0: seq<seq<Node>>,
                    ghost moved0: set<Node>, ghost i: nat)
    returns (nonideal: nat, ghost news: seq<seq<Node>>, ghost moved: set<Node>)
    requires Spread(hash, items, chains) && |chains| == nb == Pow2(log2)
    requires Hashed(hash, items)
    requires i < nb && hhHead == Head(chains[i]) && moved0 <= Nodes(items)
    requires ideal > 0 && Walking(hash, chains, newBuckets[..], news0, moved0, ideal, nonideal0, i, 0)
    modifies newBuckets, Nodes(items)`hhNext, Nodes(items)`hhPrev
    ensures moved <= Nodes(items)
    ensures Walking(hash, chains, newBuckets[..], news, moved, ideal, nonideal, i + 1, 0)
  {
    hide Walking, Spread;
    var thh := hhHead;
    nonideal, news, moved := nonideal0, news0, moved0;
    ghost var pos := 0;
    SpreadChain(hash, items, chains, i);
    while thh != null
      invariant 0 <= pos <= |chains[i]| && thh == (if pos < |chains[i]| then chains[i][pos] else null)
      invariant Walking(hash, chains, newBuckets[..], news, moved, ideal, nonideal, i, pos)
      invariant moved <= Nodes(items)
      decreases |chains[i]| - pos
    {
      assert thh in chains[i];
      ghost var elem := thh;
      thh, nonideal, news :=
        MoveOne(hash, newBuckets, thh, nb, log2, ideal, nonideal, items, chains, news, moved, i, pos);
      moved := moved + {elem};
      pos := pos + 1;
    }
    NextChain(hash, chains, newBuckets[..], news, moved, ideal, nonideal, i);
  }

  lemma HeadsOfChains(buckets: seq<Bucket>, chains: seq<seq<Node>>)
    requires BucketsHold(buckets, chains)
    ensures |buckets| == |chains| && forall b :: 0 <= b < |chains| ==> buckets[b].hhHead == Head(chains[b])
  {
  }

  lemma ExpandedHold(buckets: seq<Bucket>, chains: seq<seq<Node>>, ideal: nat)
    requires ideal > 0 && AllExpanded(buckets, chains, ideal)
    ensures BucketsHold(buckets, chains)
  {
  }

  /** A zero-filled bucket array, and the empty chains it holds. */
  method ZeroedBuckets(n: nat) returns (buckets: array<Bucket>, ghost chains: seq<seq<Node>>)
    ensures fresh(buckets) && buckets.Length == |chains| == n
    ensures forall b :: 0 <= b < n ==> buckets[b] == EMPTY_BUCKET && chains[b] == []
  {
    buckets := new Bucket[n](_ => EMPTY_BUCKET);
    chains := seq(n, _ => []);
  }

  /** HASH_EXPAND_BUCKETS: the walk over the old buckets. */
  method Redistribute(hash: string -> nat, buckets: array<Bucket>, log2: nat, numItems: nat,
                      ghost items: seq<Node>, ghost chains: seq<seq<Node>>)
    returns (newBuckets: array<Bucket>, ideal: nat, nonideal: nat, ghost news: seq<seq<Node>>)
    requires Spread(hash, items, chains) && |chains| == buckets.Length == Pow2(log2)
    requires BucketsHold(buckets[..], chains) && Hashed(hash, items)
    requires numItems > 0
    modifies Nodes(items)`hhNext, Nodes(items)`hhPrev
    ensures fresh(newBuckets) && newBuckets.Length == |news| == 2 * |chains|
    ensures IsCeiling(numItems, 2 * |chains|, ideal) && ideal > 0
    ensures Spread(hash, items, news)
    ensures AllExpanded(newBuckets[..], news, ideal) && BucketsHold(newBuckets[..], news)
    ensures nonideal == TotalExcess(news, ideal, |news|)
  {
    var nb := buckets.Length;
    newBuckets, news := ZeroedBuckets(2 * nb);
    hide Spread, IsCeiling, AllExpanded, TotalExcess, Gathered, WalkedTo, Ahead, Walking, BucketsHold, Hashed;
    ideal := IdealChainMaxlen(numItems, nb, log2);
    nonideal := 0;
    WalkStart(hash, items, buckets[..], chains, newBuckets[..], news, ideal);
    ghost var moved;
    nonideal, news, moved := WalkAll(hash, buckets, newBuckets, log2, ideal, nonideal, items, chains, news);
    WalkingParts(hash, chains, newBuckets[..], news, moved, ideal, nonideal, nb, 0);
    WalkEnd(hash, items, chains, news, moved);
    ExpandedHold(newBuckets[..], news, ideal);
  }

  /** The outer loop of HASH_EXPAND_BUCKETS. */
  method WalkAll(hash: string -> nat, buckets: array<Bucket>, newBuckets: array<Bucket>, log2: nat, ideal: nat,
                 nonideal0: nat, ghost items: seq<Node>, ghost chains: seq<seq<Node>>, ghost news0: seq<seq<Node>>)
    returns (nonideal: nat, ghost news: seq<seq<Node>>, ghost moved: set<Node>)
    requires Spread(hash, items, chains) && |chains| == buckets.Length == Pow2(log2)
    requires BucketsHold(buckets[..], chains) && Hashed(hash, items) && buckets != newBuckets
    requires ideal > 0 && Walking(hash, chains, newBuckets[..], news0, {}, ideal, nonideal0, 0, 0)
    modifies newBuckets, Nodes(items)`hhNext, Nodes(items)`hhPrev
    ensures Walking(hash, chains, newBuckets[..], news, moved, ideal, nonideal, |chains|, 0)
  {
    hide Spread, Walking, BucketsHold;
    HeadsOfChains(buckets[..], chains);
    nonideal, news, moved := nonideal0, news0, {};
    var i := 0;
    while i < buckets.Length
      invariant 0 <= i <= buckets.Length
      invariant Walking(hash, chains, newBuckets[..], news, moved, ideal, nonideal, i, 0)
      invariant moved <= Nodes(items) && Hashed(hash, items)
    {
      nonideal, news, moved := WalkBucket(hash, buckets[i].hhHead, newBuckets, buckets.Length, log2, ideal, nonideal,
                                          items, chains, news, moved, i);
      i := i + 1;
    }
  }

  /** The new ideal chain length: the upper quotient of the element count by the doubled bucket count. */
  method IdealChainMaxlen(numItems: nat, nb: nat, log2: nat) returns (ideal: nat)
    requires nb == Pow2(log2) && numItems > 0
    ensures IsCeiling(numItems, 2 * nb, ideal) && ideal > 0
  {
    ideal := ShiftRight(numItems, log2 + 1) + if And(numItems, nb * 2 - 1) != 0 then 1 else 0;
    CeilingByShift(numItems, log2 + 1);
  }

  lemma WalkingParts(hash: string -> nat, chains: seq<seq<Node>>, newBuckets: seq<Bucket>, news: seq<seq<Node>>,
                     moved: set<Node>, ideal: nat, nonideal: nat, i: nat, pos: nat)
    requires ideal > 0 && Walking(hash, chains, newBuckets, news, moved, ideal, nonideal, i, pos)
    ensures Gathered(hash, moved, news) && |news| == |newBuckets| == 2 * |chains| && WalkedTo(chains, moved, i, pos)
    ensures AllExpanded(newBuckets, news, ideal) && nonideal == TotalExcess(news, ideal, |news|)
  {
  }

  lemma SpreadApart(hash: string -> nat, items: seq<Node>, chains: seq<seq<Node>>, x: nat, y: nat)
    requires Spread(hash, items, chains) && x < |chains| && y < |chains| && x != y
    ensures Nodes(chains[x]) !! Nodes(chains[y])
  {
    forall n | n in chains[x]
      ensures n !in chains[y]
    {
      assert Slot(hash, n, |chains|) == x;
    }
  }

  lemma SpreadIn(hash: string -> nat, items: seq<Node>, chains: seq<seq<Node>>, b: nat)
    requires Spread(hash, items, chains) && b < |chains|
    ensures Nodes(chains[b]) <= Nodes(items)
  {
  }

  /** The first part of HASH_ADD_TO_BKT: the new element becomes the head of its chain. */
  method PushBucket(hash: string -> nat, buckets: array<Bucket>, bkt: nat, add: Node,
                    ghost items: seq<Node>, ghost chains: seq<seq<Node>>)
    requires Spread(hash, items, chains) && |chains| == buckets.Length && BucketsHold(buckets[..], chains)
    requires add !in items && bkt == Slot(hash, add, |chains|)
    modifies buckets, add`hhNext, add`hhPrev, Nodes(items)`hhPrev
    ensures var chains' := chains[bkt := [add] + chains[bkt]];
            Spread(hash, items + [add], chains') && BucketsHold(buckets[..], chains')
    ensures buckets[bkt].count == old(buckets[bkt].count) + 1 && buckets[bkt].expandMult == old(buckets[bkt].expandMult)
  {
    hide Spread;
    SpreadAdd(hash, items, chains, add);
    SpreadChain(hash, items, chains, bkt);
    SpreadIn(hash, items, chains, bkt);
    assert BucketHolds(buckets[bkt], chains[bkt]);
    var b := buckets[bkt];
    b := b.(count := b.count + 1);
    var newHead := PushFront(b.hhHead, add, chains[bkt]);
    buckets[bkt] := b.(hhHead := newHead);
    ghost var chains' := chains[bkt := [add] + chains[bkt]];
    forall x | 0 <= x < |chains'|
      ensures BucketHolds(buckets[..][x], chains'[x])
    {
      if x != bkt {
        SpreadApart(hash, items, chains, x, bkt);
        SpreadIn(hash, items, chains, x);
        assert old(BucketHolds(buckets[..][x], chains[x]));
      }
    }
  }

  /** HASH_DEL_IN_BKT. */
  method DelInBkt(hash: string -> nat, buckets: array<Bucket>, bkt: nat, del: Node,
                  ghost items: seq<Node>, ghost chains: seq<seq<Node>>, ghost k: nat) returns (ghost j: nat)
    requires Spread(hash, items, chains) && |chains| == buckets.Length && BucketsHold(buckets[..], chains)
    requires Distinct(items) && k < |items| && items[k] == del && bkt == Slot(hash, del, |chains|)
    modifies buckets, Nodes(items)`hhNext, Nodes(items)`hhPrev
    ensures j < |chains[bkt]| && chains[bkt][j] == del
    ensures var chains' := chains[bkt := Remove(chains[bkt], j)];
            Spread(hash, Remove(items, k), chains') && BucketsHold(buckets[..], chains')
  {
    hide Spread, Remove;
    SpreadChain(hash, items, chains, bkt);
    SpreadIn(hash, items, chains, bkt);
    assert BucketHolds(buckets[bkt], chains[bkt]);
    assert del in chains[bkt];
    j :| 0 <= j < |chains[bkt]| && chains[bkt][j] == del;
    SpreadRemove(hash, items, chains, k, bkt, j);
    RemoveAt(chains[bkt], j);
    var b := buckets[bkt];
    b := b.(count := b.count - 1);
    var newHead := Unchain(b.hhHead, del, chains[bkt], j);
    buckets[bkt] := b.(hhHead := newHead);
    ghost var chains' := chains[bkt := Remove(chains[bkt], j)];
    forall x | 0 <= x < |chains'|
      ensures BucketHolds(buckets[..][x], chains'[x])
    {
      if x != bkt {
        SpreadApart(hash, items, chains, x, bkt);
        SpreadIn(hash, items, chains, x);
        assert old(BucketHolds(buckets[..][x], chains[x]));
      }
    }
  }

  /** Doubling the buckets sends each element of bucket b to bucket b or to bucket b plus the old count. */
  lemma ExpansionTargets(hash: string -> nat, items: seq<Node>, olds: seq<seq<Node>>, news: seq<seq<Node>>, b: nat,
                         n: Node)
    requires Spread(hash, items, olds) && Spread(hash, items, news) && |news| == 2 * |olds|
    requires b < |olds| && n in olds[b]
    ensures n in news[b] || n in news[b + |olds|]
  {
    assert n in items && Slot(hash, n, |olds|) == b;
    assert n in news[Slot(hash, n, |news|)];
    ModDouble(hash(n.key), |olds|);
  }
}
