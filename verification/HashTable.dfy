/**
 The hash table object behind a uthash head pointer, and its operations.
 */
module HashTable {
  import opened Bits
  import opened MergeSort
  import opened ListSort
  import opened UtHash

  class Table {
    /** HASH_FCN. */
    const hash: string -> nat
    var head: Node?
    // The UT_hash_table, which exists while head is not null.
    var tail: Node?
    var buckets: array<Bucket>
    var numBuckets: nat
    var log2NumBuckets: nat
    var numItems: nat
    var idealChainMaxlen: nat
    var nonidealItems: nat
    var ineffExpands: nat
    var noexpand: bool
    // The elements in application order, and the chains of the buckets.
    ghost var items: seq<Node>
    ghost var chains: seq<seq<Node>>

    ghost predicate ListPart()
      reads this`items, this`head, this`tail, Nodes(items)`next, Nodes(items)`prev
    {
      items != [] && AppList(items) && head == Head(items) && tail == Last(items)
    }

    /** The buckets hold exactly the elements of members, each in the bucket of its hash value. */
    ghost predicate BucketPart(members: seq<Node>)
      reads this`chains, this`buckets, this`numBuckets, this`log2NumBuckets, this`noexpand, this`ineffExpands,
            buckets, Nodes(members)`hashv, AllNodes(chains)`hhNext, AllNodes(chains)`hhPrev
    {
      && Spread(hash, members, chains)
      && |chains| == numBuckets == buckets.Length == Pow2(log2NumBuckets)
      && Hashed(hash, members)
      && BucketsHold(buckets[..], chains)
      && (noexpand <==> ineffExpands > 1)
    }

    /** The invariant that HASH_FSCK checks, with the tail pointer and the placement of the elements. */
    ghost predicate Valid()
      reads this, buckets, Nodes(items), AllNodes(chains)
    {
      if head == null then items == []
      else ListPart() && BucketPart(items) && numItems == |items|
    }

    constructor (hash: string -> nat)
      ensures Valid() && items == [] && this.hash == hash
      ensures fresh(buckets)
    {
      this.hash := hash;
      head, tail := null, null;
      buckets := new Bucket[0];
      items, chains := [], [];
    }

    /** HASH_MAKE_TABLE. */
    method MakeTable(add: Node)
      modifies this`tail, this`buckets, this`numBuckets, this`log2NumBuckets, this`numItems, this`idealChainMaxlen,
               this`nonidealItems, this`ineffExpands, this`noexpand, this`chains
      ensures tail == add && numItems == 0 && BucketPart([]) && fresh(buckets)
      ensures numBuckets == 32 && log2NumBuckets == 5
    {
      hide Spread, BucketsHold, Pow2, Hashed, AllNodes;
      tail := add;
      numBuckets := INITIAL_NUM_BUCKETS;
      log2NumBuckets := INITIAL_NUM_BUCKETS_LOG2;
      numItems, idealChainMaxlen, nonidealItems, ineffExpands, noexpand := 0, 0, 0, 0, false;
      buckets, chains := ZeroedBuckets(INITIAL_NUM_BUCKETS);
      NothingSpread(hash, buckets[..], chains);
      InitialBuckets();
    }

    /** HASH_EXPAND_BUCKETS. */
    method ExpandBuckets(ghost members: seq<Node>)
      requires BucketPart(members) && numItems > 0 && !noexpand
      modifies this`buckets, this`numBuckets, this`log2NumBuckets, this`idealChainMaxlen,
               this`nonidealItems, this`ineffExpands, this`noexpand, this`chains,
               Nodes(members)`hhNext, Nodes(members)`hhPrev
      ensures BucketPart(members) && fresh(buckets)
      ensures numBuckets == 2 * old(numBuckets) && log2NumBuckets == old(log2NumBuckets) + 1
      ensures |old(chains)| == old(numBuckets) && |chains| == numBuckets
      ensures forall b, n :: 0 <= b < |old(chains)| && n in old(chains)[b] ==>
                n in chains[b] || n in chains[b + |old(chains)|]
      ensures IsCeiling(numItems, numBuckets, idealChainMaxlen) && idealChainMaxlen > 0
      ensures AllExpanded(buckets[..], chains, idealChainMaxlen)
      ensures nonidealItems == TotalExcess(chains, idealChainMaxlen, |chains|)
      ensures ineffExpands == if nonidealItems > numItems / 2 then old(ineffExpands) + 1 else 0
    {
      hide Spread, TotalExcess, IsCeiling, AllExpanded, AllNodes, BucketsHold;
      var newBuckets, ideal, nonideal;
      ghost var news;
      newBuckets, ideal, nonideal, news := Redistribute(hash, buckets, log2NumBuckets, numItems, members, chains);
      forall b, n | 0 <= b < |chains| && n in chains[b]
        ensures n in news[b] || n in news[b + |chains|]
      {
        ExpansionTargets(hash, members, chains, news, b, n);
      }
      Install(newBuckets, ideal, nonideal, news, members);
    }

    /** The last part of HASH_EXPAND_BUCKETS: the table switches to the new buckets. */
    method Install(newBuckets: array<Bucket>, ideal: nat, nonideal: nat, ghost news: seq<seq<Node>>,
                   ghost members: seq<Node>)
      requires Spread(hash, members, news) && |news| == newBuckets.Length == 2 * numBuckets
      requires numBuckets == Pow2(log2NumBuckets) && Hashed(hash, members) && ideal > 0
      requires AllExpanded(newBuckets[..], news, ideal) && BucketsHold(newBuckets[..], news) && !noexpand
      requires ineffExpands <= 1
      modifies this`buckets, this`numBuckets, this`log2NumBuckets, this`idealChainMaxlen, this`nonidealItems,
               this`ineffExpands, this`noexpand, this`chains
      ensures BucketPart(members) && buckets == newBuckets && chains == news
      ensures idealChainMaxlen == ideal && nonidealItems == nonideal
      ensures numBuckets == 2 * old(numBuckets) && log2NumBuckets == old(log2NumBuckets) + 1
      ensures AllExpanded(buckets[..], chains, ideal)
      ensures ineffExpands == if nonidealItems > numItems / 2 then old(ineffExpands) + 1 else 0
    {
      hide Spread, AllExpanded, AllNodes, Nodes, BucketsHold, ShiftRight, Hashed;
      ghost var filled := newBuckets[..];
      ShiftIsDiv(numItems, 1);
      idealChainMaxlen := ideal;
      nonidealItems := nonideal;
      numBuckets := numBuckets * 2;
      log2NumBuckets := log2NumBuckets + 1;
      buckets := newBuckets;
      chains := news;
      ineffExpands := if nonidealItems > ShiftRight(numItems, 1) then ineffExpands + 1 else 0;
      if ineffExpands > 1 {
        noexpand := true;
      }
      assert buckets[..] == filled;
    }

    /** HASH_ADD_TO_BKT. */
    method AddToBkt(bkt: nat, add: Node, ghost members: seq<Node>)
      requires BucketPart(members) && add !in members && add.hashv == hash(add.key)
      requires bkt == Slot(hash, add, numBuckets) && numItems > 0
      modifies this`buckets, this`numBuckets, this`log2NumBuckets, this`idealChainMaxlen,
               this`nonidealItems, this`ineffExpands, this`noexpand, this`chains, buckets,
               Nodes(members)`hhNext, Nodes(members)`hhPrev, add`hhNext, add`hhPrev
      ensures BucketPart(members + [add])
      ensures buckets == old(buckets) || fresh(buckets)
      ensures log2NumBuckets == old(log2NumBuckets) +
        if !old(noexpand) && old(buckets[bkt].count) + 1 >= (old(buckets[bkt].expandMult) + 1) * 10
        then 1 else 0
    {
      hide Spread, AllNodes, BucketsHold;
      PushBucket(hash, buckets, bkt, add, members, chains);
      ghost var filled := buckets[..];
      ghost var chains' := chains[bkt := [add] + chains[bkt]];
      assert forall n | n in AllNodes(chains') :: (n as object) != this;
      chains := chains';
      assert buckets[..] == filled;
      if buckets[bkt].count >= (buckets[bkt].expandMult + 1) * BKT_CAPACITY_THRESH && !noexpand {
        ExpandBuckets(members + [add]);
      }
    }

    /** The list half of HASH_ADD_KEYPTR_BYHASHVALUE. */
    method AddToList(add: Node)
      requires Valid() && add !in items
      modifies this, Nodes(items)`next, add
      ensures items == old(items) + [add] && ListPart()
      ensures BucketPart(old(items)) && numItems == |old(items)|
      ensures add.hashv == hash(add.key)
      ensures buckets == old(buckets) || fresh(buckets)
    {
      hide AppList, Distinct, BucketPart;
      assert forall n | n in AllNodes(chains) :: allocated(n);
      add.hashv := hash(add.key);
      if head == null {
        add.next := null;
        add.prev := null;
        MakeTable(add);
        head := add;
        items := [add];
        SingletonList(add);
      } else {
        tail := AppendList(tail, add, items);
        items := items + [add];
      }
    }

    /** HASH_ADD_TO_TABLE. */
    method AddToTable(add: Node, ghost members: seq<Node>)
      requires BucketPart(members) && add !in members && add.hashv == hash(add.key)
      requires ListPart() && items == members + [add]
      modifies this`buckets, this`numBuckets, this`log2NumBuckets, this`idealChainMaxlen,
               this`nonidealItems, this`ineffExpands, this`noexpand, this`chains, this`numItems, buckets,
               Nodes(members)`hhNext, Nodes(members)`hhPrev, add`hhNext, add`hhPrev
      ensures ListPart() && BucketPart(items) && numItems == old(numItems) + 1
      ensures buckets == old(buckets) || fresh(buckets)
    {
      hide BucketPart, ListPart, Distinct;
      assert forall n | n in AllNodes(chains) :: allocated(n);
      BucketCount(members);
      numItems := numItems + 1;
      var bkt := And(add.hashv, numBuckets - 1);
      AndMask(add.hashv, log2NumBuckets);
      assert forall n | n in Nodes(items) :: allocated(n) && (n as object) != buckets;
      AddToBkt(bkt, add, members);
    }

    lemma BucketCount(members: seq<Node>)
      requires BucketPart(members)
      ensures numBuckets == |chains| == buckets.Length == Pow2(log2NumBuckets)
    {
      hide Spread, Hashed, BucketsHold;
    }

    /** HASH_ADD_KEYPTR (HASH_ADD_KEYPTR_BYHASHVALUE with the hash of the key). */
    method Add(add: Node)
      requires Valid() && add !in items
      modifies this, buckets, Nodes(items), add
      ensures Valid() && items == old(items) + [add]
      ensures buckets == old(buckets) || fresh(buckets)
    {
      hide ListPart, BucketPart;
      AddToList(add);
      AddToTable(add, old(items));
      HeadOfList();
    }

    lemma HeadOfList()
      requires ListPart()
      ensures head != null && items != []
    {
    }

    /** The list half of HASH_DELETE_HH. */
    method DeleteFromList(del: Node, ghost k: nat)
      requires ListPart() && BucketPart(items) && |items| > 1
      requires k < |items| && items[k] == del
      modifies this`head, this`tail, this`items, Nodes(items)`next, Nodes(items)`prev
      ensures items == Remove(old(items), k) && ListPart() && BucketPart(old(items))
    {
      hide AppList, Distinct, BucketPart, Remove;
      assert forall n | n in AllNodes(chains) :: allocated(n);
      head, tail := Unlist(head, tail, del, items, k);
      RemoveAt(items, k);
      items := Remove(items, k);
    }

    /** The bucket half of HASH_DELETE_HH. */
    method DeleteFromBucket(del: Node, ghost members: seq<Node>, ghost k: nat)
      requires BucketPart(members) && Distinct(members) && k < |members| && members[k] == del
      requires ListPart() && items == Remove(members, k)
      modifies this`chains, buckets, Nodes(members)`hhNext, Nodes(members)`hhPrev
      ensures ListPart() && BucketPart(items)
    {
      hide Distinct, Spread, AllNodes, BucketsHold, Remove;
      var bkt := And(del.hashv, numBuckets - 1);
      AndMask(del.hashv, log2NumBuckets);
      ghost var j := DelInBkt(hash, buckets, bkt, del, members, chains, k);
      RemoveWithin(members, k);
      ghost var filled := buckets[..];
      ghost var chains' := chains[bkt := Remove(chains[bkt], j)];
      assert forall n | n in AllNodes(chains') :: (n as object) != this;
      chains := chains';
      assert buckets[..] == filled;
    }

    /** HASH_DELETE. */
    method Delete(del: Node)
      requires Valid() && del in items
      modifies this, buckets, Nodes(items)
      ensures Valid() && buckets == old(buckets)
      ensures exists k :: 0 <= k < |old(items)| && old(items)[k] == del && items == Remove(old(items), k)
    {
      hide AppList, Distinct, BucketPart, Remove;
      ghost var k :| 0 <= k < |items| && items[k] == del;
      assert Distinct(items) by {
        DistinctList(items);
      }
      AppListEnds(items, k);
      if del.prev == null && del.next == null {
        head := null;
        items := Remove(items, k);
      } else {
        DeleteFromList(del, k);
        DeleteFromBucket(del, old(items), k);
        assert forall n | n in AllNodes(chains) :: allocated(n);
        numItems := numItems - 1;
      }
    }

    /** HASH_FIND. */
    method Find(key: string) returns (out: Node?)
      requires Valid()
      ensures out == null ==> forall n | n in items :: n.key != key
      ensures out != null ==> out in items && out.key == key
    {
      out := null;
      if head != null {
        var hashv := hash(key);
        var bkt := And(hashv, numBuckets - 1);
        AndMask(hashv, log2NumBuckets);
        out := FindInBkt(buckets[bkt].hhHead, key, hashv, chains[bkt]);
        forall n | n in items && n.key == key
          ensures n in chains[bkt]
        {
          assert n in chains[Slot(hash, n, |chains|)];
        }
      }
    }

    /** HASH_FIND_IN_BKT. */
    method FindInBkt(hhHead: Node?, key: string, hashv: nat, ghost c: seq<Node>) returns (out: Node?)
      requires Chain(c) && hhHead == Head(c) && hashv == hash(key)
      requires Hashed(hash, c)
      ensures out == null ==> forall n | n in c :: n.key != key
      ensures out != null ==> out in c && out.key == key
    {
      hide Distinct;
      out := hhHead;
      ghost var j := 0;
      while out != null
        invariant 0 <= j <= |c| && out == (if j < |c| then c[j] else null)
        invariant forall n | n in c[..j] :: n.key != key
        decreases |c| - j
      {
        assert out in c;
        if out.hashv == hashv && |out.key| == |key| {
          if out.key == key {
            break;
          }
        }
        assert c[..j + 1] == c[..j] + [out];
        j := j + 1;
        out := out.hhNext;
      }
      assert c[..|c|] == c;
    }

    /** HASH_ITER with a loop body that collects the elements. */
    method Iterate() returns (visited: seq<Node>)
      requires Valid()
      ensures visited == items
    {
      hide Distinct, BackChained;
      visited := [];
      var el := head;
      var tmp := if head != null then head.next else null;
      while el != null
        invariant visited <= items
        invariant el == (if |visited| < |items| then items[|visited|] else null)
        invariant tmp == if el != null then el.next else null
        decreases |items| - |visited|
      {
        visited := visited + [el];
        el := tmp;
        tmp := if tmp != null then tmp.next else null;
      }
    }

    /** HASH_COUNT. */
    method Count() returns (count: nat)
      requires Valid()
      ensures count == |items|
    {
      count := if head != null then numItems else 0;
    }

    /** The next pointers lead from the heads to the ends of the list and of the chains: what HASH_FSCK can walk. */
    ghost predicate Walkable()
      reads this, buckets, Nodes(items), AllNodes(chains)
    {
      if head == null then items == []
      else
        && items != [] && head == items[0] && Linked(items)
        && |chains| == numBuckets == buckets.Length
        && forall b :: 0 <= b < |chains| ==> buckets[..][b].hhHead == Head(chains[b]) && HhLinked(chains[b])
    }

    /** What HASH_FSCK looks at: the backward pointers and the counts. */
    ghost predicate Passes()
      reads this, buckets, Nodes(items), AllNodes(chains)
    {
      head == null ||
      (&& BackChained(items) && |items| == numItems == TotalLength(chains, |chains|)
       && |chains| == buckets.Length
       && forall b :: 0 <= b < |chains| ==> HhBackChained(chains[b]) && buckets[..][b].count == |chains[b]|)
    }

    /** HASH_FSCK: true when it finds nothing to complain about. */
    method Fsck() returns (ok: bool)
      requires Walkable()
      ensures ok <==> Passes()
    {
      if head == null {
        return true;
      }
      hide Pow2, Linked, BackChained, HhLinked, HhBackChained;
      ok := true;
      var i, count := 0, 0;
      while i < numBuckets
        invariant 0 <= i <= numBuckets && count == TotalLength(chains, i)
        invariant ok <==> forall b :: 0 <= b < i ==> HhBackChained(chains[b]) && buckets[..][b].count == |chains[b]|
      {
        assert buckets[..][i].hhHead == Head(chains[i]);
        var chainOk, length := FsckChain(buckets[i].hhHead, chains[i]);
        count := count + length;
        if !chainOk || buckets[i].count != length {
          ok := false;
        }
        i := i + 1;
      }
      if count != numItems {
        ok := false;
      }
      var listOk, length := FsckList(items);
      if !listOk || length != numItems {
        ok := false;
      }
    }

    /** The check of one bucket chain. */
    method FsckChain(hhHead: Node?, ghost c: seq<Node>) returns (ok: bool, length: nat)
      requires HhLinked(c) && hhHead == Head(c)
      ensures ok <==> HhBackChained(c)
      ensures length == |c|
    {
      ok, length := true, 0;
      var thh := hhHead;
      var prev: Node? := null;
      while thh != null
        invariant 0 <= length <= |c|
        invariant ok <==>
          (length > 0 ==> c[0].hhPrev == null) && forall i :: 1 <= i < length ==> c[i].hhPrev == c[i - 1]
        invariant thh == (if length < |c| then c[length] else null)
        invariant prev == if length > 0 then c[length - 1] else null
        decreases |c| - length
      {
        if prev != thh.hhPrev {
          ok := false;
        }
        length := length + 1;
        prev := thh;
        thh := thh.hhNext;
      }
    }

    /** The check of the application order list. */
    method FsckList(ghost s: seq<Node>) returns (ok: bool, length: nat)
      requires Linked(s) && head == Head(s)
      ensures ok <==> BackChained(s)
      ensures length == |s|
    {
      ok, length := true, 0;
      var thh := head;
      var prev: Node? := null;
      while thh != null
        invariant 0 <= length <= |s|
        invariant ok <==> (length > 0 ==> s[0].prev == null) && forall i :: 1 <= i < length ==> s[i].prev == s[i - 1]
        invariant thh == (if length < |s| then s[length] else null)
        invariant prev == if length > 0 then s[length - 1] else null
        decreases |s| - length
      {
        if prev != thh.prev {
          ok := false;
        }
        length := length + 1;
        prev := thh;
        thh := thh.next;
      }
    }

    /** Every sound table can be walked and passes. */
    lemma ValidPasses()
      requires Valid()
      ensures Walkable() && Passes()
    {
      if head != null {
        assert Walkable() by {
          hide Spread, Hashed, Pow2, Distinct;
          forall b | 0 <= b < |chains|
            ensures HhLinked(chains[b])
          {
            assert BucketHolds(buckets[..][b], chains[b]);
            ChainParts(chains[b]);
          }
        }
        ValidMeansPasses();
      }
    }

    /**
     What HASH_FSCK does not see: a table that passes is sound exactly when its tail is the last element, the
     bucket count is the power of its logarithm, noexpand follows ineff_expands, the stored hash values are
     those of the keys, and every element is in the chain of its hash value, once.
     */
    lemma ValidMeansPasses()
      requires Walkable() && head != null
      ensures Valid() <==>
        && Passes() && tail == Last(items) && numBuckets == Pow2(log2NumBuckets) && (noexpand <==> ineffExpands > 1)
        && Hashed(hash, items) && Spread(hash, items, chains)
    {
      hide Spread, Hashed, Linked, BackChained, Pow2, Distinct, Chain, HhLinked, HhBackChained;
      LinkedDistinct(items);
      if Spread(hash, items, chains) {
        SpreadCount(hash, items, chains);
        forall b | 0 <= b < |chains|
          ensures Chain(chains[b]) <==> HhLinked(chains[b]) && HhBackChained(chains[b])
        {
          SpreadChain(hash, items, chains, b);
          ChainParts(chains[b]);
        }
      }
    }

    /** HASH_SRT. */
    method Sort(cmp: (Node, Node) -> int)
      requires Valid()
      modifies this`head, this`tail, this`items, Nodes(items)`next, Nodes(items)`prev
      ensures Valid() && items == BottomUp(cmp, old(items), 1)
      ensures multiset(items) == multiset(old(items))
      ensures Orders(cmp, old(items)) ==> Sorted(cmp, items) && Stable(cmp, old(items), items)
      ensures forall n | n in old(items) :: n.hhNext == old(n.hhNext) && n.hhPrev == old(n.hhPrev)
    {
      hide Orders, Sorted, Stable, ListPart, BucketPart, BottomUp;
      SortContents(cmp, items, 1);
      SortEmpty(cmp);
      if head != null {
        SortAll(cmp);
        HeadOfList();
      }
      SameElements(old(items), items);
      if Orders(cmp, old(items)) {
        SortCorrect(cmp, old(items));
      }
    }

    /** Sorting the list keeps the bucket half of the invariant. */
    method SortAll(cmp: (Node, Node) -> int)
      requires ListPart() && BucketPart(items)
      modifies this`head, this`tail, this`items, Nodes(items)`next, Nodes(items)`prev
      ensures ListPart() && BucketPart(items) && items == BottomUp(cmp, old(items), 1)
    {
      hide BucketPart, ListPart, BottomUp;
      ghost var before := items;
      SortContents(cmp, items, 1);
      SortBesideBuckets(cmp);
      PermuteBuckets(before, items);
    }

    /** The list is sorted, and the buckets hold what they held. */
    method SortBesideBuckets(cmp: (Node, Node) -> int)
      requires ListPart() && BucketPart(items)
      modifies this`head, this`tail, this`items, Nodes(items)`next, Nodes(items)`prev
      ensures ListPart() && BucketPart(old(items)) && items == BottomUp(cmp, old(items), 1)
    {
      hide AppList, Distinct, BottomUp, Spread, Pow2;
      SortList(cmp);
    }

    lemma PermuteBuckets(members: seq<Node>, members': seq<Node>)
      requires BucketPart(members) && multiset(members) == multiset(members')
      ensures BucketPart(members')
    {
      hide Spread, BucketsHold, Pow2;
      SameElements(members, members');
      SpreadPermute(hash, members, members', chains);
    }

    /** The loop of HASH_SRT over the passes. */
    method SortList(cmp: (Node, Node) -> int)
      requires ListPart()
      modifies this`head, this`tail, this`items, Nodes(items)`next, Nodes(items)`prev
      ensures ListPart() && items == BottomUp(cmp, old(items), 1)
    {
      hide AppList, Distinct, BottomUp, Pass, Nodes, Linked;
      var insize, looping := 1, true;
      var list: Node? := head;
      while looping
        invariant insize > 0 && items != [] && AppList(items) && list == Head(items)
        invariant multiset(items) == multiset(old(items)) && Nodes(items) == Nodes(old(items))
        invariant |items| == |old(items)|
        invariant if looping then BottomUp(cmp, items, insize) == BottomUp(cmp, old(items), 1)
                  else items == BottomUp(cmp, old(items), 1) && head == list && tail == Last(items)
        decreases looping, |items| - insize
      {
        BottomUpStep(cmp, items, insize);
        AppListParts(items);
        var t, nmerges;
        list, t, nmerges := MergePass(list, insize, cmp, items);
        ghost var sorted := Pass(cmp, items, insize);
        SameNodes(sorted, items);
        assert AppList(sorted);
        items := sorted;
        if nmerges <= 1 {
          looping := false;
          tail := t;
          head := list;
        }
        insize := insize * 2;
      }
    }
  }

  lemma InitialBuckets()
    ensures Pow2(INITIAL_NUM_BUCKETS_LOG2) == INITIAL_NUM_BUCKETS
  {
    assert Pow2(5) == 2 * Pow2(4) && Pow2(4) == 2 * Pow2(3) && Pow2(3) == 2 * Pow2(2);
  }

  lemma NothingSpread(hash: string -> nat, buckets: seq<Bucket>, chains: seq<seq<Node>>)
    requires |buckets| == |chains| > 0
    requires forall b :: 0 <= b < |chains| ==> buckets[b] == EMPTY_BUCKET && chains[b] == []
    ensures Spread(hash, [], chains) && BucketsHold(buckets, chains) && Hashed(hash, [])
  {
    hide Slot;
  }

  lemma SortEmpty(cmp: (Node, Node) -> int)
    ensures BottomUp(cmp, [], 1) == []
  {
  }

  lemma AppListParts(s: seq<Node>)
    requires AppList(s)
    ensures Linked(s) && Distinct(s)
  {
  }

  lemma SpreadPermute(hash: string -> nat, items: seq<Node>, items': seq<Node>, chains: seq<seq<Node>>)
    requires Spread(hash, items, chains) && multiset(items) == multiset(items')
    ensures Spread(hash, items', chains)
  {
    SameElements(items, items');
  }

  lemma RemoveWithin(s: seq<Node>, k: nat)
    requires k < |s|
    ensures Nodes(Remove(s, k)) <= Nodes(s)
    ensures forall n | n in Remove(s, k) :: n in s
  {
  }

  lemma DistinctList(s: seq<Node>)
    requires AppList(s)
    ensures Distinct(s)
  {
  }

  /** An element without neighbours is the only one. */
  lemma AppListEnds(s: seq<Node>, k: nat)
    requires AppList(s) && k < |s|
    ensures s[k].prev == null && s[k].next == null <==> |s| == 1
    ensures |Remove(s, k)| == |s| - 1
  {
    if k > 0 {
      assert s[k].prev == s[k - 1];
    } else if |s| > 1 {
      assert s[0].next == s[1];
    }
  }

  lemma SingletonList(n: Node)
    requires n.next == null && n.prev == null
    ensures AppList([n])
  {
  }
}
