/** hw1/HashTable.c: a chained hash table that grows by itself, and its iterators. */
module HashTables {
  import opened Chains
  import opened LinkedLists

  /** The position of the first pair with the key, or |s|. This is where ChainContainsKey stops. */
  ghost function IndexOf<V>(s: seq<KeyValue<V>>, key: uint64): (p: nat)
    ensures p <= |s| && (p < |s| ==> s[p].key == key)
    ensures forall i :: 0 <= i < p ==> s[i].key != key
  {
    if s == [] || s[0].key == key then 0 else 1 + IndexOf(s[1..], key)
  }

  lemma DistinctIndex<V>(s: seq<KeyValue<V>>, p: nat)
    requires DistinctKeys(s) && p < |s|
    ensures IndexOf(s, s[p].key) == p
  {}

  class HashTable<V> {
    var numBuckets: nat
    var numElements: nat
    var buckets: array<LinkedList<KeyValue<V>>>

    ghost var chains: seq<seq<KeyValue<V>>>
    ghost var m: map<uint64, V>
    ghost var Repr: set<object>

    /** The record, its bucket array and one well formed list per bucket, sharing nothing. */
    ghost predicate Shape()
      reads this, Repr
    {
      && this in Repr && buckets in Repr
      && buckets.Length == numBuckets == |chains|
      && (forall i :: 0 <= i < numBuckets ==>
           && buckets[i] in Repr && buckets[i].Repr <= Repr - {this, buckets}
           && buckets[i].Valid() && buckets[i].contents == chains[i])
      && (forall i, j :: 0 <= i < j < numBuckets ==> buckets[i].Repr !! buckets[j].Repr)
    }

    /** The shape, the map it holds, and counts that fit in HWSize_t. */
    ghost predicate Valid()
      reads this, Repr
      ensures Valid() ==> this in Repr
    {
      && Shape()
      && Holds(chains, m)
      && 0 < numBuckets < TWO32 && numElements == |m| < TWO32
    }

    /** The pairs in iteration order. */
    ghost function Items(): seq<KeyValue<V>>
      reads this
    {
      Flatten(chains)
    }

    /** The load factor that Insert maintains as long as the bucket counts it computes do not overflow. */
    ghost predicate WellLoaded()
      reads this
    {
      numElements <= 3 * numBuckets < TWO32
    }

    ghost predicate NoOverflow()
      reads this
    {
      numElements >= 3 * numBuckets ==> 27 * numBuckets < TWO32
    }

    /** A pair with the key replaces one, or the element count can still go up. */
    ghost predicate RoomFor(key: uint64)
      reads this
    {
      key in m || numElements + 1 < TWO32
    }

    /** The part of AllocateHashTable for a non-zero bucket count. */
    constructor (numBuckets: nat)
      requires 0 < numBuckets < TWO32
      ensures Valid() && fresh(Repr) && m == map[] && this.numBuckets == numBuckets && numElements == 0
    {
      this.numBuckets, numElements := numBuckets, 0;
      var table: array<LinkedList<KeyValue<V>>>;
      ghost var lists: set<object>;
      table, lists := MakeChains(numBuckets);
      buckets := table;
      chains := seq(numBuckets, _ => []);
      m := map[];
      Repr := lists + {this, table};
    }

    static method MakeChains(n: nat) returns (table: array<LinkedList<KeyValue<V>>>, ghost lists: set<object>)
      requires n > 0
      ensures fresh(table) && fresh(lists) && table !in lists && table.Length == n
      ensures forall i :: 0 <= i < n ==>
        table[i].Valid() && table[i].contents == [] && table[i].Repr == {table[i]} && table[i] in lists
      ensures forall i, j :: 0 <= i < j < n ==> table[i] != table[j]
    {
      hide LinkedList.Valid;
      var first := new LinkedList<KeyValue<V>>();
      table := new LinkedList<KeyValue<V>>[n](_ => first);
      lists := {first};
      var i := 1;
      while i < n
        invariant 1 <= i <= n && fresh(table) && fresh(lists) && table !in lists && table.Length == n
        invariant forall k :: 0 <= k < i ==>
          table[k].Valid() && table[k].contents == [] && table[k].Repr == {table[k]} && table[k] in lists
        invariant forall j, k :: 0 <= j < k < i ==> table[j] != table[k]
      {
        var chain := new LinkedList<KeyValue<V>>();
        table[i] := chain;
        lists := lists + {chain};
        i := i + 1;
      }
    }

    /** The chain of a bucket was edited in place; nothing else was. */
    twostate lemma ChainEdited(b: nat)
      requires old(Shape()) && b < old(numBuckets)
      requires numBuckets == old(numBuckets) && buckets == old(buckets) && buckets[..] == old(buckets[..])
      requires buckets[b].Valid() && fresh(buckets[b].Repr - old(buckets[b].Repr))
      requires Repr == old(Repr) + buckets[b].Repr && chains == old(chains)[b := buckets[b].contents]
      requires unchanged(old(Repr) - {this, buckets} - old(buckets[b].Repr))
      ensures Shape()
    {
      forall i | 0 <= i < numBuckets && i != b
        ensures buckets[i].Repr == old(buckets[i].Repr) && buckets[i].Valid() && buckets[i].contents == chains[i]
      {
        assert buckets[i] == old(buckets[i]);
        assert old(buckets[i].Repr) !! old(buckets[b].Repr);
      }
    }

    method Lookup(key: uint64) returns (res: int, kv: Option<KeyValue<V>>)
      requires Valid()
      ensures res == if key in m then 1 else 0
      ensures kv == if key in m then Some(KeyValue(key, m[key])) else None
    {
      var it, pair := FindInChain(Bucket(key, numBuckets), key);
      return if it != null then 1 else 0, pair;
    }

    method Insert(newkv: KeyValue<V>) returns (res: int, oldkv: Option<KeyValue<V>>)
      requires Valid() && RoomFor(newkv.key)
      modifies Repr
      ensures Valid() && fresh(Repr - old(Repr))
      ensures m == old(m)[newkv.key := newkv.value]
      ensures res == if newkv.key in old(m) then 2 else 1
      ensures oldkv == if newkv.key in old(m) then Some(KeyValue(newkv.key, old(m)[newkv.key])) else None
      ensures old(WellLoaded() && NoOverflow()) ==>
        WellLoaded() && numBuckets == old(if numElements < 3 * numBuckets then numBuckets else 9 * numBuckets)
      decreases numElements, 3
    {
      Resize();
      res, oldkv := InsertIntoChain(newkv);
    }

    /** InsertHashTable after its call of ResizeHashtable. */
    method InsertIntoChain(newkv: KeyValue<V>) returns (res: int, oldkv: Option<KeyValue<V>>)
      requires Valid() && RoomFor(newkv.key)
      modifies Repr
      ensures Valid() && fresh(Repr - old(Repr)) && numBuckets == old(numBuckets) && buckets == old(buckets)
      ensures numElements <= old(numElements) + 1
      ensures m == old(m)[newkv.key := newkv.value]
      ensures res == if newkv.key in old(m) then 2 else 1
      ensures oldkv == if newkv.key in old(m) then Some(KeyValue(newkv.key, old(m)[newkv.key])) else None
    {
      hide LinkedList.Valid, LLIter.Valid, Holds, Bucket, IndexOf;
      var b := Bucket(newkv.key, numBuckets);
      var it, oldPair := FindInChain(b, newkv.key);
      if it != null {
        ReplacePair(b, it, newkv);
        return 2, oldPair;
      } else {
        PushPair(b, newkv);
        return 1, None;
      }
    }

    method PushPair(b: nat, newkv: KeyValue<V>)
      requires Valid() && numElements + 1 < TWO32 && b == Bucket(newkv.key, numBuckets) && newkv.key !in m
      modifies Repr
      ensures Valid() && fresh(Repr - old(Repr)) && numBuckets == old(numBuckets) && buckets == old(buckets)
      ensures m == old(m)[newkv.key := newkv.value] && numElements == old(numElements) + 1
    {
      assert b < numBuckets == |chains|;
      hide Shape, Holds, Bucket;
      AddPair(chains, m, newkv);
      PushOnChain(b, newkv);
    }

    method ReplacePair(b: nat, it: LLIter<KeyValue<V>>, newkv: KeyValue<V>)
      requires Valid() && b == Bucket(newkv.key, numBuckets) && it.Valid() && it !in Repr && it.list == buckets[b]
      requires b < |chains| && it.pos < |chains[b]| && chains[b][it.pos].key == newkv.key
      modifies Repr, it
      ensures Valid() && fresh(Repr - old(Repr)) && unchanged(`numBuckets, `buckets, `numElements)
      ensures m == old(m)[newkv.key := newkv.value]
    {
      hide Shape, Holds, Bucket, LinkedList.Valid, LLIter.Valid;
      ghost var p, dropped := it.pos, Without(chains[b], it.pos);
      DropPair(chains, m, b, p);
      AddPair(chains[b := dropped], m - {newkv.key}, newkv);
      ReplaceInChain(b, it, newkv);
      assert chains == old(chains)[b := dropped][b := [newkv] + dropped];
      assert m == (old(m) - {newkv.key})[newkv.key := newkv.value];
    }

    method Remove(key: uint64) returns (res: int, kv: Option<KeyValue<V>>)
      requires Valid()
      modifies this, ChainRepr(key)
      ensures Valid() && unchanged(`Repr, `numBuckets, `buckets)
      ensures m == old(m) - {key}
      ensures res == if key in old(m) then 1 else 0
      ensures kv == if key in old(m) then Some(KeyValue(key, old(m)[key])) else None
      ensures key in old(m) ==> Dropped(Bucket(key, numBuckets), IndexOf(old(chains[Bucket(key, numBuckets)]), key))
    {
      var b := Bucket(key, numBuckets);
      var it, pair := FindInChain(b, key);
      if it != null {
        DropPairAt(b, it);
        return 1, pair;
      }
      return 0, None;
    }

    /** The objects of the chain a key belongs to. */
    ghost function ChainRepr(key: uint64): (r: set<object>)
      requires Shape() && numBuckets > 0
      reads this, Repr
      ensures r <= Repr
    {
      buckets[Bucket(key, numBuckets)].Repr
    }

    /** Position p of chain b was unlinked; every other chain and all the other nodes stayed. */
    twostate predicate Dropped(b: nat, p: nat)
      requires old(Shape()) && Shape() && buckets == old(buckets) && b < old(numBuckets)
      reads this, Repr
    {
      && numBuckets == old(numBuckets) && p < |old(chains[b])| && p < |old(buckets[b].spine)|
      && chains == old(chains)[b := Without(old(chains[b]), p)]
      && buckets[..] == old(buckets[..]) && buckets[b].Repr == old(buckets[b].Repr)
      && buckets[b].spine == Without(old(buckets[b].spine), p)
    }

    method DropPairAt(b: nat, it: LLIter<KeyValue<V>>)
      requires Valid() && it.Valid() && it !in Repr && b < numBuckets && it.list == buckets[b]
      requires b < |chains| && it.pos < |chains[b]|
      modifies this, buckets[b].Repr, it
      ensures Valid() && unchanged(`Repr, `numBuckets, `buckets)
      ensures m == old(m) - {old(chains[b][it.pos].key)}
      ensures Dropped(b, old(it.pos))
    {
      hide Shape, Holds, Bucket, LinkedList.Valid, LLIter.Valid, HashTable.Dropped;
      DropPair(chains, m, b, it.pos);
      DeleteFromChain(b, it);
    }

    /** The common search of the three operations: an iterator on the pair with the key, or null. */
    method FindInChain(b: nat, key: uint64) returns (it: LLIter?<KeyValue<V>>, kv: Option<KeyValue<V>>)
      requires Shape() && Holds(chains, m) && b == Bucket(key, numBuckets)
      ensures (it != null) == (key in m)
      ensures it != null ==> fresh(it) && it.Valid() && it.list == buckets[b]
      ensures it != null ==> it.pos == IndexOf(chains[b], key) < |chains[b]| && chains[b][it.pos] == KeyValue(key, m[key])
      ensures kv == if it != null then Some(KeyValue(key, m[key])) else None
    {
      hide LinkedList.Valid, LLIter.Valid, Bucket;
      var chain := buckets[b];
      KeyInItsChain(chains, m, key);
      var n := chain.NumElements();
      if n == 0 {
        return null, None;
      }
      var chainIterator := new LLIter(chain, false);
      var found, pair := ChainContainsKey(chainIterator, key);
      if found {
        return chainIterator, Some(pair);
      }
      return null, None;
    }

    method PushOnChain(b: nat, newkv: KeyValue<V>)
      requires Shape() && b < numBuckets
      modifies Repr
      ensures Shape() && fresh(Repr - old(Repr)) && unchanged(`numBuckets, `buckets)
      ensures numElements == old(numElements) + 1 && m == old(m)[newkv.key := newkv.value]
      ensures chains == old(chains)[b := [newkv] + old(chains[b])]
    {
      var chain := buckets[b];
      chain.Push(newkv);
      numElements := numElements + 1;
      chains, m, Repr := chains[b := chain.contents], m[newkv.key := newkv.value], Repr + chain.Repr;
      ChainEdited(b);
    }

    /** The pair under the iterator goes and the new one becomes the head of the chain. */
    method ReplaceInChain(b: nat, it: LLIter<KeyValue<V>>, newkv: KeyValue<V>)
      requires Shape() && b < numBuckets && it.Valid() && it !in Repr && it.list == buckets[b]
      modifies Repr, it
      ensures Shape() && fresh(Repr - old(Repr)) && unchanged(`numBuckets, `buckets, `numElements)
      ensures m == old(m)[newkv.key := newkv.value]
      ensures chains == old(chains)[b := [newkv] + Without(old(chains[b]), old(it.pos))]
    {
      var chain := buckets[b];
      ReplaceUnder(it, newkv);
      m := m[newkv.key := newkv.value];
      chains, Repr := chains[b := chain.contents], Repr + chain.Repr;
      ChainEdited(b);
    }

    method DeleteFromChain(b: nat, it: LLIter<KeyValue<V>>)
      requires Shape() && b < numBuckets && it.Valid() && it !in Repr && it.list == buckets[b] && numElements > 0
      modifies this, buckets[b].Repr, it
      ensures Shape() && unchanged(`Repr, `numBuckets, `buckets) && Dropped(b, old(it.pos))
      ensures chains == old(chains)[b := Without(old(chains[b]), old(it.pos))]
      ensures numElements == old(numElements) - 1 && m == old(m) - {old(chains[b][it.pos].key)}
    {
      hide LinkedList.Valid;
      it.InRange();
      m := m - {chains[b][it.pos].key};
      numElements := numElements - 1;
      var _ := it.Delete();
      chains := chains[b := buckets[b].contents];
      ChainEdited(b);
    }

    /** Iteration order lists every pair of the map exactly once. */
    lemma ItemsListMap()
      requires Valid()
      ensures Lists(Items(), m) && |Items()| == |m| == numElements
      ensures |chains| == numBuckets > 0
    {
      FlattenLists(chains, m);
      ListedCount(Items(), m);
    }

    /** The buckets of a table, on the heap: each pair is in the list of its key modulo the bucket count. */
    lemma InItsBucket(i: nat, e: KeyValue<V>)
      requires Valid() && i < numBuckets && buckets.Length == numBuckets
      ensures e in buckets[i].contents <==> e.key in m && m[e.key] == e.value && e.key as nat % numBuckets == i
    {
      hide LinkedList.Valid;
      InItsChain(chains, m);
      if e.key in m && m[e.key] == e.value {
        assert e == KeyValue(e.key, m[e.key]);
      }
    }

    lemma SizeBound()
      requires Valid()
      ensures numElements == |m| < TWO32 && 0 < numBuckets < TWO32
    {}

    lemma InTable()
      requires Valid()
      ensures this in Repr
    {
      hide HashTable.Shape;
    }

    lemma ChainInTable(key: uint64)
      requires Valid()
      ensures Shape() && numBuckets > 0 && ChainRepr(key) <= Repr
    {}

    /** What the invariant says about one bucket. */
    lemma ChainAt(b: nat)
      requires Valid() && b < numBuckets
      ensures |chains| == buckets.Length == numBuckets
      ensures buckets[b].Valid() && buckets[b].contents == chains[b] && buckets[b].Repr <= Repr
    {}

    lemma PairAt(b: nat, p: nat)
      requires Valid() && b < |chains| == numBuckets && p < |chains[b]|
      ensures var e := chains[b][p];
        && e.key in m && m[e.key] == e.value
        && Bucket(e.key, numBuckets) == b && IndexOf(chains[b], e.key) == p
    {
      hide HashTable.Shape, IndexOf, Bucket;
      assert chains[b][p] in chains[b];
      DistinctIndex(chains[b], p);
    }

    lemma ChainsApart(b: nat, c: nat)
      requires Valid() && b < numBuckets && c < numBuckets && b != c
      ensures buckets.Length == numBuckets && buckets[b].Repr !! buckets[c].Repr
    {}

    /** The search of HashTableMakeIterator. */
    method FirstNonEmptyBucket() returns (i: nat)
      requires Valid() && numElements > 0
      ensures i < numBuckets && chains[i] != []
      ensures Items() == chains[i] + Flatten(chains[i + 1..])
    {
      hide HashTable.Valid, LinkedList.Valid, Lists;
      ItemsListMap();
      ChainAt(0);
      i := 0;
      var n := buckets[i].NumElements();
      while n == 0
        invariant i < numBuckets && n == |chains[i]|
        invariant forall k :: 0 <= k < i ==> chains[k] == []
        decreases numBuckets - i
      {
        if i + 1 == numBuckets {
          EmptyChains(chains);
        }
        i := i + 1;
        ChainAt(i);
        n := buckets[i].NumElements();
      }
      SkipEmpty(chains, 0, i);
      assert chains[0..] == chains;
    }

    /** The bucket count of a larger table is never zero. */
    lemma NineTimes(n: nat)
      requires 0 < n < TWO32
      ensures 0 < 9 * n % TWO32
    {
      var q, r := 9 * n / TWO32, 9 * n % TWO32;
      assert 9 * 954437177 == 2 * TWO32 + 1;
      assert n == (q * 954437177 - 2 * n) * TWO32 + r * 954437177;
    }

    /** ResizeHashtable: at load factor 3 every pair moves to a table with 9 times the buckets. Both
        products are those of HWSize_t, 32 bits wide. */
    method Resize()
      requires Valid()
      modifies Repr
      ensures Valid() && fresh(Repr - old(Repr))
      ensures m == old(m) && numElements == old(numElements)
      ensures old(WellLoaded() && NoOverflow()) ==>
        3 * numBuckets < TWO32 && numElements < 3 * numBuckets
        && numBuckets == old(if numElements < 3 * numBuckets then numBuckets else 9 * numBuckets)
      decreases numElements, 2
    {
      hide Shape, Holds;
      if numElements < 3 * numBuckets % TWO32 {
        return;
      }
      NineTimes(numBuckets);
      var newht := new HashTable(numBuckets * 9 % TWO32);
      CopyInto(newht);
      TakeOver(newht);
    }

    /** Nothing overflows when the pairs move. */
    ghost predicate Narrow()
      reads this
    {
      numElements <= 3 * numBuckets && 27 * numBuckets < TWO32
    }

    lemma NoWrap(n: nat)
      requires n == 9 * numBuckets % TWO32
      ensures Narrow() ==> n == 9 * numBuckets
    {}

    /** The first k pairs are copied, and the iterator stands on the next. */
    ghost predicate Copied(newht: HashTable<V>, it: HTIter<V>, all: seq<KeyValue<V>>, k: nat)
      reads this, Repr, newht, newht.Repr, it, it.bucketIt
    {
      && Valid() && newht.Valid() && it.ht == this && it.Valid()
      && Repr !! newht.Repr && it !in newht.Repr && it.bucketIt !in newht.Repr
      && (Narrow() ==> newht.numBuckets == 9 * numBuckets)
      && Lists(all, m) && k <= |all| == numElements && it.Remaining() == all[k..] && newht.m == MapOf(all[..k])
    }

    lemma CopyParts(newht: HashTable<V>, it: HTIter<V>, all: seq<KeyValue<V>>, k: nat)
      requires Copied(newht, it, all, k)
      ensures it.Valid() && it.Remaining() == all[k..] && k <= |all|
      ensures k == |all| ==> newht.Valid() && newht.m == m && (Narrow() ==> newht.numBuckets == 9 * numBuckets)
    {
      hide HashTable.Valid, HTIter.Valid, HTIter.Remaining, Lists, MapOf;
      if k == |all| {
        assert all[..k] == all;
        ListedMap(all, m);
      }
    }

    /** The copy loop of ResizeHashtable. */
    method CopyInto(newht: HashTable<V>)
      requires Valid() && newht.Valid() && Repr !! newht.Repr
      requires newht.numBuckets == 9 * numBuckets % TWO32 && newht.m == map[]
      modifies newht.Repr
      ensures newht.Valid() && fresh(newht.Repr - old(newht.Repr)) && newht.m == m
      ensures Narrow() ==> newht.numBuckets == 9 * numBuckets
      decreases numElements, 1
    {
      hide HashTable.Valid, HashTable.Copied, HashTable.Narrow, HTIter.Valid, HTIter.Remaining, HashTable.Items;
      var it := new HTIter(this);
      ghost var all, k := Items(), 0;
      NothingCopied(newht, it, all);
      CopyParts(newht, it, all, k);
      var pastEnd := it.PastEnd();
      while !pastEnd
        invariant fresh(it) && (it.bucketIt != null ==> fresh(it.bucketIt)) && fresh(newht.Repr - old(newht.Repr))
        invariant Copied(newht, it, all, k) && k <= |all| && pastEnd == (k == |all|)
        decreases |all| - k
      {
        CopyNext(newht, it, all, k);
        k := k + 1;
        CopyParts(newht, it, all, k);
        pastEnd := it.PastEnd();
      }
      CopyParts(newht, it, all, k);
    }

    lemma NothingCopied(newht: HashTable<V>, it: HTIter<V>, all: seq<KeyValue<V>>)
      requires Valid() && newht.Valid() && Repr !! newht.Repr && it.ht == this && it.Valid()
      requires it !in newht.Repr && it.bucketIt !in newht.Repr && it.Remaining() == all == Items()
      requires newht.numBuckets == 9 * numBuckets % TWO32 && newht.m == map[]
      ensures Copied(newht, it, all, 0)
    {
      hide HashTable.Valid, HTIter.Valid, HTIter.Remaining, HashTable.Items, Lists, MapOf;
      NoWrap(newht.numBuckets);
      ItemsListMap();
      NothingVisited(all);
    }

    /** The loop body: no insert finds its key present, and none resizes unless a count overflowed. */
    method CopyNext(newht: HashTable<V>, it: HTIter<V>, ghost all: seq<KeyValue<V>>, ghost k: nat)
      requires Copied(newht, it, all, k) && k < |all|
      modifies newht.Repr, it, it.bucketIt
      ensures Copied(newht, it, all, k + 1) && fresh(newht.Repr - old(newht.Repr))
      ensures it.bucketIt == old(it.bucketIt) || (it.bucketIt != null && fresh(it.bucketIt))
      decreases numElements, 0
    {
      hide HashTable.Valid, LLIter.Valid, HTIter.Valid, HTIter.Remaining, HashTable.Items, Lists, LinkedList.Valid, MapOf;
      VisitedSoFar(m, all, k);
      SizeBound();
      newht.SizeBound();
      var _, item := it.Get();
      var res, _ := newht.Insert(item.value);
      assert res == 1;
      var _ := it.Next();
      it.TableValid();
    }

    /** The records are exchanged and the old one is given up. */
    method TakeOver(newht: HashTable<V>)
      requires Valid() && newht.Valid() && Repr !! newht.Repr && newht.m == m
      modifies this
      ensures Valid() && Repr == newht.Repr - {newht} + {this}
      ensures m == old(m) && numElements == old(numElements) && numBuckets == newht.numBuckets
    {
      hide LinkedList.Valid, Holds;
      numBuckets, numElements, buckets := newht.numBuckets, newht.numElements, newht.buckets;
      chains, Repr := newht.chains, newht.Repr - {newht} + {this};
    }
  }

  lemma NothingVisited<V>(all: seq<KeyValue<V>>)
    ensures all[0..] == all && MapOf(all[..0]) == map[]
  {}

  /** The next pair of a listing without repetition is not among those already visited. */
  lemma VisitedSoFar<V>(m: map<uint64, V>, all: seq<KeyValue<V>>, k: nat)
    requires Lists(all, m) && k < |all|
    ensures all[k].key !in MapOf(all[..k]) && |MapOf(all[..k])| == k
    ensures MapOf(all[..k + 1]) == MapOf(all[..k])[all[k].key := all[k].value]
  {
    var visited := all[..k];
    assert DistinctKeys(visited) && all[k].key !in Keys(visited);
    hide DistinctKeys, Keys, Lists;
    MapOfDistinct(visited);
    DistinctCount(visited);
    assert |MapOf(visited)| == |MapOf(visited).Keys|;
    assert all[..k + 1][..k] == visited;
  }

  /** A forward iterator over the whole table. */
  class HTIter<V> {
    const ht: HashTable<V>
    var isValid: bool
    var bucketNum: nat
    var bucketIt: LLIter?<KeyValue<V>>

    ghost predicate Valid()
      reads this, ht, ht.Repr, bucketIt
    {
      && ht.Valid() && this !in ht.Repr
      && (isValid ==> OnPair())
    }

    /** While usable, the iterator stands on a pair of the chain of bucket bucketNum. */
    ghost predicate OnPair()
      requires ht.Valid()
      reads this, ht, ht.Repr, bucketIt
    {
      && bucketNum < ht.numBuckets && bucketIt != null && bucketIt !in ht.Repr
      && bucketIt.list == ht.buckets[bucketNum] && bucketIt.Valid()
    }

    /** The pairs still to be visited, the current one first. */
    ghost function Remaining(): seq<KeyValue<V>>
      requires Valid()
      reads this, ht, ht.Repr, bucketIt
    {
      if isValid then ht.chains[bucketNum][bucketIt.pos..] + Flatten(ht.chains[bucketNum + 1..]) else []
    }

    /** HashTableMakeIterator: stands on the first pair of the first non-empty bucket. */
    constructor (table: HashTable<V>)
      requires table.Valid()
      ensures Valid() && ht == table && Remaining() == table.Items()
      ensures bucketIt != null ==> fresh(bucketIt)
    {
      hide HashTable.Valid, LLIter.Valid, LinkedList.Valid, Lists, HashTable.Items, Flatten;
      ht := table;
      table.ItemsListMap();
      if table.numElements == 0 {
        isValid, bucketNum, bucketIt := false, 0, null;
      } else {
        var i := table.FirstNonEmptyBucket();
        table.ChainAt(i);
        assert table.chains[i][0..] == table.chains[i];
        isValid, bucketNum := true, i;
        var it := new LLIter(table.buckets[i], false);
        bucketIt := it;
      }
    }

    lemma TableValid()
      requires Valid()
      ensures ht.Valid()
    {
      hide HashTable.Valid, LLIter.Valid;
    }

    lemma StandsOnPair()
      requires Valid() && isValid
      ensures ht.numElements > 0 && bucketNum < |ht.chains| == ht.numBuckets
      ensures bucketIt.pos < |ht.chains[bucketNum]| && bucketIt.list.contents == ht.chains[bucketNum]
    {
      hide HashTable.Valid, LLIter.Valid, LinkedList.Valid;
      ht.ChainAt(bucketNum);
      bucketIt.InRange();
      ht.PairAt(bucketNum, bucketIt.pos);
      ht.SizeBound();
    }

    /** The iterator left position p of bucket b for the next one there, or for a later bucket. */
    ghost predicate MovedOn(b: nat, p: nat)
      reads this, bucketIt
    {
      bucketIt != null && (bucketNum > b || (bucketNum == b && bucketIt.pos == p + 1))
    }

    /** HTIteratorPastEnd. */
    method PastEnd() returns (b: bool)
      requires Valid()
      ensures b == (Remaining() == [])
    {
      hide HashTable.Valid, LLIter.Valid;
      if isValid {
        StandsOnPair();
      }
      b := !isValid || ht.numElements == 0;
    }

    /** HTIteratorGet. */
    method Get() returns (res: int, kv: Option<KeyValue<V>>)
      requires Valid()
      ensures res == if Remaining() == [] then 0 else 1
      ensures kv == if Remaining() == [] then None else Some(Remaining()[0])
    {
      hide HashTable.Valid, LLIter.Valid;
      if isValid {
        StandsOnPair();
      }
      if !isValid || ht.numElements == 0 {
        return 0, None;
      }
      var pair := bucketIt.GetPayload();
      return 1, Some(pair);
    }

    /** FindNextNonEmptyBucket. */
    method FindNextNonEmptyBucket() returns (found: bool)
      requires ht.Valid() && this !in ht.Repr && bucketNum + 1 < ht.numBuckets
      modifies this`bucketNum
      ensures old(bucketNum) < bucketNum < ht.numBuckets
      ensures forall k :: old(bucketNum) < k < bucketNum ==> ht.chains[k] == []
      ensures found == (ht.chains[bucketNum] != [])
      ensures !found ==> bucketNum + 1 == ht.numBuckets
    {
      hide HashTable.Valid, LinkedList.Valid;
      ht.ChainAt(bucketNum + 1);
      bucketNum := bucketNum + 1;
      var n := ht.buckets[bucketNum].NumElements();
      while n == 0 && bucketNum < ht.numBuckets - 1
        invariant old(bucketNum) < bucketNum < ht.numBuckets && n == |ht.chains[bucketNum]|
        invariant forall k :: old(bucketNum) < k < bucketNum ==> ht.chains[k] == []
        decreases ht.numBuckets - bucketNum
      {
        bucketNum := bucketNum + 1;
        ht.ChainAt(bucketNum);
        n := ht.buckets[bucketNum].NumElements();
      }
      found := n > 0;
    }

    /** HTIteratorNext. */
    method Next() returns (res: int)
      requires Valid()
      modifies this, bucketIt
      ensures Valid()
      ensures Remaining() == if old(Remaining()) == [] then [] else old(Remaining())[1..]
      ensures res == if |old(Remaining())| > 1 then 1 else 0
      ensures isValid == (res == 1)
      ensures bucketIt == old(bucketIt) || (bucketIt != null && fresh(bucketIt))
      ensures isValid ==> old(isValid && bucketIt != null) && bucketIt != null
      ensures isValid ==> MovedOn(old(bucketNum), old(if bucketIt == null then 0 else bucketIt.pos))
    {
      hide HashTable.Valid, LLIter.Valid;
      if isValid {
        StandsOnPair();
      }
      if !isValid {
        return 0;
      }
      var moved := NextInChain();
      if moved {
        return 1;
      }
      if bucketNum == ht.numBuckets - 1 {
        isValid := false;
        return 0;
      }
      res := NextChain();
    }

    method NextInChain() returns (moved: bool)
      requires Valid() && isValid
      modifies bucketIt
      ensures Valid() && |old(Remaining())| > 0
      ensures bucketIt.pos == old(bucketIt.pos) + (if moved then 1 else 0)
      ensures if moved then Remaining() == old(Remaining())[1..] && |Remaining()| > 0
              else Remaining() == old(Remaining()) && Remaining()[1..] == Flatten(ht.chains[bucketNum + 1..])
    {
      hide HashTable.Valid, LLIter.Valid, LinkedList.Valid, Flatten;
      StandsOnPair();
      moved := bucketIt.Next();
    }

    /** The chain is used up: on to the head of the next non-empty one, if there is any. */
    method NextChain() returns (res: int)
      requires Valid() && isValid && bucketNum + 1 < ht.numBuckets
      requires |Remaining()| > 0 && Remaining()[1..] == Flatten(ht.chains[bucketNum + 1..])
      modifies this
      ensures Valid()
      ensures Remaining() == old(Remaining())[1..]
      ensures res == if |old(Remaining())| > 1 then 1 else 0
      ensures isValid == (res == 1)
      ensures bucketIt == old(bucketIt) || (bucketIt != null && fresh(bucketIt))
      ensures isValid ==> bucketNum > old(bucketNum)
    {
      hide HashTable.Valid, LLIter.Valid, LinkedList.Valid;
      StandsOnPair();
      ghost var b := bucketNum;
      var found := FindNextNonEmptyBucket();
      SkipEmpty(ht.chains, b + 1, bucketNum);
      if !found {
        isValid := false;
        return 0;
      }
      ht.ChainAt(bucketNum);
      var newBucketIt := new LLIter(ht.buckets[bucketNum], false);
      bucketIt := newBucketIt;
      return 1;
    }

    /** HTIteratorDelete: steps past the current pair, then removes it from the table by its key.
        What is left to visit is exactly what was left after the step. */
    method Delete() returns (res: int, kv: Option<KeyValue<V>>)
      requires Valid()
      modifies this, bucketIt, ht.Repr
      ensures Valid() && ht.Valid() && ht.Repr == old(ht.Repr)
      ensures bucketIt == old(bucketIt) || (bucketIt != null && fresh(bucketIt))
      ensures old(Remaining()) == [] ==>
        res == 0 && kv == None && Remaining() == [] && ht.m == old(ht.m) && ht.Items() == old(ht.Items())
      ensures old(Remaining()) != [] ==>
        && res == (if |old(Remaining())| > 1 then 1 else 2)
        && kv == Some(old(Remaining())[0])
        && ht.m == old(ht.m) - {old(Remaining())[0].key}
        && Remaining() == old(Remaining())[1..]
      ensures old(Remaining()) != [] ==>
        var i := |old(ht.Items())| - |old(Remaining())|;
        i >= 0 && ht.Items() == Without(old(ht.Items()), i)
    {
      hide HashTable.Valid, LLIter.Valid, HTIter.Remaining, IndexOf, Bucket, Flatten;
      var got, item := Get();
      if got == 0 {
        return 0, None;
      }
      CurrentPair();
      ghost var b, p := bucketNum, bucketIt.pos;
      var more := Next();
      res := if more == 0 then 2 else 1;
      kv := RemoveVisited(item.value, b, p);
    }

    /** The current pair, seen from the table. */
    lemma CurrentPair()
      requires Valid() && Remaining() != []
      ensures isValid && bucketNum < |ht.chains| == ht.numBuckets && bucketIt.pos < |ht.chains[bucketNum]|
      ensures var e := ht.chains[bucketNum][bucketIt.pos];
        && e == Remaining()[0] && e.key in ht.m && ht.m[e.key] == e.value
        && Bucket(e.key, ht.numBuckets) == bucketNum && IndexOf(ht.chains[bucketNum], e.key) == bucketIt.pos
      ensures |Remaining()| <= |ht.Items()|
      ensures Without(ht.Items(), |ht.Items()| - |Remaining()|)
           == Flatten(ht.chains[bucketNum := Without(ht.chains[bucketNum], bucketIt.pos)])
    {
      hide HashTable.Valid, LLIter.Valid, Flatten, Without, IndexOf, Bucket;
      StandsOnPair();
      DropFromFlatten(ht.chains, bucketNum, bucketIt.pos);
      ht.PairAt(bucketNum, bucketIt.pos);
    }

    method RemoveVisited(e: KeyValue<V>, ghost b: nat, ghost p: nat) returns (kv: Option<KeyValue<V>>)
      requires Valid() && (isValid ==> MovedOn(b, p))
      requires b < |ht.chains| == ht.numBuckets && p < |ht.chains[b]| && e == ht.chains[b][p]
      requires e.key in ht.m && ht.m[e.key] == e.value
      requires Bucket(e.key, ht.numBuckets) == b && IndexOf(ht.chains[b], e.key) == p
      modifies bucketIt, ht, ht.ChainRepr(e.key)
      ensures Valid() && ht.Repr == old(ht.Repr) && bucketIt == old(bucketIt) && isValid == old(isValid)
      ensures kv == Some(e) && ht.m == old(ht.m) - {e.key}
      ensures ht.chains == old(ht.chains)[b := Without(old(ht.chains[b]), p)]
      ensures Remaining() == old(Remaining())
    {
      hide HashTable.Valid, LinkedList.Valid, IndexOf, Bucket, Flatten;
      if isValid {
        StandsOnPair();
        if bucketNum != b {
          ht.ChainsApart(b, bucketNum);
        }
      }
      ht.ChainAt(b);
      var removed, pair := ht.Remove(e.key);
      assert removed == 1;
      ht.ChainAt(b);
      if isValid {
        ht.ChainAt(bucketNum);
        assert ht.buckets[bucketNum] == ht.buckets[..][bucketNum] == old(ht.buckets[..])[bucketNum];
        if bucketNum == b {
          bucketIt.pos := p;
          assert bucketIt.Valid();
        } else {
          assert bucketIt.Valid();
        }
      }
      kv := pair;
    }
  }

  lemma WithoutInMiddle<T>(a: seq<T>, c: seq<T>, r: seq<T>, p: nat)
    requires p < |c|
    ensures Without(a + (c + r), |a| + p) == a + (Without(c, p) + r)
  {}

  /** Dropping the pair at position p of bucket b drops the pair the iteration meets there. */
  lemma DropFromFlatten<V>(chains: seq<seq<KeyValue<V>>>, b: nat, p: nat)
    requires b < |chains| && p < |chains[b]|
    ensures var left := |chains[b][p..] + Flatten(chains[b + 1..])|;
      left <= |Flatten(chains)| &&
      Without(Flatten(chains), |Flatten(chains)| - left) == Flatten(chains[b := Without(chains[b], p)])
  {
    hide Without, Flatten;
    var after := chains[b := Without(chains[b], p)];
    FlattenSplit(chains, b);
    FlattenSplit(after, b);
    assert after[..b] == chains[..b] && after[b + 1..] == chains[b + 1..];
    WithoutInMiddle(Flatten(chains[..b]), chains[b], Flatten(chains[b + 1..]), p);
    assert after[b] == Without(chains[b], p);
  }

  /** Empty buckets contribute nothing to what is left to visit. */
  lemma SkipEmpty<V>(chains: seq<seq<KeyValue<V>>>, from: nat, to: nat)
    requires from <= to < |chains|
    requires forall k :: from <= k < to ==> chains[k] == []
    ensures Flatten(chains[from..]) == chains[to] + Flatten(chains[to + 1..])
  {
    var c := chains[from..];
    EmptyChains(c[..to - from]);
    FlattenSplit(c, to - from);
    assert c[to - from + 1..] == chains[to + 1..];
  }

  /** AllocateHashTable: NULL (null) for zero buckets. */
  method AllocateHashTable<V>(numBuckets: nat) returns (ht: HashTable?<V>)
    requires numBuckets < TWO32
    ensures ht == null <==> numBuckets == 0
    ensures ht != null ==> fresh(ht.Repr) && ht.Valid() && ht.m == map[] && ht.numBuckets == numBuckets
  {
    hide HashTable.Valid;
    if numBuckets == 0 {
      return null;
    }
    ht := new HashTable<V>(numBuckets);
  }

  /** Walks the iterator to the first pair with the key, or to the end of the chain. */
  method ChainContainsKey<V>(it: LLIter<KeyValue<V>>, key: uint64) returns (found: bool, kv: KeyValue<V>)
    requires it.Valid() && it.pos == 0
    modifies it
    ensures it.Valid()
    ensures found == HasKey(it.list.contents, key)
    ensures found ==> it.pos == IndexOf(it.list.contents, key) < |it.list.contents| && kv == it.list.contents[it.pos]
  {
    hide LinkedList.Valid;
    IndexOfHasKey(it.list.contents, key);
    while true
      invariant it.Valid() && it.pos <= IndexOf(it.list.contents, key)
      decreases |it.list.contents| - it.pos
    {
      it.InRange();
      kv := it.GetPayload();
      if kv.key == key {
        return true, kv;
      }
      var moved := it.Next();
      if !moved {
        return false, kv;
      }
    }
  }

  method ReplaceUnder<T>(it: LLIter<T>, payload: T)
    requires it.Valid()
    modifies it, it.list.Repr
    ensures it.list.Valid() && fresh(it.list.Repr - old(it.list.Repr))
    ensures it.list.contents == [payload] + Without(old(it.list.contents), old(it.pos))
  {
    var _ := it.Delete();
    it.list.Push(payload);
  }

  lemma IndexOfHasKey<V>(s: seq<KeyValue<V>>, key: uint64)
    ensures HasKey(s, key) <==> IndexOf(s, key) < |s|
  {}
}
