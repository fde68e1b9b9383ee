/** The bucket chains of hw1/HashTable.c as values: what it means for them to hold a
    map, and how changing one chain changes the map. */
module Chains {

  const TWO32: nat := 0x1_0000_0000
  const TWO64: nat := 0x1_0000_0000_0000_0000

  newtype uint32 = x: int | 0 <= x < 0x1_0000_0000
  newtype uint64 = x: int | 0 <= x < 0x1_0000_0000_0000_0000

  /** HTKeyValue. */
  datatype KeyValue<+V> = KeyValue(key: uint64, value: V)

  /** HashKeyToBucketNum. */
  function Bucket(key: uint64, numBuckets: nat): (b: nat)
    requires numBuckets > 0
    ensures b < numBuckets
  {
    key as int % numBuckets
  }

  ghost predicate DistinctKeys<V>(s: seq<KeyValue<V>>) {
    forall i, j :: 0 <= i < j < |s| ==> s[i].key != s[j].key
  }

  /** The chains hold exactly the map m: every pair is in the bucket of its key, and no
      key occurs twice. */
  ghost predicate Holds<V>(chains: seq<seq<KeyValue<V>>>, m: map<uint64, V>) {
    && |chains| > 0
    && (forall i, e :: 0 <= i < |chains| && e in chains[i] ==>
         Bucket(e.key, |chains|) == i && e.key in m && m[e.key] == e.value)
    && (forall k :: k in m ==> KeyValue(k, m[k]) in chains[Bucket(k, |chains|)])
    && (forall i :: 0 <= i < |chains| ==> DistinctKeys(chains[i]))
  }

  /** Every pair is in the chain with the number of its key modulo the number of chains. */
  lemma InItsChain<V>(chains: seq<seq<KeyValue<V>>>, m: map<uint64, V>)
    requires Holds(chains, m)
    ensures forall i, e :: 0 <= i < |chains| && e in chains[i] ==> e.key as nat % |chains| == i
    ensures forall k :: k in m ==> KeyValue(k, m[k]) in chains[k as nat % |chains|]
  {}

  /** The pairs in iteration order: the chains one after the other. */
  ghost function Flatten<V>(chains: seq<seq<KeyValue<V>>>): seq<KeyValue<V>> {
    if chains == [] then [] else chains[0] + Flatten(chains[1..])
  }

  ghost function Keys<V>(s: seq<KeyValue<V>>): set<uint64> {
    set e | e in s :: e.key
  }

  ghost predicate HasKey<V>(s: seq<KeyValue<V>>, key: uint64) {
    exists i :: 0 <= i < |s| && s[i].key == key
  }

  ghost function Without<T>(s: seq<T>, p: nat): seq<T>
    requires p < |s|
  {
    s[..p] + s[p + 1..]
  }

  lemma WithoutKeepsDistinct<V>(s: seq<KeyValue<V>>, p: nat)
    requires p < |s| && DistinctKeys(s)
    ensures DistinctKeys(Without(s, p))
    ensures forall e :: e in Without(s, p) <==> e in s && e.key != s[p].key
  {}

  lemma KeyInItsChain<V>(chains: seq<seq<KeyValue<V>>>, m: map<uint64, V>, key: uint64)
    requires Holds(chains, m)
    ensures key in m <==> HasKey(chains[Bucket(key, |chains|)], key)
  {}

  lemma AddPair<V>(chains: seq<seq<KeyValue<V>>>, m: map<uint64, V>, kv: KeyValue<V>)
    requires Holds(chains, m) && kv.key !in m
    ensures var b := Bucket(kv.key, |chains|);
            Holds(chains[b := [kv] + chains[b]], m[kv.key := kv.value])
  {}

  lemma DropPair<V>(chains: seq<seq<KeyValue<V>>>, m: map<uint64, V>, b: nat, p: nat)
    requires Holds(chains, m) && b < |chains| && p < |chains[b]|
    ensures chains[b][p].key in m && Bucket(chains[b][p].key, |chains|) == b
    ensures m[chains[b][p].key] == chains[b][p].value
    ensures Holds(chains[b := Without(chains[b], p)], m - {chains[b][p].key})
  {
    assert chains[b][p] in chains[b];
    WithoutKeepsDistinct(chains[b], p);
  }

  lemma {:induction false} FlattenAppend<V>(a: seq<seq<KeyValue<V>>>, b: seq<seq<KeyValue<V>>>)
    ensures Flatten(a + b) == Flatten(a) + Flatten(b)
  {
    if a == [] {
      assert a + b == b;
    } else {
      assert (a + b)[1..] == a[1..] + b;
      FlattenAppend(a[1..], b);
    }
  }

  /** A chain in the middle: everything before it, the chain, everything after it. */
  lemma FlattenSplit<V>(chains: seq<seq<KeyValue<V>>>, b: nat)
    requires b < |chains|
    ensures Flatten(chains) == Flatten(chains[..b]) + (chains[b] + Flatten(chains[b + 1..]))
  {
    assert chains == chains[..b] + chains[b..];
    FlattenAppend(chains[..b], chains[b..]);
    assert chains[b..][1..] == chains[b + 1..];
  }

  lemma {:induction false} EmptyChains<V>(chains: seq<seq<KeyValue<V>>>)
    requires forall i :: 0 <= i < |chains| ==> chains[i] == []
    ensures Flatten(chains) == []
  {
    if chains != [] {
      EmptyChains(chains[1..]);
    }
  }

  lemma InFlatten<V>(chains: seq<seq<KeyValue<V>>>, e: KeyValue<V>)
    ensures e in Flatten(chains) <==> exists i :: 0 <= i < |chains| && e in chains[i]
  {
    hide Flatten;
    if e in Flatten(chains) {
      var _ := ChainOf(chains, e);
    }
    forall i | 0 <= i < |chains| && e in chains[i]
      ensures e in Flatten(chains)
    {
      FlattenSplit(chains, i);
    }
  }

  lemma {:induction false} ChainOf<V>(chains: seq<seq<KeyValue<V>>>, e: KeyValue<V>) returns (i: nat)
    requires e in Flatten(chains)
    ensures i < |chains| && e in chains[i]
  {
    i := 0;
    if e !in chains[0] {
      var k := ChainOf(chains[1..], e);
      i := k + 1;
    }
  }

  /** All the pairs of chains whose buckets are >= lo. */
  lemma {:induction false} FlattenDistinct<V>(chains: seq<seq<KeyValue<V>>>, lo: nat)
    requires lo <= |chains| && |chains| > 0
    requires forall i, e :: 0 <= i < |chains| && e in chains[i] ==> Bucket(e.key, |chains|) == i
    requires forall i :: 0 <= i < |chains| ==> DistinctKeys(chains[i])
    ensures DistinctKeys(Flatten(chains[lo..]))
    decreases |chains| - lo
  {
    if lo < |chains| {
      FlattenDistinct(chains, lo + 1);
      var rest := Flatten(chains[lo + 1..]);
      assert chains[lo..][1..] == chains[lo + 1..];
      forall i, j | 0 <= i < |chains[lo]| && 0 <= j < |rest|
        ensures chains[lo][i].key != rest[j].key
      {
        assert chains[lo][i] in chains[lo];
        InFlatten(chains[lo + 1..], rest[j]);
        var k :| 0 <= k < |chains[lo + 1..]| && rest[j] in chains[lo + 1..][k];
        assert rest[j] in chains[lo + 1 + k];
      }
    }
  }

  lemma {:induction false} DistinctCount<V>(s: seq<KeyValue<V>>)
    requires DistinctKeys(s)
    ensures |Keys(s)| == |s|
  {
    if s != [] {
      DistinctCount(s[1..]);
      assert s == [s[0]] + s[1..];
      assert Keys(s) == {s[0].key} + Keys(s[1..]);
      assert s[0].key !in Keys(s[1..]);
    }
  }

  lemma FlattenLists<V>(chains: seq<seq<KeyValue<V>>>, m: map<uint64, V>)
    requires Holds(chains, m)
    ensures Lists(Flatten(chains), m)
  {
    forall e | e in Flatten(chains)
      ensures e.key in m && m[e.key] == e.value
    {
      InFlatten(chains, e);
    }
    forall k | k in m
      ensures KeyValue(k, m[k]) in Flatten(chains)
    {
      InFlatten(chains, KeyValue(k, m[k]));
    }
    assert chains[0..] == chains;
    FlattenDistinct(chains, 0);
  }

  /** The sequence lists every pair of the map exactly once. */
  ghost predicate Lists<V>(s: seq<KeyValue<V>>, m: map<uint64, V>) {
    && DistinctKeys(s)
    && (forall e :: e in s ==> e.key in m && m[e.key] == e.value)
    && (forall k :: k in m ==> KeyValue(k, m[k]) in s)
  }

  lemma ListedCount<V>(s: seq<KeyValue<V>>, m: map<uint64, V>)
    requires Lists(s, m)
    ensures Keys(s) == m.Keys && |s| == |m|
  {
    forall k | k in m
      ensures k in Keys(s)
    {
      assert KeyValue(k, m[k]) in s;
    }
    DistinctCount(s);
    assert |m.Keys| == |m|;
  }

  /** The map listed by a sequence of pairs. */
  ghost function MapOf<V>(s: seq<KeyValue<V>>): map<uint64, V> {
    if s == [] then map[] else MapOf(s[..|s| - 1])[s[|s| - 1].key := s[|s| - 1].value]
  }

  lemma {:induction false} MapOfDistinct<V>(s: seq<KeyValue<V>>)
    requires DistinctKeys(s)
    ensures MapOf(s).Keys == Keys(s)
    ensures forall e :: e in s ==> e.key in MapOf(s) && MapOf(s)[e.key] == e.value
  {
    if s != [] {
      var t, l := s[..|s| - 1], s[|s| - 1];
      MapOfDistinct(t);
      assert s == t + [l];
      assert l.key !in Keys(t);
    }
  }

  lemma ListedMap<V>(s: seq<KeyValue<V>>, m: map<uint64, V>)
    requires Lists(s, m)
    ensures MapOf(s) == m
  {
    MapOfDistinct(s);
    ListedCount(s, m);
    forall k | k in m
      ensures MapOf(s)[k] == m[k]
    {
      assert KeyValue(k, m[k]) in s;
    }
  }
}
