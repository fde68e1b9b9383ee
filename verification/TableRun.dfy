/** Whole runs of the hash table of hw1/HashTable.c. */
module TableRuns {
  import opened Chains
  import opened LinkedLists
  import opened HashTables

  datatype Operation<V> = Insert(kv: KeyValue<V>) | Lookup(key: uint64) | Remove(key: uint64)

  /** A return code and the pair handed back, if any. */
  datatype Outcome<V> = Outcome(code: int, pair: Option<KeyValue<V>>)

  function PairOf<V>(m: map<uint64, V>, key: uint64): Option<KeyValue<V>> {
    if key in m then Some(KeyValue(key, m[key])) else None
  }

  /** What an operation answers on a map ... */
  function Answer<V>(m: map<uint64, V>, op: Operation<V>): Outcome<V> {
    match op
    case Insert(kv) => Outcome(if kv.key in m then 2 else 1, PairOf(m, kv.key))
    case Lookup(key) => Outcome(if key in m then 1 else 0, PairOf(m, key))
    case Remove(key) => Outcome(if key in m then 1 else 0, PairOf(m, key))
  }

  /** ... and what it leaves. */
  function After<V>(m: map<uint64, V>, op: Operation<V>): map<uint64, V> {
    match op
    case Insert(kv) => m[kv.key := kv.value]
    case Lookup(_) => m
    case Remove(key) => m - {key}
  }

  function Answers<V>(m: map<uint64, V>, ops: seq<Operation<V>>): seq<Outcome<V>>
    decreases |ops|
  {
    if ops == [] then [] else [Answer(m, ops[0])] + Answers(After(m, ops[0]), ops[1..])
  }

  function AfterAll<V>(m: map<uint64, V>, ops: seq<Operation<V>>): map<uint64, V>
    decreases |ops|
  {
    if ops == [] then m else AfterAll(After(m, ops[0]), ops[1..])
  }

  lemma OneLarger<V>(m: map<uint64, V>, op: Operation<V>)
    ensures |After(m, op)| <= |m| + 1
  {
    match op
    case Insert(kv) => assert m[kv.key := kv.value].Keys == m.Keys + {kv.key};
    case Lookup(_) =>
    case Remove(key) => assert (m - {key}).Keys == m.Keys - {key};
  }

  method Perform<V>(ht: HashTable<V>, op: Operation<V>) returns (r: Outcome<V>)
    requires ht.Valid() && ht.numElements + 1 < TWO32
    modifies ht.Repr
    ensures ht.Valid() && fresh(ht.Repr - old(ht.Repr))
    ensures r == Answer(old(ht.m), op) && ht.m == After(old(ht.m), op)
    ensures old(ht.WellLoaded() && ht.NoOverflow()) ==> ht.WellLoaded()
  {
    hide HashTable.Valid;
    var code, pair;
    ht.InTable();
    ht.SizeBound();
    OneLarger(ht.m, op);
    match op {
      case Insert(kv) =>
        code, pair := ht.Insert(kv);
      case Lookup(key) =>
        code, pair := ht.Lookup(key);
      case Remove(key) =>
        ht.ChainInTable(key);
        code, pair := ht.Remove(key);
    }
    ht.SizeBound();
    r := Outcome(code, pair);
  }

  /** Every run from a fresh table, through any number of resizes, answers like a map and ends with
      a table that lists exactly that map. Unless a bucket count can overflow, the load factor is kept. */
  method RunAll<V>(numBuckets: nat, ops: seq<Operation<V>>) returns (ht: HashTable<V>, outcomes: seq<Outcome<V>>)
    requires 0 < numBuckets < TWO32 && |ops| < TWO32
    ensures fresh(ht) && ht.Valid() && outcomes == Answers(map[], ops) && ht.m == AfterAll(map[], ops)
    ensures Lists(ht.Items(), AfterAll(map[], ops)) && ht.numElements == |AfterAll(map[], ops)|
    ensures 3 * numBuckets < TWO32 && 9 * |ops| < TWO32 ==> ht.numElements <= 3 * ht.numBuckets
  {
    hide HashTable.Valid, HashTable.Items, Lists, Answer, After;
    ht := new HashTable<V>(numBuckets);
    outcomes := [];
    var i := 0;
    assert ops[0..] == ops;
    while i < |ops|
      invariant i <= |ops| && ht.Valid() && fresh(ht) && fresh(ht.Repr) && |ht.m| <= i
      invariant outcomes + Answers(ht.m, ops[i..]) == Answers(map[], ops)
      invariant AfterAll(ht.m, ops[i..]) == AfterAll(map[], ops)
      invariant 3 * numBuckets < TWO32 && 9 * |ops| < TWO32 ==> ht.WellLoaded()
    {
      ht.SizeBound();
      OneLarger(ht.m, ops[i]);
      assert ops[i..][1..] == ops[i + 1..];
      var r := Perform(ht, ops[i]);
      outcomes := outcomes + [r];
      i := i + 1;
    }
    ht.SizeBound();
    ht.ItemsListMap();
  }
}
