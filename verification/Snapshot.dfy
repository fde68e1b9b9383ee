/** The hash tables of hw1 and hw2 as the chains that the index writer of hw3 walks through. */
module Snapshots {
  import opened Chains
  import opened Fnv
  import opened Layouts
  import opened LinkedLists
  import opened HashTables
  import opened DocTableReaders
  import opened IndexTableReaders
  import opened DocIDTableReaders
  import opened MemIndexes
  import opened FileIndexWriters
  import opened IndexRoundTrips

  /** The walk of an iterator over a list. */
  method ListValues<T>(l: LinkedList<T>) returns (s: seq<T>)
    requires l.Valid()
    ensures s == l.contents
  {
    hide LinkedList.Valid, LLIter.Valid;
    var n := l.NumElements();
    if n == 0 {
      return [];
    }
    var it := new LLIter(l, false);
    it.InRange();
    var payload := it.GetPayload();
    s := [payload];
    var i := 1;
    while i < n
      invariant 1 <= i <= n && fresh(it) && it.Valid() && it.list == l && it.pos == i - 1 && s == l.contents[..i]
    {
      var _ := it.Next();
      payload := it.GetPayload();
      s := s + [payload];
      i := i + 1;
    }
    assert l.contents[..n] == l.contents;
  }

  /** The walk over the buckets of a table. */
  method TableChains<V>(ht: HashTable<V>) returns (chains: seq<seq<KeyValue<V>>>)
    requires ht.Valid()
    ensures chains == ht.chains
  {
    hide HashTable.Valid, LinkedList.Valid, Lists, HashTable.Items;
    chains := [];
    ht.ItemsListMap();
    var i := 0;
    while i < ht.numBuckets
      invariant i <= ht.numBuckets == |ht.chains| && chains == ht.chains[..i]
    {
      ht.ChainAt(i);
      var chain := ListValues(ht.buckets[i]);
      chains := chains + [chain];
      i := i + 1;
    }
    assert ht.chains[..i] == ht.chains;
  }

  // ---- Document names ----

  function NameSlots(chains: seq<seq<KeyValue<Image>>>): (t: seq<Slots>)
    ensures |t| == |chains|
  {
    seq(|chains|, i requires 0 <= i < |chains| => NameBucket(chains[i]))
  }

  function NameBucket(chain: seq<KeyValue<Image>>): (b: Slots)
    ensures |b.entries| == |chain|
  {
    Slots(seq(|chain|, j requires 0 <= j < |chain| => Name(chain[j].key, chain[j].value)))
  }

  lemma NamesHeld(chains: seq<seq<KeyValue<Image>>>, names: Names)
    requires Holds(chains, names)
    ensures NameTable(NameSlots(chains), names)
  {
    hide Bucket;
    var t := NameSlots(chains);
    forall i, j | 0 <= i < |t| && 0 <= j < |t[i].entries|
      ensures NameEntry(t[i].entries[j], names, i, |t|)
    {
      assert chains[i][j] in chains[i];
    }
    forall d | d in names
      ensures exists j :: 0 <= j < |t[Bucket(d, |t|)].entries| && t[Bucket(d, |t|)].entries[j] == Name(d, names[d])
    {
      var i := BucketInRange(d, |t|);
      assert KeyValue(d, names[d]) in chains[i];
      var j :| 0 <= j < |chains[i]| && chains[i][j] == KeyValue(d, names[d]);
      assert t[i].entries[j] == Name(d, names[d]);
    }
  }

  // ---- Position lists ----

  ghost function PostingSlots(chains: seq<seq<KeyValue<LinkedList<uint32>>>>, d: Postings): (t: seq<Slots>)
    ensures |t| == |chains|
  {
    seq(|chains|, i requires 0 <= i < |chains| => PostingBucket(chains[i], d))
  }

  ghost function PostingBucket(chain: seq<KeyValue<LinkedList<uint32>>>, d: Postings): (b: Slots)
    ensures |b.entries| == |chain|
  {
    Slots(seq(|chain|, j requires 0 <= j < |chain| =>
      Posting(chain[j].key, if chain[j].key in d then d[chain[j].key] else [])))
  }

  /** The same chains with the contents of the lists hold the same keys. */
  lemma PostingsHeld(chains: seq<seq<KeyValue<LinkedList<uint32>>>>, m: map<uint64, LinkedList<uint32>>, d: Postings)
    requires Holds(chains, m) && m.Keys == d.Keys
    ensures PostingTable(PostingSlots(chains, d), d)
  {
    hide Bucket;
    var t := PostingSlots(chains, d);
    var held := PostingChains(t);
    forall i | 0 <= i < |chains|
      ensures |held[i]| == |chains[i]|
      ensures forall j :: 0 <= j < |chains[i]| ==> held[i][j] == KeyValue(chains[i][j].key, d[chains[i][j].key])
    {
      assert forall j :: 0 <= j < |chains[i]| ==> chains[i][j] in chains[i];
    }
    SameKeysHeld(chains, m, held, d);
  }

  lemma SameKeysHeld<V, W>(chains: seq<seq<KeyValue<V>>>, m: map<uint64, V>, held: seq<seq<KeyValue<W>>>, d: map<uint64, W>)
    requires Holds(chains, m) && m.Keys == d.Keys && |held| == |chains|
    requires forall i :: 0 <= i < |chains| ==> |held[i]| == |chains[i]|
    requires forall i, j :: 0 <= i < |chains| && 0 <= j < |chains[i]| ==>
      chains[i][j].key in d && held[i][j] == KeyValue(chains[i][j].key, d[chains[i][j].key])
    ensures Holds(held, d)
  {
    hide Bucket;
    assert held != [];
    SameKeysKept(chains, m, held, d);
    forall i, e | 0 <= i < |held| && e in held[i]
      ensures Bucket(e.key, |held|) == i && e.key in d && d[e.key] == e.value
    {
      var j :| 0 <= j < |held[i]| && held[i][j] == e;
      KeyHeld(chains, m, i, j);
    }
  }

  lemma KeyHeld<V>(chains: seq<seq<KeyValue<V>>>, m: map<uint64, V>, i: nat, j: nat)
    requires Holds(chains, m) && i < |chains| && j < |chains[i]|
    ensures Bucket(chains[i][j].key, |chains|) == i && chains[i][j].key in m
  {
    hide Bucket;
    assert chains[i][j] in chains[i];
  }

  lemma SameKeysKept<V, W>(chains: seq<seq<KeyValue<V>>>, m: map<uint64, V>, held: seq<seq<KeyValue<W>>>, d: map<uint64, W>)
    requires Holds(chains, m) && m.Keys == d.Keys && |held| == |chains|
    requires forall i :: 0 <= i < |chains| ==> |held[i]| == |chains[i]|
    requires forall i, j :: 0 <= i < |chains| && 0 <= j < |chains[i]| ==>
      chains[i][j].key in d && held[i][j] == KeyValue(chains[i][j].key, d[chains[i][j].key])
    ensures forall k :: k in d ==> KeyValue(k, d[k]) in held[Bucket(k, |held|)]
  {
    hide Bucket;
    forall k | k in d
      ensures KeyValue(k, d[k]) in held[Bucket(k, |held|)]
    {
      var i := BucketInRange(k, |held|);
      assert KeyValue(k, m[k]) in chains[i];
      var j :| 0 <= j < |chains[i]| && chains[i][j] == KeyValue(k, m[k]);
      assert held[i][j] == KeyValue(k, d[k]);
    }
  }

  method TakePostings(docIDs: HashTable<LinkedList<uint32>>, ghost d: Postings, ghost lists: set<object>) returns (t: seq<Slots>)
    requires PostingsLinked(docIDs, d, lists)
    ensures t == PostingSlots(docIDs.chains, d) && PostingTable(t, d)
  {
    hide LinkedList.Valid, PostingTable, HashTable.Valid, PostingSlots;
    HeldByTable(docIDs, d, lists);
    var chains := TableChains(docIDs);
    t := [];
    var i := 0;
    while i < |chains|
      invariant i <= |chains| && |t| == i && forall k :: 0 <= k < i ==> t[k] == PostingBucket(chains[k], d)
    {
      var b := TakeBucket(chains[i], docIDs, d, lists);
      t := t + [b];
      i := i + 1;
    }
    AllBuckets(chains, d, t);
  }

  lemma AllBuckets(chains: seq<seq<KeyValue<LinkedList<uint32>>>>, d: Postings, t: seq<Slots>)
    requires |t| == |chains| && forall k :: 0 <= k < |t| ==> t[k] == PostingBucket(chains[k], d)
    ensures t == PostingSlots(chains, d)
  {
    hide PostingBucket;
  }

  lemma HeldByTable(docIDs: HashTable<LinkedList<uint32>>, d: Postings, lists: set<object>)
    requires PostingsLinked(docIDs, d, lists)
    ensures docIDs.Valid() && PostingTable(PostingSlots(docIDs.chains, d), d)
    ensures forall i, e :: 0 <= i < |docIDs.chains| && e in docIDs.chains[i] ==> e.key in docIDs.m && docIDs.m[e.key] == e.value
  {
    hide LinkedList.Valid, PostingTable, HashTable.Shape, Bucket;
    PostingsHeld(docIDs.chains, docIDs.m, d);
  }

  method TakeBucket(chain: seq<KeyValue<LinkedList<uint32>>>, docIDs: HashTable<LinkedList<uint32>>, ghost d: Postings, ghost lists: set<object>)
    returns (b: Slots)
    requires PostingsLinked(docIDs, d, lists)
    requires forall e :: e in chain ==> e.key in docIDs.m && docIDs.m[e.key] == e.value
    ensures b == PostingBucket(chain, d)
  {
    hide LinkedList.Valid, HashTable.Valid;
    var entries := [];
    var j := 0;
    while j < |chain|
      invariant j <= |chain| && |entries| == j
      invariant forall k :: 0 <= k < j ==> entries[k] == PostingBucket(chain, d).entries[k]
    {
      assert chain[j] in chain;
      var positions := ListValues(chain[j].value);
      entries := entries + [Posting(chain[j].key, positions)];
      j := j + 1;
    }
    b := Slots(entries);
    assert entries == PostingBucket(chain, d).entries;
  }

  // ---- Words ----

  ghost function WordOf(e: KeyValue<WordDocSet>, index: Index): Entry
    reads e.value.docIDs
  {
    Word(e.value.word, PostingSlots(e.value.docIDs.chains, if e.key in index then index[e.key] else map[]))
  }

  /** The nested tables of one bucket. */
  ghost function Nested(chain: seq<KeyValue<WordDocSet>>): set<object> {
    set j | 0 <= j < |chain| :: chain[j].value.docIDs
  }

  ghost function WordBucket(chain: seq<KeyValue<WordDocSet>>, index: Index): (b: Slots)
    reads Nested(chain)
    ensures |b.entries| == |chain|
  {
    Slots(seq(|chain|, j requires 0 <= j < |chain| reads Nested(chain) => WordOf(chain[j], index)))
  }

  /** The chains of the index, every nested table with its own. */
  ghost function WordSlots(chains: seq<seq<KeyValue<WordDocSet>>>, index: Index): (t: seq<Slots>)
    reads set i, o | 0 <= i < |chains| && o in Nested(chains[i]) :: o
    ensures |t| == |chains|
  {
    seq(|chains|, i requires 0 <= i < |chains| reads (if 0 <= i < |chains| then Nested(chains[i]) else {}) =>
      WordBucket(chains[i], index))
  }

  /** The index by the spelling of its words. */
  ghost function ByWord(index: Index, spelling: map<uint64, seq<byte>>): WordIndex {
    map w | w in spelling.Values && Hash(w) in index :: index[Hash(w)]
  }

  lemma SpelledWords(m: map<uint64, WordDocSet>, index: Index, spelling: map<uint64, seq<byte>>, w: Image)
    requires Spelled(m, spelling) && index.Keys == m.Keys
    ensures w in ByWord(index, spelling) <==> Hash(w) in m && m[Hash(w)].word == w
    ensures w in ByWord(index, spelling) ==> ByWord(index, spelling)[w] == index[Hash(w)]
  {
    hide Hash;
    if Hash(w) in m && m[Hash(w)].word == w {
      assert spelling[Hash(w)] == w;
      assert w in spelling.Values;
    }
  }

  ghost predicate IsBucket(b: Slots, chain: seq<KeyValue<WordDocSet>>, index: Index)
    reads Nested(chain)
  {
    |b.entries| == |chain| && forall j :: 0 <= j < |chain| ==> b.entries[j] == WordOf(chain[j], index)
  }

  method TakeWords(mi: MemIndex) returns (t: seq<Slots>)
    requires mi.Valid()
    ensures t == WordSlots(mi.table.chains, mi.index) && WordTable(t, ByWord(mi.index, mi.spelling))
  {
    hide MemIndex.Valid, MemIndex.Linked, HashTable.Valid, WordBucket, WordSlots, WordTable, ByWord, Spelled;
    WordChains(mi);
    var chains := TableChains(mi.table);
    t := [];
    var i := 0;
    while i < |chains|
      invariant i <= |chains| && |t| == i && forall k :: 0 <= k < i ==> IsBucket(t[k], chains[k], mi.index)
    {
      var b := TakeWordBucket(chains[i], mi);
      t := t + [b];
      i := i + 1;
    }
    AllWordBuckets(chains, mi.index, t);
    WordsHeld(mi);
  }

  lemma AllWordBuckets(chains: seq<seq<KeyValue<WordDocSet>>>, index: Index, t: seq<Slots>)
    requires |t| == |chains| && forall k :: 0 <= k < |t| ==> IsBucket(t[k], chains[k], index)
    ensures t == WordSlots(chains, index)
  {
    hide WordOf;
    forall k | 0 <= k < |t|
      ensures t[k] == WordBucket(chains[k], index)
    {
      assert t[k].entries == WordBucket(chains[k], index).entries;
    }
  }

  lemma WordChains(mi: MemIndex)
    requires mi.Valid()
    ensures mi.Linked() && mi.table.Valid() && mi.index.Keys == mi.table.m.Keys && Spelled(mi.table.m, mi.spelling)
    ensures |mi.table.chains| > 0 && Holds(mi.table.chains, mi.table.m)
    ensures forall i, e :: 0 <= i < |mi.table.chains| && e in mi.table.chains[i] ==> e.key in mi.table.m && mi.table.m[e.key] == e.value
  {
    hide MemIndex.Linked, HashTable.Shape, Bucket, Spelled;
    mi.Parts();
  }

  method TakeWordBucket(chain: seq<KeyValue<WordDocSet>>, mi: MemIndex) returns (b: Slots)
    requires mi.Linked() && forall e :: e in chain ==> e.key in mi.table.m && mi.table.m[e.key] == e.value
    ensures IsBucket(b, chain, mi.index)
  {
    hide MemIndex.Linked, HashTable.Valid, PostingSlots, PostingTable, PostingsLinked, Spelled;
    mi.Parts();
    var entries := [];
    var j := 0;
    while j < |chain|
      invariant j <= |chain| && |entries| == j
      invariant forall k :: 0 <= k < j ==> entries[k] == WordOf(chain[k], mi.index)
    {
      assert chain[j] in chain;
      mi.WordTable(chain[j].key);
      var docs := TakePostings(chain[j].value.docIDs, mi.index[chain[j].key], mi.lists);
      entries := entries + [Word(chain[j].value.word, docs)];
      j := j + 1;
    }
    b := Slots(entries);
  }

  /** The chains of a well formed index are a table of its words. */
  lemma WordsHeld(mi: MemIndex)
    requires mi.Valid()
    ensures WordTable(WordSlots(mi.table.chains, mi.index), ByWord(mi.index, mi.spelling))
  {
    hide MemIndex.Valid, MemIndex.Linked, HashTable.Valid, PostingSlots, PostingTable, PostingsLinked, Spelled, ByWord, Hash, Bucket;
    WordChains(mi);
    var chains, m, words := mi.table.chains, mi.table.m, ByWord(mi.index, mi.spelling);
    var t := WordSlots(chains, mi.index);
    forall i, j | 0 <= i < |t| && 0 <= j < |t[i].entries|
      ensures WordEntry(t[i].entries[j], words, i, |t|)
    {
      assert chains[i][j] in chains[i];
      WordHeld(mi, chains[i][j]);
    }
    forall w | w in words
      ensures HoldsSpelling(t[Bucket(Hash(w), |t|)], w)
    {
      SpelledWords(m, mi.index, mi.spelling, w);
      var i := BucketInRange(Hash(w), |t|);
      assert KeyValue(Hash(w), m[Hash(w)]) in chains[i];
      var j :| 0 <= j < |chains[i]| && chains[i][j] == KeyValue(Hash(w), m[Hash(w)]);
      assert t[i].entries[j].word == w;
    }
  }

  lemma WordHeld(mi: MemIndex, e: KeyValue<WordDocSet>)
    requires mi.Valid() && e.key in mi.table.m && mi.table.m[e.key] == e.value && e.key in mi.index
    ensures var words, w := ByWord(mi.index, mi.spelling), WordOf(e, mi.index);
      && w.word in words && Hash(w.word) == e.key && PostingTable(w.docs, words[w.word])
  {
    hide MemIndex.Linked, HashTable.Valid, PostingSlots, PostingTable, PostingsLinked, ByWord, Hash;
    mi.Parts();
    mi.WordTable(e.key);
    HeldByTable(e.value.docIDs, mi.index[e.key], mi.lists);
    SpelledWords(mi.table.m, mi.index, mi.spelling, e.value.word);
  }
}
