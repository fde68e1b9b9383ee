/** HandleFile of hw2/filecrawler.c: one file is parsed, registered and moved into the index. */
module FileCrawlers {
  import opened Chains
  import opened LinkedLists
  import opened HashTables
  import opened Fnv
  import opened Words
  import opened FileParsers
  import opened MemIndexes
  import D = DocTables

  type Postings = map<uint64, seq<uint32>>

  /** The postings of one word after the words of a document were added. */
  ghost function WordAfter(index: Index, words: WordMap, docid: uint64, h: uint64): Postings {
    var before: Postings := if h in index then index[h] else map[];
    if h in words then before[docid := words[h].positions] else before
  }

  /** The index with all the words of one document added. */
  ghost function WithDocument(index: Index, words: WordMap, docid: uint64): Index {
    map h | h in index.Keys + words.Keys :: WordAfter(index, words, docid, h)
  }

  /** Moving one word over leaves the index that is being built the same. */
  lemma MoveWord(index: Index, words: WordMap, docid: uint64, h: uint64)
    requires h in words
    ensures WithDocument(WithPosting(index, h, docid, words[h].positions), words - {h}, docid)
         == WithDocument(index, words, docid)
  {}

  lemma NothingToMove(index: Index, docid: uint64)
    ensures WithDocument(index, map[], docid) == index && NewDocument(index, map[], docid)
  {}

  type Spellings = map<uint64, seq<byte>>

  /** The spellings with those of one more document: the first spelling under a hash stays. */
  ghost function WithSpellings(spelling: Spellings, words: WordMap): Spellings {
    map h | h in spelling.Keys + words.Keys :: if h in spelling then spelling[h] else words[h].word
  }

  lemma MoveSpelling(spelling: Spellings, words: WordMap, h: uint64)
    requires h in words
    ensures WithSpellings(if h in spelling then spelling else spelling[h := words[h].word], words - {h})
         == WithSpellings(spelling, words)
  {}

  lemma NoSpellingToMove(spelling: Spellings)
    ensures WithSpellings(spelling, map[]) == spelling
  {}

  /** No word of the file is indexed for the document yet. */
  ghost predicate NewDocument(index: Index, words: WordMap, docid: uint64) {
    forall h :: h in words && h in index ==> docid !in index[h]
  }

  /** No element count exceeds HWSize_t when the words are added. */
  ghost predicate Small(index: Index, words: WordMap) {
    && |index| + |words| < TWO32
    && forall h :: h in words && h in index ==> |index[h]| + 1 < TWO32
  }

  /** Every entry is filed under the hash of its word. */
  ghost predicate FiledByHash(words: WordMap) {
    forall h :: h in words ==> Hash(words[h].word) == h
  }

  /** The loop of HandleFile over the word table. It ignores what HTIteratorDelete returns; that
      never fails, the table ends up empty, and every list has a new owner. */
  method MoveWords(tab: WordTable, index: MemIndex, docid: uint64) returns (stopped: bool)
    requires tab.Valid() && index.Valid() && tab.Repr !! index.Repr
    requires FiledByHash(tab.words) && Small(index.index, tab.words)
    modifies tab.Repr, index.Repr
    ensures stopped == !old(NewDocument(index.index, tab.words, docid))
    ensures index.Valid() && tab.Valid() && fresh(index.Repr - old(index.Repr) - old(tab.Repr))
    ensures !stopped ==> tab.words == map[] && index.index == WithDocument(old(index.index), old(tab.words), docid)
    ensures !stopped ==> index.spelling == WithSpellings(old(index.spelling), old(tab.words))
  {
    hide WordTable.Valid, MemIndex.Valid, HTIter.Valid, HTIter.Remaining, HashTable.Valid, HashTable.Items,
      WithDocument, WithSpellings, FiledByHash, NewDocument, Small, Hash;
    tab.Parts();
    var it := new HTIter(tab.tab);
    var n := tab.NumWords();
    while n > 0
      invariant tab.Valid() && index.Valid() && tab.Repr !! index.Repr && n == |tab.words| && (n == 0 <==> tab.words == map[])
      invariant fresh(tab.Repr - old(tab.Repr)) && fresh(index.Repr - old(index.Repr) - old(tab.Repr))
      invariant AtStart(it, tab) && fresh(it) && (it.bucketIt != null ==> fresh(it.bucketIt))
      invariant {it, it.bucketIt} !! index.Repr && {it, it.bucketIt} !! tab.Repr
      invariant FiledByHash(tab.words) && Small(index.index, tab.words)
      invariant NewDocument(index.index, tab.words, docid) == old(NewDocument(index.index, tab.words, docid))
      invariant WithDocument(index.index, tab.words, docid) == WithDocument(old(index.index), old(tab.words), docid)
      invariant WithSpellings(index.spelling, tab.words) == WithSpellings(old(index.spelling), old(tab.words))
    {
      var stops := MoveNext(it, tab, index, docid);
      if stops {
        return true;
      }
      n := tab.NumWords();
    }
    NothingToMove(index.index, docid);
    NoSpellingToMove(index.spelling);
    return false;
  }

  /** The iterator stands on the first pair of the table. */
  ghost predicate AtStart(it: HTIter<WordPositions>, tab: WordTable)
    reads it, it.ht, it.ht.Repr, it.bucketIt, tab
  {
    it.Valid() && it.ht == tab.tab && it.Remaining() == tab.tab.Items()
  }

  /** HTIteratorDelete at the first pair: it leaves the table, and the iterator is at the first pair again. */
  method TakePair<V>(it: HTIter<V>) returns (pair: KeyValue<V>)
    requires it.Valid() && it.ht.Valid() && it.Remaining() == it.ht.Items() && it.ht.m != map[]
    modifies it, it.bucketIt, it.ht.Repr
    ensures it.Valid() && it.ht.Valid() && it.Remaining() == it.ht.Items() && it.ht.Repr == old(it.ht.Repr)
    ensures pair.key in old(it.ht.m) && pair.value == old(it.ht.m)[pair.key] && it.ht.m == old(it.ht.m) - {pair.key}
    ensures it.bucketIt == old(it.bucketIt) || (it.bucketIt != null && fresh(it.bucketIt))
  {
    hide HashTable.Valid, HTIter.Valid, HTIter.Remaining, HashTable.Items;
    it.ht.ItemsListMap();
    var res, kv := it.Delete();
    pair := kv.value;
  }

  /** Deleting from a fresh iterator until the table is empty yields every pair exactly once. */
  method Drain<V>(ht: HashTable<V>) returns (pairs: seq<KeyValue<V>>)
    requires ht.Valid()
    modifies ht.Repr
    ensures ht.Valid() && ht.m == map[] && Lists(pairs, old(ht.m))
  {
    hide HashTable.Valid, HTIter.Valid, HTIter.Remaining, HashTable.Items, Lists;
    var it := new HTIter(ht);
    pairs := [];
    NothingTaken(ht.m);
    ht.SizeBound();
    while ht.numElements > 0
      invariant ht.Valid() && ht.Repr == old(ht.Repr) && it.Valid() && it.ht == ht && it.Remaining() == ht.Items()
      invariant fresh(it) && (it.bucketIt != null ==> fresh(it.bucketIt))
      invariant ht.numElements == |ht.m| && Taken(pairs, ht.m, old(ht.m))
      decreases |ht.m|
    {
      ghost var before := ht.m;
      var pair := TakePair(it);
      OneMoreTaken(pairs, pair, before, old(ht.m));
      pairs := pairs + [pair];
      ht.SizeBound();
    }
    AllTaken(pairs, ht.m, old(ht.m));
  }

  /** The pairs taken so far and the map that is left make up the whole map. */
  ghost predicate Taken<V>(pairs: seq<KeyValue<V>>, left: map<uint64, V>, all: map<uint64, V>) {
    && DistinctKeys(pairs)
    && (forall e :: e in pairs ==> e.key in all && all[e.key] == e.value && e.key !in left)
    && (forall k :: k in all ==> if k in left then left[k] == all[k] else KeyValue(k, all[k]) in pairs)
    && left.Keys <= all.Keys
  }

  lemma NothingTaken<V>(m: map<uint64, V>)
    ensures Taken([], m, m)
  {}

  lemma OneMoreTaken<V>(pairs: seq<KeyValue<V>>, pair: KeyValue<V>, left: map<uint64, V>, all: map<uint64, V>)
    requires Taken(pairs, left, all) && pair.key in left && left[pair.key] == pair.value
    ensures Taken(pairs + [pair], left - {pair.key}, all) && |left - {pair.key}| < |left|
  {}

  lemma AllTaken<V>(pairs: seq<KeyValue<V>>, left: map<uint64, V>, all: map<uint64, V>)
    requires Taken(pairs, left, all) && |left| == 0
    ensures left == map[] && Lists(pairs, all)
  {}

  /** HTIteratorDelete on the word table: one entry leaves it, and its list changes owner. */
  method TakeWord(it: HTIter<WordPositions>, tab: WordTable) returns (h: uint64, wp: WordPositions)
    requires tab.Valid() && tab.words != map[]
    requires AtStart(it, tab) && {it, it.bucketIt} !! tab.Repr
    modifies it, it.bucketIt, tab, tab.tab.Repr
    ensures tab.Valid() && tab.Repr <= old(tab.Repr)
    ensures h in old(tab.words) && tab.words == old(tab.words) - {h}
    ensures wp.word == old(tab.words)[h].word && wp.positions.contents == old(tab.words)[h].positions
    ensures wp.positions.Valid() && wp.positions.Repr <= old(tab.Repr) - tab.Repr
    ensures AtStart(it, tab) && (it.bucketIt == old(it.bucketIt) || (it.bucketIt != null && fresh(it.bucketIt)))
  {
    hide HashTable.Valid, LinkedList.Valid, HTIter.Valid, HTIter.Remaining, HashTable.Items, PositionsLinked;
    tab.Parts();
    assert tab.tab.m != map[];
    var pair := TakePair(it);
    h, wp := pair.key, pair.value;
    DropWord(old(tab.tab.m), tab.words, tab.lists, h);
    tab.words := tab.words - {h};
    tab.lists := tab.lists - wp.positions.Repr;
    tab.Repr := {tab} + tab.tab.Repr + tab.lists;
  }

  lemma DropWord(m: map<uint64, WordPositions>, words: WordMap, lists: set<object>, h: uint64)
    requires PositionsLinked(m, words, lists) && h in m
    ensures PositionsLinked(m - {h}, words - {h}, lists - m[h].positions.Repr)
    ensures m[h].word == words[h].word && ListLinked(m[h].positions, words[h].positions, lists)
  {
    hide LinkedList.Valid;
  }

  lemma StillNew(index: Index, words: WordMap, docid: uint64, h: uint64)
    requires FiledByHash(words) && Small(index, words) && h in words
    ensures FiledByHash(words - {h}) && Hash(words[h].word) == h
    ensures Small(WithPosting(index, h, docid, words[h].positions), words - {h})
  {
    hide Hash;
  }

  /** The words that are left are new exactly if they were, and h was. */
  lemma OneLessIsNew(index: Index, words: WordMap, docid: uint64, h: uint64, positions: seq<uint32>)
    requires h in words
    ensures NewDocument(index, words, docid) <==>
      (h in index ==> docid !in index[h]) && NewDocument(WithPosting(index, h, docid, positions), words - {h}, docid)
  {
    var rest, after := words - {h}, WithPosting(index, h, docid, positions);
    assert forall g :: g in rest <==> g in words && g != h;
    assert forall g :: g != h ==> (g in after <==> g in index) && (g in index ==> after[g] == index[g]);
  }

  lemma RoomFor(index: Index, words: WordMap, h: uint64)
    requires Small(index, words) && h in words
    ensures if h in index then |index[h]| + 1 < TWO32 else |index| + 1 < TWO32
  {
    assert words.Keys != {} && |words| == |words.Keys|;
  }

  lemma SameKeys(index: MemIndex)
    requires index.Valid()
    ensures index.index.Keys == index.spelling.Keys
  {
    hide MemIndex.Linked;
    index.Parts();
  }

  /** Everything one word less leaves as it was. */
  lemma OneMoved(index: Index, spelling: Spellings, words: WordMap, docid: uint64, h: uint64)
    requires FiledByHash(words) && Small(index, words) && h in words
    ensures var after, rest := WithPosting(index, h, docid, words[h].positions), words - {h};
      && WithDocument(after, rest, docid) == WithDocument(index, words, docid)
      && FiledByHash(rest) && Hash(words[h].word) == h && Small(after, rest) && |rest| < |words|
      && (NewDocument(index, words, docid) <==> (h in index ==> docid !in index[h]) && NewDocument(after, rest, docid))
    ensures WithSpellings(if h in spelling then spelling else spelling[h := words[h].word], words - {h})
         == WithSpellings(spelling, words)
    ensures if h in index then |index[h]| + 1 < TWO32 else |index| + 1 < TWO32
  {
    hide WithDocument, WithSpellings, WithPosting, FiledByHash, NewDocument, Small, Hash;
    MoveWord(index, words, docid, h);
    MoveSpelling(spelling, words, h);
    StillNew(index, words, docid, h);
    OneLessIsNew(index, words, docid, h, words[h].positions);
    RoomFor(index, words, h);
    assert words.Keys == (words - {h}).Keys + {h} && |words| == |words.Keys| && |words - {h}| == |(words - {h}).Keys|;
  }

  /** The loop body. */
  method MoveNext(it: HTIter<WordPositions>, tab: WordTable, index: MemIndex, docid: uint64) returns (stopped: bool)
    requires tab.Valid() && index.Valid() && tab.Repr !! index.Repr && tab.words != map[]
    requires AtStart(it, tab) && {it, it.bucketIt} !! index.Repr && {it, it.bucketIt} !! tab.Repr
    requires FiledByHash(tab.words) && Small(index.index, tab.words)
    modifies it, it.bucketIt, tab.Repr, index.Repr
    ensures stopped ==> !old(NewDocument(index.index, tab.words, docid))
    ensures tab.Valid() && index.Valid() && tab.Repr !! index.Repr && |tab.words| < |old(tab.words)|
    ensures tab.Repr <= old(tab.Repr) && fresh(index.Repr - old(index.Repr) - old(tab.Repr))
    ensures AtStart(it, tab) && (it.bucketIt == old(it.bucketIt) || (it.bucketIt != null && fresh(it.bucketIt)))
    ensures {it, it.bucketIt} !! index.Repr && {it, it.bucketIt} !! tab.Repr
    ensures !stopped ==> FiledByHash(tab.words) && Small(index.index, tab.words)
    ensures !stopped ==> NewDocument(index.index, tab.words, docid) == old(NewDocument(index.index, tab.words, docid))
    ensures !stopped ==> WithDocument(index.index, tab.words, docid) == WithDocument(old(index.index), old(tab.words), docid)
    ensures !stopped ==> WithSpellings(index.spelling, tab.words) == WithSpellings(old(index.spelling), old(tab.words))
  {
    hide WordTable.Valid, MemIndex.Valid, HTIter.Valid, HTIter.Remaining, HashTable.Valid,
      HashTable.Items, LinkedList.Valid, WithDocument, WithSpellings, WithPosting, FiledByHash, NewDocument, Small, Hash;
    tab.Parts();
    ghost var words := tab.words;
    var h, wp := TakeWord(it, tab);
    tab.Parts();
    stopped := AddWord(index, wp, docid, words, h);
  }

  /** The call of MIAddPostingList for the word filed under h, which the table has no more. */
  method AddWord(index: MemIndex, wp: WordPositions, docid: uint64, ghost words: WordMap, ghost h: uint64) returns (stopped: bool)
    requires index.Valid() && FiledByHash(words) && Small(index.index, words) && h in words
    requires wp.word == words[h].word && wp.positions.contents == words[h].positions
    requires wp.positions.Valid() && wp.positions.Repr !! index.Repr
    modifies index.Repr
    ensures |words - {h}| < |words|
    ensures stopped ==> !NewDocument(old(index.index), words, docid)
    ensures index.Valid() && fresh(index.Repr - old(index.Repr) - wp.positions.Repr)
    ensures !stopped ==> FiledByHash(words - {h}) && Small(index.index, words - {h})
    ensures !stopped ==> NewDocument(index.index, words - {h}, docid) == NewDocument(old(index.index), words, docid)
    ensures !stopped ==> WithDocument(index.index, words - {h}, docid) == WithDocument(old(index.index), words, docid)
    ensures !stopped ==> WithSpellings(index.spelling, words - {h}) == WithSpellings(old(index.spelling), words)
  {
    hide MemIndex.Valid, LinkedList.Valid, WithDocument, WithSpellings, WithPosting, FiledByHash, NewDocument, Small, Hash;
    SameKeys(index);
    OneMoved(index.index, index.spelling, words, docid, h);
    var res := index.AddPostingList(wp.word, docid, wp.positions);
    stopped := res == None;
  }

  // ---- Every file handled so far ----

  datatype Document = Document(name: seq<byte>, text: seq<byte>)

  /** The word table of a text. */
  ghost function WordsOf(text: seq<byte>): WordMap
    requires |text| < TWO32
  {
    RunsInside(text, |text|);
    RecordAll(text, Runs(text, |text|))
  }

  ghost predicate SizesFit(docs: seq<Document>) {
    |docs| < TWO32 && forall k :: 0 <= k < |docs| ==> |docs[k].text| < TWO32
  }

  /** The index of the documents with the ids 1, 2, ... */
  ghost function IndexOf(docs: seq<Document>): Index
    requires SizesFit(docs)
  {
    if docs == [] then map[]
    else
      var init, last := docs[..|docs| - 1], docs[|docs| - 1];
      WithDocument(IndexOf(init), WordsOf(last.text), |docs| as uint64)
  }

  /** The spelling an index keeps for a hash is that of the first document with it. */
  ghost function SpellingsOf(docs: seq<Document>): Spellings
    requires SizesFit(docs)
  {
    if docs == [] then map[] else WithSpellings(SpellingsOf(docs[..|docs| - 1]), WordsOf(docs[|docs| - 1].text))
  }

  ghost function NamesOf(docs: seq<Document>): seq<seq<byte>> {
    seq(|docs|, k requires 0 <= k < |docs| => docs[k].name)
  }

  /** What every call of HandleFile keeps. */
  ghost predicate Crawled(doctable: D.DocTable, index: MemIndex, docs: seq<Document>)
    reads doctable, doctable.Repr, index, index.Repr
  {
    && doctable.Valid() && index.Valid() && doctable.Repr !! index.Repr
    && SizesFit(docs) && doctable.names == NamesOf(docs) && index.index == IndexOf(docs) && index.spelling == SpellingsOf(docs)
  }

  /** BuildWordHT makes a table for the text. */
  ghost predicate Parsed(text: seq<byte>) {
    text != [] && Indexable(text) && Runs(text, |text|) != []
  }

  lemma WordsFiledByHash(text: seq<byte>)
    requires |text| < TWO32
    ensures FiledByHash(WordsOf(text))
  {
    hide Hash, RecordAll, Runs, Starts;
    forall h | h in WordsOf(text)
      ensures Hash(WordsOf(text)[h].word) == h
    {
      RunsInside(text, |text|);
      RecordedPositions(text, Runs(text, |text|), h);
    }
  }

  /** The index holds document d under a word hash exactly when its text does, with the same positions. */
  lemma {:induction false} IndexHolds(docs: seq<Document>, h: uint64, d: uint64)
    requires SizesFit(docs)
    ensures (h in IndexOf(docs) && d in IndexOf(docs)[h]) <==> 1 <= d as nat <= |docs| && h in WordsOf(docs[d as nat - 1].text)
    ensures h in IndexOf(docs) && d in IndexOf(docs)[h] ==>
      IndexOf(docs)[h][d] == WordsOf(docs[d as nat - 1].text)[h].positions
    decreases |docs|
  {
    hide WordsOf;
    if docs != [] {
      IndexHolds(docs[..|docs| - 1], h, d);
    }
  }

  lemma NextIsNew(docs: seq<Document>, text: seq<byte>)
    requires SizesFit(docs) && |docs| + 1 < TWO32 && |text| < TWO32
    ensures NewDocument(IndexOf(docs), WordsOf(text), (|docs| + 1) as uint64)
  {
    hide WordsOf, IndexOf;
    forall h | h in WordsOf(text) && h in IndexOf(docs)
      ensures (|docs| + 1) as uint64 !in IndexOf(docs)[h]
    {
      IndexHolds(docs, h, (|docs| + 1) as uint64);
    }
  }

  lemma OneMoreDocument(docs: seq<Document>, doc: Document)
    requires SizesFit(docs) && |docs| + 1 < TWO32 && |doc.text| < TWO32
    ensures SizesFit(docs + [doc]) && NamesOf(docs + [doc]) == NamesOf(docs) + [doc.name]
    ensures IndexOf(docs + [doc]) == WithDocument(IndexOf(docs), WordsOf(doc.text), (|docs| + 1) as uint64)
    ensures SpellingsOf(docs + [doc]) == WithSpellings(SpellingsOf(docs), WordsOf(doc.text))
  {
    hide WordsOf, WithDocument, WithSpellings, IndexOf, SpellingsOf, NamesOf, SizesFit;
    var all := docs + [doc];
    assert all[..|all| - 1] == docs && all[|all| - 1] == doc;
    StillFits(docs, doc);
    LastDocument(all);
    NamesAppend(docs, doc);
  }

  lemma StillFits(docs: seq<Document>, doc: Document)
    requires SizesFit(docs) && |docs| + 1 < TWO32 && |doc.text| < TWO32
    ensures SizesFit(docs + [doc])
  {}

  lemma NamesAppend(docs: seq<Document>, doc: Document)
    ensures NamesOf(docs + [doc]) == NamesOf(docs) + [doc.name]
  {}

  lemma LastDocument(docs: seq<Document>)
    requires SizesFit(docs) && docs != []
    ensures IndexOf(docs) == WithDocument(IndexOf(docs[..|docs| - 1]), WordsOf(docs[|docs| - 1].text), |docs| as uint64)
    ensures SpellingsOf(docs) == WithSpellings(SpellingsOf(docs[..|docs| - 1]), WordsOf(docs[|docs| - 1].text))
  {
    hide WordsOf, WithDocument, WithSpellings;
  }

  /** The id that registering a name gives. */
  ghost function IdFor(names: seq<seq<byte>>, name: seq<byte>): uint64
    requires |names| + 1 < TWO64
  {
    D.IdOf(D.Registered(names, name), Hash(name)) as uint64
  }

  /** HandleFile: a text that cannot be parsed changes nothing. Any other gets an id for its path
      and all its words moved into the index, unless the index already has one of them for that id:
      then the program stops. */
  method HandleFile(fpath: seq<byte>, filecontent: array<byte>, filelen: nat, doctable: D.DocTable, index: MemIndex)
    returns (ghost parsed: bool, stopped: bool)
    requires filecontent.Length == filelen + 1 && filecontent[filelen] == 0 && filecontent.Length < TWO32
    requires doctable.Valid() && index.Valid() && doctable.Repr !! index.Repr
    requires filecontent !in doctable.Repr && filecontent !in index.Repr && |doctable.names| + 1 < TWO32
    requires Parsed(filecontent[..filelen]) ==> Small(index.index, WordsOf(filecontent[..filelen]))
    modifies filecontent, doctable.Repr, index.Repr
    ensures doctable.Valid() && index.Valid() && doctable.Repr !! index.Repr
    ensures fresh(doctable.Repr - old(doctable.Repr)) && fresh(index.Repr - old(index.Repr))
    ensures parsed == Parsed(old(filecontent[..filelen]))
    ensures stopped == (parsed && !NewDocument(old(index.index), WordsOf(old(filecontent[..filelen])), IdFor(old(doctable.names), fpath)))
    ensures !parsed ==>
      doctable.names == old(doctable.names) && index.index == old(index.index) && index.spelling == old(index.spelling)
    ensures parsed && !stopped ==> var words, id := WordsOf(old(filecontent[..filelen])), IdFor(old(doctable.names), fpath);
      && doctable.names == D.Registered(old(doctable.names), fpath)
      && index.index == WithDocument(old(index.index), words, id)
      && index.spelling == WithSpellings(old(index.spelling), words)
  {
    hide WordTable.Valid, MemIndex.Valid, D.DocTable.Valid, WithDocument, WithSpellings, FiledByHash,
      NewDocument, Small, Hash, WordsOf, RecordAll, Runs, D.IdOf, D.Registered, Indexable;
    ghost var text := filecontent[..filelen];
    var tab := BuildWordHT(filecontent, filelen);
    if tab == null {
      return false, false;
    }
    SameWords(tab.words, text);
    FewIds(doctable.names, fpath);
    var docID := doctable.RegisterDocumentName(fpath);
    WordsFiledByHash(text);
    stopped := MoveWords(tab, index, docID as uint64);
    return true, stopped;
  }

  lemma FewIds(names: seq<seq<byte>>, name: seq<byte>)
    requires |names| + 1 < TWO64
    ensures D.IdOf(D.Registered(names, name), Hash(name)) <= |names| + 1
  {}

  lemma KeysApart(index: Index, before: WordMap, words: WordMap, id: uint64)
    requires forall h: uint64 :: h in before <==> h in index && id in index[h]
    ensures NewDocument(index, words, id) <==> before.Keys !! words.Keys
  {
    if before.Keys !! words.Keys {
      assert forall h :: h in words ==> h !in before.Keys;
    }
    if NewDocument(index, words, id) {
      assert forall h :: h in words ==> h !in before;
    }
  }

  /** A path that was handled before: the program stops unless the present text cannot be indexed or
      shares no word hash with the earlier one. */
  lemma HandledAgainIff(docs: seq<Document>, name: seq<byte>, text: seq<byte>, id: uint64)
    requires SizesFit(docs) && |text| < TWO32 && 1 <= id as nat <= |docs| && D.IdOf(NamesOf(docs), Hash(name)) == id as nat
    ensures IdFor(NamesOf(docs), name) == id
    ensures (Parsed(text) ==> NewDocument(IndexOf(docs), WordsOf(text), id)) <==>
      (!Indexable(text) || WordsOf(docs[id as nat - 1].text).Keys !! WordsOf(text).Keys)
  {
    hide WordsOf, IndexOf, NewDocument, Hash, D.IdOf, NamesOf, Indexable, Runs;
    var before, words := WordsOf(docs[id as nat - 1].text), WordsOf(text);
    forall h: uint64
      ensures h in before <==> h in IndexOf(docs) && id in IndexOf(docs)[h]
    {
      IndexHolds(docs, h, id);
    }
    KeysApart(IndexOf(docs), before, words, id);
    if Indexable(text) && !Parsed(text) {
      NoWordsIn(text);
    }
  }

  lemma NoWordsIn(text: seq<byte>)
    requires |text| < TWO32 && (text == [] || Runs(text, |text|) == [])
    ensures WordsOf(text) == map[]
  {
    hide Hash, Word;
  }

  /** A failing input: the same text again, under the same path. */
  lemma SameTextAgainStops(name: seq<byte>, text: seq<byte>)
    requires text == [97, 98, 32]
    ensures Parsed(text) && D.IdOf(NamesOf([Document(name, text)]), Hash(name)) == 1
    ensures !NewDocument(IndexOf([Document(name, text)]), WordsOf(text), 1)
  {
    hide Hash, WordsOf, IndexOf;
    var docs := [Document(name, text)];
    assert Runs(text, 0) == [] && Runs(text, 1) == [] && Runs(text, 2) == [];
    assert RunEndsAt(text, 2);
    assert Runs(text, 3) != [];
    assert NamesOf(docs) == [name];
    SomeWord(text);
    HandledAgainIff(docs, name, text, 1);
  }

  lemma SomeWord(text: seq<byte>)
    requires |text| < TWO32 && Runs(text, |text|) != []
    ensures WordsOf(text) != map[]
  {
    hide Hash, Word, Runs;
    RunsInside(text, |text|);
    NoWords(text, Runs(text, |text|));
  }

  /** A path that was not handled before never stops HandleFile, and its text becomes the next document. */
  method HandleNext(fpath: seq<byte>, filecontent: array<byte>, filelen: nat, doctable: D.DocTable, index: MemIndex,
                    ghost docs: seq<Document>)
    returns (ghost all: seq<Document>)
    requires filecontent.Length == filelen + 1 && filecontent[filelen] == 0 && filecontent.Length < TWO32
    requires Crawled(doctable, index, docs) && filecontent !in doctable.Repr && filecontent !in index.Repr
    requires |docs| + 1 < TWO32 && D.IdOf(doctable.names, Hash(fpath)) == 0
    requires Parsed(filecontent[..filelen]) ==> Small(index.index, WordsOf(filecontent[..filelen]))
    modifies filecontent, doctable.Repr, index.Repr
    ensures var text := old(filecontent[..filelen]);
      all == if Parsed(text) then docs + [Document(fpath, text)] else docs
    ensures Crawled(doctable, index, all)
    ensures fresh(doctable.Repr - old(doctable.Repr)) && fresh(index.Repr - old(index.Repr))
  {
    hide MemIndex.Valid, D.DocTable.Valid, WithDocument, WithSpellings, NewDocument, Small,
      Hash, WordsOf, IndexOf, SpellingsOf, D.IdOf, D.Registered, Parsed, NamesOf;
    ghost var text := filecontent[..filelen];
    NewName(docs, fpath);
    NextIsNew(docs, text);
    OneMoreDocument(docs, Document(fpath, text));
    ghost var parsed;
    var stopped;
    parsed, stopped := HandleFile(fpath, filecontent, filelen, doctable, index);
    assert !stopped;
    return if parsed then docs + [Document(fpath, text)] else docs;
  }

  lemma NewName(docs: seq<Document>, name: seq<byte>)
    requires D.IdOf(NamesOf(docs), Hash(name)) == 0
    ensures D.Registered(NamesOf(docs), name) == NamesOf(docs) + [name]
    ensures D.IdOf(NamesOf(docs) + [name], Hash(name)) == |docs| + 1 && |NamesOf(docs)| == |docs|
  {
    hide Hash, D.IdOf;
    D.IdOfAppend(NamesOf(docs), name);
  }

  lemma SameWords(words: WordMap, text: seq<byte>)
    requires RecordedUpTo(words, text, |text|)
    ensures words == WordsOf(text)
  {}
}
