/** The files that were crawled, written to an index file and searched there: what the query
    processor of hw3 returns, said about the texts. */
module DiskSearches {
  import opened Chains
  import opened Fnv
  import opened Words
  import opened StableSorts
  import opened Queries
  import opened MemIndexes
  import opened FileCrawlers
  import opened SearchEngine
  import opened DocTableReaders
  import opened IndexTableReaders
  import opened QueryProcessors
  import opened Engines
  import opened IndexWriters
  import opened Snapshots
  import D = DocTables
  import L = LinkedLists

  /** The 16-bit length fields of the index file hold every path and every word. */
  ghost predicate LengthsFit(docs: seq<Document>) {
    forall k :: 0 <= k < |docs| ==> Fits16(docs[k].name) && ShortWords(docs[k].text)
  }

  ghost predicate Fits16(s: seq<byte>) {
    0 < |s| < 65536
  }

  ghost predicate ShortWords(text: seq<byte>) {
    forall i: nat, j: nat :: IsRun(text, i, j) ==> j - i < 65536
  }

  ghost predicate IsWordOf(text: seq<byte>, w: seq<byte>) {
    exists i: nat, j: nat :: IsRun(text, i, j) && Word(text, i, j) == w
  }

  lemma {:induction false} FewStarts(text: seq<byte>, runs: seq<Run>, h: uint64)
    requires |text| < TWO32
    requires forall r :: r in runs ==> r.start <= r.end <= |text|
    ensures |Starts(text, runs, h)| <= |runs|
    decreases |runs|
  {
    hide Hash, Word;
    if runs != [] {
      FewStarts(text, runs[..|runs| - 1], h);
    }
  }

  /** An entry of a word table spells a word of the text and has at least one position. */
  lemma EntryIsWord(text: seq<byte>, h: uint64)
    requires |text| < TWO32 && h in WordsOf(text)
    ensures IsWordOf(text, WordsOf(text)[h].word) && 0 < |WordsOf(text)[h].positions| < TWO32
  {
    hide Hash, Word, Runs, Starts, RecordAll;
    var runs := Runs(text, |text|);
    RunsInside(text, |text|);
    RunsAscend(text, |text|);
    RecordedPositions(text, runs, h);
    FewStarts(text, runs, h);
    StoredWordIsARun(text, runs, h);
    var r :| r in runs && Word(text, r.start, r.end) == RecordAll(text, runs)[h].word;
    RunsAreMaximal(text, |text|, r);
  }

  /** Every spelling is a word of one of the documents. */
  lemma {:induction false} SpelledSomewhere(docs: seq<Document>, h: uint64)
    requires SizesFit(docs) && h in SpellingsOf(docs)
    ensures exists k :: 0 <= k < |docs| && IsWordOf(docs[k].text, SpellingsOf(docs)[h])
    decreases |docs|
  {
    hide WordsOf, IsWordOf;
    var init, last := docs[..|docs| - 1], docs[|docs| - 1];
    if h in SpellingsOf(init) {
      SpelledSomewhere(init, h);
      var k :| 0 <= k < |init| && IsWordOf(init[k].text, SpellingsOf(init)[h]);
      assert docs[k] == init[k];
    } else {
      EntryIsWord(last.text, h);
    }
  }

  lemma CrawledIsStorable(docs: seq<Document>)
    requires SizesFit(docs) && LengthsFit(docs)
    ensures Storable(IndexOf(docs), SpellingsOf(docs)) && Registered(IndexOf(docs), |docs|)
    ensures forall h :: h in SpellingsOf(docs) ==> |SpellingsOf(docs)[h]| < 65536
  {
    hide WordsOf, IndexOf, SpellingsOf, IsWordOf;
    forall h | h in SpellingsOf(docs)
      ensures Fits16(SpellingsOf(docs)[h])
    {
      SpelledSomewhere(docs, h);
      var k :| 0 <= k < |docs| && IsWordOf(docs[k].text, SpellingsOf(docs)[h]);
      WordFits(docs[k].text, SpellingsOf(docs)[h]);
    }
    forall h, d | h in IndexOf(docs) && d in IndexOf(docs)[h]
      ensures 1 <= d as nat <= |docs| && 0 < |IndexOf(docs)[h][d]| < TWO32
    {
      IndexHolds(docs, h, d);
      EntryIsWord(docs[d as nat - 1].text, h);
    }
  }

  lemma WordFits(text: seq<byte>, w: seq<byte>)
    requires ShortWords(text) && IsWordOf(text, w)
    ensures Fits16(w)
  {}

  lemma NamesFit(docs: seq<Document>)
    requires SizesFit(docs) && LengthsFit(docs)
    ensures |NamesOf(docs)| == |docs| < TWO32 && forall n :: n in NamesOf(docs) ==> Writes16(n) && |n| < 65536
  {
    hide ShortWords;
    forall n | n in NamesOf(docs)
      ensures Writes16(n) && |n| < 65536
    {
      var k :| 0 <= k < |docs| && n == NamesOf(docs)[k];
    }
  }

  /** A query word that no text confuses with another word is not confused by the index either. */
  lemma NothingConfused(docs: seq<Document>, query: seq<seq<byte>>)
    requires SizesFit(docs) && NoConfusion(docs, query)
    ensures NoCollision(ByWord(IndexOf(docs), SpellingsOf(docs)), query)
  {
    hide Hash, IndexOf, SpellingsOf, Word, IsWordOf, Distinct;
    var words := ByWord(IndexOf(docs), SpellingsOf(docs));
    forall q, w | q in query && w in words && Hash(q) == Hash(w)
      ensures q == w
    {
      var h :| h in SpellingsOf(docs) && SpellingsOf(docs)[h] == w;
      SpelledSomewhere(docs, h);
      var d :| 0 <= d < |docs| && IsWordOf(docs[d].text, w);
      var k :| 0 <= k < |query| && query[k] == q;
      assert Distinct(docs[d].text, query[k]);
      SameWord(docs[d].text, q, w);
    }
  }

  lemma SameWord(text: seq<byte>, q: seq<byte>, w: seq<byte>)
    requires Distinct(text, q) && IsWordOf(text, w) && Hash(q) == Hash(w)
    ensures q == w
  {
    hide Hash, Word, IsRun;
  }

  // ---- The results, by name ----

  /** The result of a document for a query. */
  ghost function ResultFor(doc: Document, query: seq<seq<byte>>): QueryResult {
    QueryResult(doc.name, (TotalPlaces(doc.text, query) % TWO32) as uint32)
  }

  /** The documents whose text has every word of the query. */
  ghost function Found(docs: seq<Document>, query: seq<seq<byte>>): set<nat> {
    set k | 0 <= k < |docs| && HasAll(docs[k].text, query)
  }

  lemma {:induction false} NamedMembers(names: Names, list: seq<SearchResult>, r: QueryResult)
    ensures r in Named(names, list) <==> exists x :: x in list && x.docid in names && r == QueryResult(names[x.docid], x.rank)
    decreases |list|
  {
    if list != [] {
      var init, last := list[..|list| - 1], list[|list| - 1];
      assert list == init + [last];
      NamedMembers(names, init, r);
    }
  }

  lemma {:induction false} CountDocs(list: seq<SearchResult>, found: set<nat>)
    requires DistinctDocs(list) && forall x :: x in list ==> x.docid >= 1
    requires forall k: nat :: k in found <==> exists x :: x in list && x.docid as nat == k + 1
    ensures |found| == |list|
    decreases |list|
  {
    if list == [] {
      assert found == {};
    } else {
      var init, last := list[..|list| - 1], list[|list| - 1];
      assert list == init + [last];
      var k := last.docid as nat - 1;
      assert last in list;
      CountDocs(init, found - {k});
    }
  }

  lemma NamedResults(docs: seq<Document>, query: seq<seq<byte>>, list: seq<SearchResult>)
    requires SizesFit(docs) && NoConfusion(docs, query) && query != [] && Answers(Tables(IndexOf(docs), query), list)
    ensures |Named(D.IdMap(NamesOf(docs)), list)| == |Found(docs, query)|
    ensures forall r :: r in Named(D.IdMap(NamesOf(docs)), list) <==> exists k :: k in Found(docs, query) && r == ResultFor(docs[k], query)
  {
    hide Answers, IndexOf, HasAll, TotalPlaces, NoConfusion, Tables, D.IdMap, Named;
    var names := D.IdMap(NamesOf(docs));
    SearchIsCorrect(docs, query, list);
    DistinctAnswers(Tables(IndexOf(docs), query), list);
    forall d: uint64
      ensures d in names <==> 1 <= d as nat <= |docs|
      ensures d in names ==> names[d] == docs[d as nat - 1].name
    {
      D.IdLookup(NamesOf(docs), d);
    }
    AllNamedDocs(names, list);
    forall k: nat
      ensures k in Found(docs, query) <==> exists x :: x in list && x.docid as nat == k + 1
    {
      FoundByDoc(docs, query, list, k);
    }
    CountDocs(list, Found(docs, query));
    forall r
      ensures r in Named(names, list) <==> exists k :: k in Found(docs, query) && r == ResultFor(docs[k], query)
    {
      NamedMembers(names, list, r);
      ByDocument(docs, query, list, names, r);
    }
  }

  lemma DistinctAnswers(tables: seq<Table>, list: seq<SearchResult>)
    requires Answers(tables, list)
    ensures DistinctDocs(list)
  {}

  lemma FoundByDoc(docs: seq<Document>, query: seq<seq<byte>>, list: seq<SearchResult>, k: nat)
    requires |docs| < TWO32
    requires forall d: uint64 :: FoundIn(list, d) <==> 1 <= d as nat <= |docs| && HasAll(docs[d as nat - 1].text, query)
    ensures k in Found(docs, query) <==> exists x :: x in list && x.docid as nat == k + 1
  {
    hide HasAll;
    if k < |docs| {
      var d := (k + 1) as uint64;
      assert FoundIn(list, d) <==> HasAll(docs[k].text, query);
    }
    forall x | x in list && x.docid as nat == k + 1
      ensures k in Found(docs, query)
    {
      assert FoundIn(list, x.docid);
    }
  }

  lemma ByDocument(docs: seq<Document>, query: seq<seq<byte>>, list: seq<SearchResult>, names: Names, r: QueryResult)
    requires |docs| < TWO32
    requires forall d: uint64 :: d in names <==> 1 <= d as nat <= |docs|
    requires forall d: uint64 :: d in names ==> names[d] == docs[d as nat - 1].name
    requires forall k: nat :: k in Found(docs, query) <==> exists x :: x in list && x.docid as nat == k + 1
    requires forall x :: x in list ==>
      1 <= x.docid as nat <= |docs| && x.rank as nat == TotalPlaces(docs[x.docid as nat - 1].text, query) % TWO32
    ensures (exists x :: x in list && x.docid in names && r == QueryResult(names[x.docid], x.rank)) <==>
      (exists k :: k in Found(docs, query) && r == ResultFor(docs[k], query))
  {
    hide HasAll, TotalPlaces;
    forall x | x in list
      ensures x.docid in names && x.docid as nat - 1 in Found(docs, query)
      ensures QueryResult(names[x.docid], x.rank) == ResultFor(docs[x.docid as nat - 1], query)
    {
    }
  }

  /** Crawled files, written with WriteIndex and searched with the query processor: the results
      are the files whose text has every query word, each once, with the number of places where
      the words stand as rank, modulo 2^32. */
  method SearchOnDisk(doctable: D.DocTable, index: MemIndex, ghost docs: seq<Document>, query: seq<seq<byte>>)
    returns (results: seq<QueryResult>)
    requires Crawled(doctable, index, docs) && NoConfusion(docs, query) && 0 < |query| < 256
    requires LengthsFit(docs) && SizeFits(index, doctable)
    ensures HighestFirst(results) && |results| == |Found(docs, query)|
    ensures forall r :: r in results <==> exists k :: k in Found(docs, query) && r == ResultFor(docs[k], query)
  {
    hide MemIndex.Valid, D.DocTable.Valid, L.LinkedList.Valid, IndexOf, SpellingsOf, D.IdMap, NamesOf, ByWord, Storable, Registered,
      Writes16, Fits16, LengthsFit, NoConfusion, NoCollision, Tables, Answers, Named, Found, ResultFor, HighestFirst, SizesFit;
    CrawledIsStorable(docs);
    NamesFit(docs);
    NothingConfused(docs, query);
    ghost var names := D.IdMap(NamesOf(docs));
    var inMemory, onDisk := WriteAndQuery(index, doctable, query);
    ghost var found := if inMemory == null then [] else inMemory.contents;
    NamedResults(docs, query, found);
    if inMemory == null {
      NothingNamed(names);
    }
    PermutationElements(onDisk, Named(names, found));
    results := onDisk;
  }

  lemma NothingNamed(names: Names)
    ensures Named(names, []) == [] && HighestFirst([])
  {}
}
