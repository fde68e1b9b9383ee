/** The in-memory query engine of hw2 and the index-file engine of hw3 give the same results. */
module Engines {
  import opened Fnv
  import opened LinkedLists
  import opened StableSorts
  import opened Queries
  import opened Layouts
  import opened MemIndexes
  import opened DocTableReaders
  import opened IndexTableReaders
  import opened QueryProcessors

  /** The index file and the in-memory index hold the same postings: the one by word, the
      other by the hash of the word. */
  ghost predicate SameContents(index: Index, words: WordIndex) {
    && (forall w :: w in words ==> Hash(w) in index && index[Hash(w)] == words[w])
    && (forall h :: h in index ==> exists w :: w in words && Hash(w) == h)
  }

  /** No query word has the hash of a different indexed word. */
  ghost predicate NoCollision(words: WordIndex, query: seq<Image>) {
    forall q, w :: q in query && w in words && Hash(q) == Hash(w) ==> q == w
  }

  ghost predicate AllRegistered(words: WordIndex, names: Names) {
    forall w, d :: w in words && d in words[w] ==> d in names
  }

  lemma SameTables(index: Index, words: WordIndex, query: seq<Image>)
    requires SameContents(index, words) && NoCollision(words, query)
    ensures Tables(index, query) == TablesOf(words, query)
  {
    hide Hash;
  }

  lemma {:induction false} NamedAppend(names: Names, a: seq<SearchResult>, b: seq<SearchResult>)
    ensures Named(names, a + b) == Named(names, a) + Named(names, b)
    decreases |b|
  {
    if b == [] {
      assert a + b == a;
    } else {
      assert (a + b)[..|a + b| - 1] == a + b[..|b| - 1];
      NamedAppend(names, a, b[..|b| - 1]);
    }
  }

  lemma SameRest(init: seq<SearchResult>, last: SearchResult, x: seq<SearchResult>, y: seq<SearchResult>)
    requires multiset(init + [last]) == multiset(x + [last] + y)
    ensures multiset(init) == multiset(x + y)
  {
    assert multiset(x + [last] + y) == multiset(x + y) + multiset{last};
    assert multiset(init) == multiset(init + [last]) - multiset{last};
  }

  /** Naming does not depend on the order. */
  lemma {:induction false} NamedPermutes(names: Names, a: seq<SearchResult>, b: seq<SearchResult>)
    requires multiset(a) == multiset(b)
    ensures multiset(Named(names, a)) == multiset(Named(names, b))
    decreases |a|
  {
    PermutationElements(a, b);
    if a != [] {
      var init, last := a[..|a| - 1], a[|a| - 1];
      assert a == init + [last];
      assert last in a;
      var k :| 0 <= k < |b| && b[k] == last;
      var x, y := b[..k], b[k + 1..];
      assert b == x + [last] + y;
      SameRest(init, last, x, y);
      NamedPermutes(names, init, x + y);
      NamedAppend(names, init, [last]);
      NamedAppend(names, x + [last], y);
      NamedAppend(names, x, [last]);
      NamedAppend(names, x, y);
    }
  }

  lemma {:induction false} AllNamedDocs(names: Names, list: seq<SearchResult>)
    requires forall r :: r in list ==> r.docid in names
    ensures |Named(names, list)| == |list|
  {
    if list != [] {
      AllNamedDocs(names, list[..|list| - 1]);
      assert list[|list| - 1] in list;
    }
  }

  lemma MatchesRegistered(words: WordIndex, names: Names, query: seq<Image>, list: seq<SearchResult>)
    requires AllRegistered(words, names) && Answers(TablesOf(words, query), list) && query != []
    ensures forall r :: r in list ==> r.docid in names
  {
    hide Rank;
    forall r | r in list
      ensures r.docid in names
    {
      assert r.docid in TablesOf(words, query)[0];
      assert query[0] in words && r.docid in words[query[0]];
    }
  }

  /** For one index file with the contents of an in-memory index, all of its documents
      registered, the two engines return the same documents with the same ranks. */
  lemma EnginesAgree(index: Index, words: WordIndex, names: Names, query: seq<Image>,
                     inMemory: seq<SearchResult>, answer: seq<SearchResult>, onDisk: seq<QueryResult>)
    requires SameContents(index, words) && NoCollision(words, query) && AllRegistered(words, names) && query != []
    requires Answers(Tables(index, query), inMemory)
    requires Answers(TablesOf(words, query), answer) && multiset(onDisk) == multiset(AllNamed([names], [answer]))
    ensures multiset(onDisk) == multiset(Named(names, inMemory)) && |onDisk| == |inMemory|
  {
    hide Answers, Named, Tables, TablesOf, SameContents, NoCollision, AllRegistered;
    SameTables(index, words, query);
    AnswersAgree(Tables(index, query), inMemory, answer);
    NamedPermutes(names, inMemory, answer);
    OneIndex(names, answer);
    MatchesRegistered(words, names, query, inMemory);
    AllNamedDocs(names, inMemory);
    PermutationElements(onDisk, Named(names, inMemory));
  }

  lemma OneIndex(names: Names, answer: seq<SearchResult>)
    ensures AllNamed([names], [answer]) == Named(names, answer)
  {
    hide Named;
    assert [names][..0] == [] && [answer][..0] == [];
  }

  lemma NothingFound(tables: seq<Table>)
    requires forall d :: !Matches(tables, d)
    ensures Answers(tables, [])
  {}

  /** Both engines on the same query. */
  method QueryBoth(mi: MemIndex, qp: QueryProcessor, query: seq<Image>)
    returns (inMemory: LinkedList?<SearchResult>, onDisk: seq<QueryResult>)
    requires mi.Valid() && qp.Valid() && qp.arraylen == 1 && 0 < |query| < 256
    requires SameContents(mi.index, qp.itrArray[0].words) && NoCollision(qp.itrArray[0].words, query)
    requires AllRegistered(qp.itrArray[0].words, qp.dtrArray[0].names)
    requires mi.Repr !! qp.files
    modifies qp.files`pos
    ensures inMemory == null <==> onDisk == []
    ensures Answers(Tables(mi.index, query), if inMemory == null then [] else inMemory.contents)
    ensures inMemory != null ==>
      && fresh(inMemory) && multiset(onDisk) == multiset(Named(qp.dtrArray[0].names, inMemory.contents))
      && BestFirst(inMemory.contents) && HighestFirst(onDisk)
  {
    hide MemIndex.Valid, QueryProcessor.Valid, Answers, Matches, SameContents, NoCollision, AllRegistered,
      LinkedList.Valid, Tables, TablesOf, Named, BestFirst, HighestFirst;
    qp.Lengths();
    inMemory := mi.ProcessQuery(query);
    ghost var answers;
    onDisk, answers := qp.ProcessQuery(query);
    assert answers == [answers[0]] && qp.AllNames() == [qp.dtrArray[0].names];
    ghost var found := if inMemory == null then [] else inMemory.contents;
    if inMemory == null {
      NothingFound(Tables(mi.index, query));
    } else {
      EmptyAnswer(Tables(mi.index, query), found);
    }
    EnginesAgree(mi.index, qp.itrArray[0].words, qp.dtrArray[0].names, query, found, answers[0], onDisk);
  }
}
