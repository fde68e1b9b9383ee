/** The search engine of hw2 from end to end: what a query returns, said about the texts of the
    files that were handled. */
module SearchEngine {
  import opened Chains
  import opened Fnv
  import opened Words
  import opened LinkedLists
  import opened Queries
  import opened MemIndexes
  import opened FileCrawlers
  import opened TextLaws
  import D = DocTables

  /** No word of the text has the hash of w without being w. */
  ghost predicate Distinct(text: seq<byte>, w: seq<byte>) {
    forall i: nat, j: nat :: IsRun(text, i, j) && Hash(Word(text, i, j)) == Hash(w) ==> Word(text, i, j) == w
  }

  ghost function Members(s: seq<uint32>): set<nat> {
    set x | x in s :: x as nat
  }

  lemma MembersAppend(s: seq<uint32>, last: uint32)
    ensures Members(s + [last]) == Members(s) + {last as nat}
  {
    assert forall x :: x in s + [last] <==> x in s || x == last;
    assert last in s + [last];
  }

  lemma {:induction false} AscendingCount(s: seq<uint32>)
    requires forall a, b :: 0 <= a < b < |s| ==> s[a] < s[b]
    ensures |Members(s)| == |s|
    decreases |s|
  {
    if s != [] {
      var init, last := s[..|s| - 1], s[|s| - 1];
      AscendingCount(init);
      assert s == init + [last];
      MembersAppend(init, last);
      assert forall x :: x in init ==> x < last;
    }
  }

  /** The starts of the runs with the hash of w are the places of w. */
  lemma StartsArePlaces(text: seq<byte>, w: seq<byte>, p: uint32)
    requires |text| < TWO32 && Distinct(text, w)
    requires forall r :: r in Runs(text, |text|) ==> r.start <= r.end <= |text|
    ensures p in Starts(text, Runs(text, |text|), Hash(w)) <==> p as nat in Places(text, w)
  {
    hide Hash, Word, Runs, Starts, Places, SpellsAt;
    var runs := Runs(text, |text|);
    StandsIff(text, w, p as nat);
    StartsMembers(text, runs, Hash(w), p);
    if p in Starts(text, runs, Hash(w)) {
      var r :| r in runs && r.start == p as nat && Hash(Word(text, r.start, r.end)) == Hash(w);
      RunsAreMaximal(text, |text|, r);
    }
    if p as nat in Places(text, w) {
      var e: nat :| IsRun(text, p as nat, e) && Word(text, p as nat, e) == w;
      RunsAreMaximal(text, |text|, Run(p as nat, e));
    }
  }

  /** The word table lists a word exactly if it stands somewhere, with one position per place. */
  lemma TableCountsPlaces(text: seq<byte>, w: seq<byte>)
    requires |text| < TWO32 && Distinct(text, w)
    ensures Hash(w) in WordsOf(text) <==> Places(text, w) != {}
    ensures Hash(w) in WordsOf(text) ==> |WordsOf(text)[Hash(w)].positions| == |Places(text, w)|
  {
    hide Hash, Word, Runs, Starts, RecordAll, Distinct;
    var runs, h := Runs(text, |text|), Hash(w);
    RunsInside(text, |text|);
    RecordedPositions(text, runs, h);
    RunsAscend(text, |text|);
    StartsAscend(text, runs, h);
    var starts := Starts(text, runs, h);
    AscendingCount(starts);
    forall p: nat
      ensures p in Members(starts) <==> p in Places(text, w)
    {
      if p < |text| {
        StartsArePlaces(text, w, p as uint32);
        assert p in Members(starts) <==> p as uint32 in starts;
      } else {
        forall x | x in starts
          ensures x as nat < |text|
        {
          StartsArePlaces(text, w, x);
        }
      }
    }
    assert Members(starts) == Places(text, w);
  }

  /** The text has every word of the query. */
  ghost predicate HasAll(text: seq<byte>, query: seq<seq<byte>>) {
    forall k :: 0 <= k < |query| ==> Places(text, query[k]) != {}
  }

  /** In how many places the words of a query stand in a text, all together. */
  ghost function TotalPlaces(text: seq<byte>, query: seq<seq<byte>>): nat {
    if query == [] then 0
    else |Places(text, query[|query| - 1])| + TotalPlaces(text, query[..|query| - 1])
  }

  /** No query word is confused with a word of one of the texts. */
  ghost predicate NoConfusion(docs: seq<Document>, query: seq<seq<byte>>) {
    forall d, k :: 0 <= d < |docs| && 0 <= k < |query| ==> Distinct(docs[d].text, query[k])
  }

  lemma OneWord(docs: seq<Document>, query: seq<seq<byte>>, k: nat, d: uint64)
    requires SizesFit(docs) && NoConfusion(docs, query) && k < |query|
    ensures var counts := Counts(IndexOf(docs), Hash(query[k]));
      && (d in counts <==> 1 <= d as nat <= |docs| && Places(docs[d as nat - 1].text, query[k]) != {})
      && (d in counts ==> counts[d] == |Places(docs[d as nat - 1].text, query[k])|)
  {
    hide Hash, IndexOf, WordsOf, Places;
    IndexHolds(docs, Hash(query[k]), d);
    if 1 <= d as nat <= |docs| {
      TableCountsPlaces(docs[d as nat - 1].text, query[k]);
    }
  }

  lemma {:induction false} RankCountsPlaces(docs: seq<Document>, query: seq<seq<byte>>, d: uint64)
    requires SizesFit(docs) && NoConfusion(docs, query) && 1 <= d as nat <= |docs|
    requires Matches(Tables(IndexOf(docs), query), d)
    ensures Occurrences(Tables(IndexOf(docs), query), d) == TotalPlaces(docs[d as nat - 1].text, query)
    decreases |query|
  {
    hide Hash, IndexOf, Places, Counts;
    if query != [] {
      var n := |query| - 1;
      var tables, init := Tables(IndexOf(docs), query), Tables(IndexOf(docs), query[..n]);
      assert tables[..n] == init && tables[n] == Counts(IndexOf(docs), Hash(query[n]));
      OneWord(docs, query, n, d);
      assert forall i :: 0 <= i < n ==> init[i] == tables[i];
      FewerWords(docs, query, n);
      RankCountsPlaces(docs, query[..n], d);
    }
  }

  lemma FewerWords(docs: seq<Document>, query: seq<seq<byte>>, n: nat)
    requires NoConfusion(docs, query) && n <= |query|
    ensures NoConfusion(docs, query[..n])
  {
    hide Distinct;
  }

  /** A document is found exactly when it is one of the handled files and its text has every query
      word, and its rank is the number of places where they stand, modulo 2^32. */
  lemma SearchIsCorrect(docs: seq<Document>, query: seq<seq<byte>>, results: seq<SearchResult>)
    requires SizesFit(docs) && NoConfusion(docs, query) && query != []
    requires Answers(Tables(IndexOf(docs), query), results)
    ensures forall d: uint64 :: FoundIn(results, d) <==> 1 <= d as nat <= |docs| && HasAll(docs[d as nat - 1].text, query)
    ensures forall r :: r in results ==>
      1 <= r.docid as nat <= |docs| && r.rank as nat == TotalPlaces(docs[r.docid as nat - 1].text, query) % TWO32
  {
    hide Hash, IndexOf, Places, Occurrences, TotalPlaces, NoConfusion, Tables;
    var tables := Tables(IndexOf(docs), query);
    forall d: uint64
      ensures FoundIn(results, d) <==> 1 <= d as nat <= |docs| && HasAll(docs[d as nat - 1].text, query)
    {
      MatchesTexts(docs, query, d);
      assert FoundIn(results, d) <==> Matches(tables, d);
    }
    forall r | r in results
      ensures 1 <= r.docid as nat <= |docs| && r.rank as nat == TotalPlaces(docs[r.docid as nat - 1].text, query) % TWO32
    {
      MatchesTexts(docs, query, r.docid);
      RankCountsPlaces(docs, query, r.docid);
    }
  }

  ghost predicate FoundIn(results: seq<SearchResult>, d: uint64) {
    exists r :: r in results && r.docid == d
  }

  lemma MatchesTexts(docs: seq<Document>, query: seq<seq<byte>>, d: uint64)
    requires SizesFit(docs) && NoConfusion(docs, query) && query != []
    ensures Matches(Tables(IndexOf(docs), query), d) <==> 1 <= d as nat <= |docs| && HasAll(docs[d as nat - 1].text, query)
  {
    hide Hash, IndexOf, Places, NoConfusion, Counts;
    var tables := Tables(IndexOf(docs), query);
    forall k | 0 <= k < |query|
      ensures d in tables[k] <==> 1 <= d as nat <= |docs| && Places(docs[d as nat - 1].text, query[k]) != {}
    {
      OneWord(docs, query, k, d);
    }
    if Matches(tables, d) {
      assert d in tables[0];
    }
  }

  /** MIProcessQuery on an index that HandleFile built: the answer in terms of the texts. */
  method Search(doctable: D.DocTable, index: MemIndex, ghost docs: seq<Document>, query: seq<seq<byte>>)
    returns (retlist: LinkedList?<SearchResult>)
    requires Crawled(doctable, index, docs) && NoConfusion(docs, query) && 0 < |query| < 256
    ensures retlist == null <==> forall k :: 0 <= k < |docs| ==> !HasAll(docs[k].text, query)
    ensures retlist != null ==>
      && retlist.Valid() && BestFirst(retlist.contents) && DistinctDocs(retlist.contents)
      && (forall d: uint64 :: FoundIn(retlist.contents, d) <==> 1 <= d as nat <= |docs| && HasAll(docs[d as nat - 1].text, query))
      && (forall r :: r in retlist.contents ==>
           1 <= r.docid as nat <= |docs| && r.rank as nat == TotalPlaces(docs[r.docid as nat - 1].text, query) % TWO32)
  {
    hide MemIndex.Valid, D.DocTable.Valid, LinkedList.Valid, IndexOf, Tables, Matches, Rank, HasAll, TotalPlaces, NoConfusion, FoundIn;
    retlist := index.ProcessQuery(query);
    forall d: uint64
      ensures Matches(Tables(IndexOf(docs), query), d) <==> 1 <= d as nat <= |docs| && HasAll(docs[d as nat - 1].text, query)
    {
      MatchesTexts(docs, query, d);
    }
    if retlist != null {
      SearchIsCorrect(docs, query, retlist.contents);
    }
    if retlist == null {
      forall k | 0 <= k < |docs|
        ensures !HasAll(docs[k].text, query)
      {
        assert !Matches(Tables(IndexOf(docs), query), (k + 1) as uint64);
      }
    }
  }
}
