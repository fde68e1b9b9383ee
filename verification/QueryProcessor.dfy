/** hw3/QueryProcessor.cc: conjunctive queries over index files. */
module QueryProcessors {
  import opened Chains
  import opened StableSorts
  import opened Queries
  import opened Layouts
  import opened HashTableReaders
  import opened DocIDTableReaders
  import opened DocTableReaders
  import opened IndexTableReaders
  import opened FileIndexReaders

  datatype QueryResult = QueryResult(documentName: Image, rank: uint32)

  /** operator<: a result with a higher rank comes first. */
  function ResultOrder(a: QueryResult, b: QueryResult): int {
    b.rank as int - a.rank as int
  }

  ghost predicate HighestFirst(results: seq<QueryResult>) {
    forall i, j :: 0 <= i < j < |results| ==> results[i].rank >= results[j].rank
  }

  /** std::sort promises no more than this. */
  method SortResults(results: seq<QueryResult>) returns (sorted: seq<QueryResult>)
    ensures multiset(sorted) == multiset(results) && HighestFirst(sorted)
  {
    SortPermutes(ResultOrder, true, results);
    SortSorts(ResultOrder, true, results);
    sorted := StableSort(ResultOrder, true, results);
  }

  // ---- The join ----

  /** The inner loop of CombineDocIDList. */
  ghost function Matching(retList: seq<SearchResult>, p: SearchResult): seq<SearchResult> {
    if retList == [] then []
    else
      var before, last := Matching(retList[..|retList| - 1], p), retList[|retList| - 1];
      if last.docid == p.docid then before + [SearchResult(last.docid, Add32(last.rank, p.rank as nat))] else before
  }

  ghost function Combined(retList: seq<SearchResult>, partialList: seq<SearchResult>): seq<SearchResult> {
    if partialList == [] then []
    else Combined(retList, partialList[..|partialList| - 1]) + Matching(retList, partialList[|partialList| - 1])
  }

  method CombineDocIDList(retList: seq<SearchResult>, partialList: seq<SearchResult>) returns (finalList: seq<SearchResult>)
    ensures finalList == Combined(retList, partialList)
  {
    hide Add32;
    finalList := [];
    var i := 0;
    while i < |partialList|
      invariant i <= |partialList| && finalList == Combined(retList, partialList[..i])
    {
      ghost var before := finalList;
      var j := 0;
      while j < |retList|
        invariant j <= |retList| && finalList == before + Matching(retList[..j], partialList[i])
      {
        assert retList[..j + 1][..j] == retList[..j];
        if retList[j].docid == partialList[i].docid {
          finalList := finalList + [SearchResult(retList[j].docid, Add32(retList[j].rank, partialList[i].rank as nat))];
        }
        j := j + 1;
      }
      assert retList[..j] == retList;
      assert partialList[..i + 1][..i] == partialList[..i];
      i := i + 1;
    }
    assert partialList[..i] == partialList;
  }

  lemma {:induction false} MatchingMembers(retList: seq<SearchResult>, p: SearchResult)
    requires DistinctDocs(retList)
    ensures |Matching(retList, p)| <= 1
    ensures forall r :: r in Matching(retList, p) ==>
      r.docid == p.docid && exists q :: q in retList && q.docid == p.docid && r.rank == Add32(q.rank, p.rank as nat)
    ensures forall q :: q in retList && q.docid == p.docid ==>
      Matching(retList, p) == [SearchResult(q.docid, Add32(q.rank, p.rank as nat))]
  {
    hide Add32;
    if retList != [] {
      var init, last := retList[..|retList| - 1], retList[|retList| - 1];
      assert retList == init + [last];
      MatchingMembers(init, p);
      if Matching(init, p) != [] {
        var r := Matching(init, p)[0];
        assert r in Matching(init, p);
        assert last.docid != p.docid;
      }
    }
  }

  lemma {:induction false} CombinedMembers(retList: seq<SearchResult>, partialList: seq<SearchResult>)
    requires DistinctDocs(retList) && DistinctDocs(partialList)
    ensures DistinctDocs(Combined(retList, partialList))
    ensures forall r :: r in Combined(retList, partialList) ==>
      exists q, p :: q in retList && p in partialList && q.docid == p.docid == r.docid && r.rank == Add32(q.rank, p.rank as nat)
    ensures forall q, p :: q in retList && p in partialList && q.docid == p.docid ==>
      SearchResult(q.docid, Add32(q.rank, p.rank as nat)) in Combined(retList, partialList)
  {
    hide Add32, Matching;
    if partialList != [] {
      var init, last := partialList[..|partialList| - 1], partialList[|partialList| - 1];
      assert partialList == init + [last];
      CombinedMembers(retList, init);
      MatchingMembers(retList, last);
    }
  }

  /** Joining with the list of one more word answers the longer query. */
  lemma CombinedAnswers(tables: seq<Table>, table: Table, retList: seq<SearchResult>, partialList: seq<SearchResult>)
    requires Answers(tables, retList) && Listing(partialList, table)
    ensures Answers(tables + [table], Combined(retList, partialList))
  {
    hide Rank, Matches, Combined, Add32;
    CombinedMembers(retList, partialList);
    var all, c := tables + [table], Combined(retList, partialList);
    forall r | r in c
      ensures Matches(all, r.docid) && r.rank == Rank(all, r.docid)
    {
      MatchesOneMore(tables, table, r.docid);
    }
    forall d | Matches(all, d)
      ensures SearchResult(d, Rank(all, d)) in c
    {
      MatchesOneMore(tables, table, d);
      var q, p := SearchResult(d, Rank(tables, d)), SearchResult(d, table[d] as uint32);
      assert q in retList && p in partialList;
    }
  }

  /** The list of one word answers the query for that word. */
  lemma ListingAnswers(table: Table, list: seq<SearchResult>)
    requires Listing(list, table)
    ensures Answers([table], list)
  {
    forall d: uint64
      ensures Matches([table], d) <==> d in table
      ensures d in table ==> Rank([table], d) as nat == table[d] && (table[d] as uint32) as nat == table[d]
    {
      RankOfOne(table, d);
    }
    hide Rank, Matches;
    forall d | Matches([table], d)
      ensures SearchResult(d, Rank([table], d)) in list
    {
      var r := SearchResult(d, table[d] as uint32);
      assert r in list;
    }
  }

  lemma RankOfOne(table: Table, d: uint64)
    requires d in table ==> table[d] < TWO32
    ensures Matches([table], d) <==> d in table
    ensures d in table ==> Rank([table], d) as nat == table[d]
  {
    assert [table][..0] == [] && [table][0] == table;
    if d in table {
      assert Occurrences([table], d) == table[d] + Occurrences([], d);
    }
  }

  // ---- One index ----

  /** What the words of a query look up; a word that is not in the index has no documents. */
  ghost function TablesOf(words: WordIndex, query: seq<Image>): (t: seq<Table>)
    ensures |t| == |query|
  {
    seq(|query|, k requires 0 <= k < |query| => TableOf(words, query[k]))
  }

  ghost function TableOf(words: WordIndex, word: Image): Table {
    if word in words then PostingCounts(words[word]) else map[]
  }

  /** The list with document names; documents without one are dropped. */
  ghost function Named(names: Names, list: seq<SearchResult>): seq<QueryResult> {
    if list == [] then []
    else
      var before, last := Named(names, list[..|list| - 1]), list[|list| - 1];
      if last.docid in names then before + [QueryResult(names[last.docid], last.rank)] else before
  }

  method AddQueryResult(dtr: DocTableReader, finalDocidList: seq<SearchResult>, before: seq<QueryResult>)
    returns (finalresult: seq<QueryResult>)
    requires dtr.Valid()
    modifies dtr.table.file`pos
    ensures finalresult == before + Named(dtr.names, finalDocidList)
  {
    hide DocTableReader.Valid;
    finalresult := before;
    var i := 0;
    while i < |finalDocidList|
      invariant i <= |finalDocidList| && dtr.Valid()
      invariant finalresult == before + Named(dtr.names, finalDocidList[..i])
    {
      var found, fileName := dtr.LookupDocID(finalDocidList[i].docid);
      if found {
        finalresult := finalresult + [QueryResult(fileName, finalDocidList[i].rank)];
      }
      assert finalDocidList[..i + 1][..i] == finalDocidList[..i];
      i := i + 1;
    }
    assert finalDocidList[..i] == finalDocidList;
  }

  class QueryProcessor {
    const arraylen: nat
    const dtrArray: seq<DocTableReader>
    const itrArray: seq<IndexTableReader>
    ghost const files: set<DiskFile>

    ghost predicate Valid()
      reads files`content
    {
      && |dtrArray| == |itrArray| == arraylen > 0
      && (forall i :: 0 <= i < arraylen ==> dtrArray[i].table.file in files && dtrArray[i].Valid())
      && (forall i :: 0 <= i < arraylen ==> itrArray[i].table.file in files && itrArray[i].Valid())
    }

    /** The constructor: every index file is opened, validated if asked to, and its tables are
        kept. The ghost arguments say what the files store. */
    constructor (indexlist: seq<DiskFile>, validate: bool, ghost names: seq<Names>, ghost words: seq<WordIndex>)
      requires |indexlist| > 0 && |names| == |words| == |indexlist|
      requires forall i :: 0 <= i < |indexlist| ==> IndexFile(indexlist[i].content, validate, names[i], words[i])
      modifies Files(indexlist)`pos
      ensures Valid() && arraylen == |indexlist| && files == Files(indexlist)
      ensures forall i :: 0 <= i < arraylen ==> dtrArray[i].names == names[i] && itrArray[i].words == words[i]
    {
      hide IndexFile, DocTableReader.Valid, IndexTableReader.Valid;
      var dtrs, itrs := OpenAll(indexlist, validate, names, words);
      arraylen, dtrArray, itrArray := |indexlist|, dtrs, itrs;
      files := Files(indexlist);
    }

    /** The results of all indices, best ranks first. The ghost result gives, for each index, the
        answer its documents were named from. */
    method ProcessQuery(query: seq<Image>) returns (finalresult: seq<QueryResult>, ghost answers: seq<seq<SearchResult>>)
      requires Valid() && |query| > 0
      modifies files`pos
      ensures |answers| == arraylen
      ensures forall i :: 0 <= i < arraylen ==> Answers(TablesOf(itrArray[i].words, query), answers[i])
      ensures multiset(finalresult) == multiset(AllNamed(AllNames(), answers)) && HighestFirst(finalresult)
    {
      hide QueryProcessor.Valid, Answers, TablesOf, AllNamed, Named, AllNames, HighestFirst;
      Lengths();
      NothingNamed();
      finalresult, answers := [], [];
      var i := 0;
      while i < arraylen
        invariant i <= arraylen && Valid() && |answers| == i
        invariant forall k :: 0 <= k < i ==> Answers(TablesOf(itrArray[k].words, query), answers[k])
        invariant finalresult == AllNamed(AllNames()[..i], answers)
      {
        ghost var answer;
        finalresult, answer := ProcessIndex(i, query, finalresult);
        OneMoreNamed(i, answers, answer);
        answers := answers + [answer];
        i := i + 1;
      }
      assert AllNames()[..i] == AllNames();
      finalresult := SortResults(finalresult);
    }

    lemma Lengths()
      requires Valid()
      ensures |dtrArray| == |itrArray| == |AllNames()| == arraylen > 0
    {}

    lemma NothingNamed()
      requires Valid()
      ensures AllNamed(AllNames()[..0], []) == []
    {}

    lemma OneMoreNamed(i: nat, answers: seq<seq<SearchResult>>, answer: seq<SearchResult>)
      requires Valid() && |answers| == i < arraylen
      ensures AllNamed(AllNames()[..i + 1], answers + [answer]) ==
        AllNamed(AllNames()[..i], answers) + Named(dtrArray[i].names, answer)
    {
      hide QueryProcessor.Valid, AllNamed, Named;
      Lengths();
      var all := AllNames();
      assert all[..i + 1] == all[..i] + [all[i]];
      NamedOnce(all[..i], answers, all[i], answer);
    }

    ghost function AllNames(): (n: seq<Names>)
      requires |dtrArray| == arraylen
      ensures |n| == arraylen
    {
      seq(arraylen, i requires 0 <= i < arraylen => dtrArray[i].names)
    }

    /** The body of the loop over the indices. */
    method ProcessIndex(i: nat, query: seq<Image>, before: seq<QueryResult>)
      returns (finalresult: seq<QueryResult>, ghost answer: seq<SearchResult>)
      requires Valid() && i < arraylen && |query| > 0
      modifies files`pos
      ensures Answers(TablesOf(itrArray[i].words, query), answer)
      ensures finalresult == before + Named(dtrArray[i].names, answer)
    {
      hide DocTableReader.Valid, IndexTableReader.Valid, DocIDTableReader.Valid, Answers;
      var dtr, itr := dtrArray[i], itrArray[i];
      finalresult := before;
      answer := [];
      ghost var words := itr.words;
      var ditr := itr.LookupWord(query[0]);
      if ditr == null {
        MissingWord(words, query, 0);
        return;
      }
      var finalDocidList := ditr.GetDocIDList();
      ListingAnswers(TableOf(words, query[0]), finalDocidList);
      TablesOfPrefix(words, query, 0);
      if |query| == 1 {
        assert query[..1] == query;
        finalresult := AddQueryResult(dtr, finalDocidList, finalresult);
        answer := finalDocidList;
        return;
      }
      var k := 1;
      while k < |query|
        invariant 1 <= k <= |query| && Valid() && dtr.Valid() && itr.Valid()
        invariant Answers(TablesOf(words, query[..k]), finalDocidList)
      {
        ditr := itr.LookupWord(query[k]);
        if ditr == null {
          MissingWord(words, query, k);
          finalDocidList := [];
          break;
        }
        var curWordDocidList := ditr.GetDocIDList();
        CombinedAnswers(TablesOf(words, query[..k]), TableOf(words, query[k]), finalDocidList, curWordDocidList);
        TablesOfPrefix(words, query, k);
        finalDocidList := CombineDocIDList(finalDocidList, curWordDocidList);
        k := k + 1;
      }
      assert query[..|query|] == query;
      answer := finalDocidList;
      if |finalDocidList| != 0 {
        finalresult := AddQueryResult(dtr, finalDocidList, finalresult);
      }
    }
  }

  /** An index file that opens, and what its two tables store. */
  ghost predicate IndexFile(image: Image, validate: bool, names: Names, words: WordIndex) {
    && Accepts(image, validate)
    && StoresNames(image, INDEX_FILE_HEADER, names)
    && StoresWords(image, (INDEX_FILE_HEADER + U32(image, 8) as nat) % TWO32, words)
  }

  /** The readers of one index file. */
  ghost predicate Opened(dtr: DocTableReader, itr: IndexTableReader, f: DiskFile, names: Names, words: WordIndex)
    reads f`content
  {
    && dtr.table.file == f && dtr.Valid() && dtr.names == names
    && itr.table.file == f && itr.Valid() && itr.words == words
  }

  method OpenIndex(f: DiskFile, validate: bool, ghost names: Names, ghost words: WordIndex)
    returns (dtr: DocTableReader, itr: IndexTableReader)
    requires IndexFile(f.content, validate, names, words)
    modifies f`pos
    ensures Opened(dtr, itr, f, names, words)
  {
    hide DocTableReader.Valid, IndexTableReader.Valid, StoresNames, StoresWords, U32, HeaderFits;
    var fir := Open(f, validate);
    dtr := fir.GetDocTableReader(names);
    itr := fir.GetIndexTableReader(words);
  }

  ghost function Files(indexlist: seq<DiskFile>): (files: set<DiskFile>)
    ensures forall i :: 0 <= i < |indexlist| ==> indexlist[i] in files
  {
    set f | f in indexlist
  }

  /** The loop of the constructor. */
  method OpenAll(indexlist: seq<DiskFile>, validate: bool, ghost names: seq<Names>, ghost words: seq<WordIndex>)
    returns (dtrs: seq<DocTableReader>, itrs: seq<IndexTableReader>)
    requires |names| == |words| == |indexlist|
    requires forall i :: 0 <= i < |indexlist| ==> IndexFile(indexlist[i].content, validate, names[i], words[i])
    modifies Files(indexlist)`pos
    ensures |dtrs| == |itrs| == |indexlist|
    ensures forall k :: 0 <= k < |indexlist| ==> Opened(dtrs[k], itrs[k], indexlist[k], names[k], words[k])
  {
    hide IndexFile, Opened;
    dtrs, itrs := [], [];
    var i := 0;
    while i < |indexlist|
      invariant i <= |indexlist| && |dtrs| == |itrs| == i
      invariant forall k :: 0 <= k < i ==> Opened(dtrs[k], itrs[k], indexlist[k], names[k], words[k])
    {
      assert indexlist[i] in Files(indexlist);
      var dtr, itr := OpenIndex(indexlist[i], validate, names[i], words[i]);
      dtrs, itrs := dtrs + [dtr], itrs + [itr];
      i := i + 1;
    }
  }

  /** The named answers of several indices, one after the other. */
  ghost function AllNamed(names: seq<Names>, answers: seq<seq<SearchResult>>): seq<QueryResult>
    requires |names| == |answers|
  {
    if names == [] then []
    else AllNamed(names[..|names| - 1], answers[..|answers| - 1]) + Named(names[|names| - 1], answers[|answers| - 1])
  }

  lemma NamedOnce(names: seq<Names>, answers: seq<seq<SearchResult>>, name: Names, answer: seq<SearchResult>)
    requires |names| == |answers|
    ensures AllNamed(names + [name], answers + [answer]) == AllNamed(names, answers) + Named(name, answer)
  {
    hide Named;
    assert (names + [name])[..|names|] == names && (answers + [answer])[..|answers|] == answers;
  }

  lemma TablesOfPrefix(words: WordIndex, query: seq<Image>, k: nat)
    requires k < |query|
    ensures TablesOf(words, query[..k + 1]) == TablesOf(words, query[..k]) + [TableOf(words, query[k])]
    ensures TablesOf(words, query[..0]) == [] && [] + [TableOf(words, query[k])] == [TableOf(words, query[k])]
  {
    hide TableOf;
  }

  lemma MissingWord(words: WordIndex, query: seq<Image>, k: nat)
    requires k < |query| && query[k] !in words
    ensures Answers(TablesOf(words, query), [])
  {
    assert TablesOf(words, query)[k] == map[];
  }
}
