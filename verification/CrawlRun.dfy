/** CrawlFileTree of hw2/filecrawler.c: HandleFile on one file after the other, whatever their paths. */
module CrawlRuns {
  import opened Chains
  import opened Fnv
  import opened Words
  import opened FileParsers
  import opened MemIndexes
  import opened FileCrawlers
  import D = DocTables

  /** What the document table and the index store. */
  datatype Collection = Collection(names: seq<seq<byte>>, index: Index, spelling: Spellings)

  /** One more file that HandleFile does not stop at. */
  ghost function Handled(c: Collection, file: Document): Collection
    requires |c.names| + 1 < TWO64 && |file.text| < TWO32
  {
    if !Parsed(file.text) then c
    else
      var words := WordsOf(file.text);
      Collection(D.Registered(c.names, file.name), WithDocument(c.index, words, IdFor(c.names, file.name)),
                 WithSpellings(c.spelling, words))
  }

  /** HandleFile does not stop. */
  ghost predicate Passes(c: Collection, file: Document)
    requires |c.names| + 1 < TWO64 && |file.text| < TWO32
  {
    Parsed(file.text) ==> NewDocument(c.index, WordsOf(file.text), IdFor(c.names, file.name))
  }

  ghost function TotalSize(files: seq<Document>): (n: nat)
    ensures n >= |files|
  {
    if files == [] then 0 else TotalSize(files[..|files| - 1]) + |files[|files| - 1].text| + 1
  }

  ghost function AfterAll(files: seq<Document>): (c: Collection)
    requires TotalSize(files) < TWO32
    ensures |c.names| <= |files|
  {
    if files == [] then Collection([], map[], map[])
    else Handled(AfterAll(files[..|files| - 1]), files[|files| - 1])
  }

  /** No file of the run stops the program. */
  ghost predicate RunsThrough(files: seq<Document>)
    requires TotalSize(files) < TWO32
  {
    files == [] || (RunsThrough(files[..|files| - 1]) && Passes(AfterAll(files[..|files| - 1]), files[|files| - 1]))
  }

  lemma {:induction false} TotalPrefix(files: seq<Document>, i: nat)
    requires i < |files|
    ensures TotalSize(files[..i]) + |files[i].text| + 1 == TotalSize(files[..i + 1]) <= TotalSize(files)
    ensures files[..i + 1][..i] == files[..i]
    decreases |files|
  {
    var n := |files| - 1;
    assert files[..i + 1][..i] == files[..i];
    if i == n {
      assert files[..i + 1] == files;
    } else {
      TotalPrefix(files[..n], i);
      assert files[..n][..i] == files[..i] && files[..n][..i + 1] == files[..i + 1];
    }
  }

  lemma {:induction false} PrefixRuns(files: seq<Document>, i: nat)
    requires i <= |files| && TotalSize(files) < TWO32 && TotalSize(files[..i]) < TWO32 && RunsThrough(files)
    ensures RunsThrough(files[..i])
    decreases |files|
  {
    hide Passes, AfterAll;
    if i == |files| {
      assert files[..i] == files;
    } else {
      assert files[..|files| - 1][..i] == files[..i];
      PrefixRuns(files[..|files| - 1], i);
    }
  }

  // ---- The run ----

  ghost predicate Holds(doctable: D.DocTable, index: MemIndex, c: Collection)
    reads doctable, doctable.Repr, index, index.Repr
  {
    && doctable.Valid() && index.Valid() && doctable.Repr !! index.Repr
    && doctable.names == c.names && index.index == c.index && index.spelling == c.spelling
  }

  /** CrawlFileTree, with the files of the tree in the order in which it meets them: two empty
      tables, and HandleFile on one file after the other. */
  method CrawlFiles(files: seq<Document>) returns (doctable: D.DocTable, index: MemIndex, stopped: bool)
    requires TotalSize(files) < TWO32
    ensures fresh(doctable.Repr) && fresh(index.Repr)
    ensures stopped == !RunsThrough(files)
    ensures !stopped ==> Holds(doctable, index, AfterAll(files))
    ensures DistinctPaths(files) ==> !stopped && Crawled(doctable, index, Kept(files))
  {
    hide MemIndex.Valid, D.DocTable.Valid, Small, Hash, WordsOf, D.IdOf, Parsed, Kept, DistinctPaths, TotalSize, AfterAll, Handled,
      Passes, NewDocument, RunsThrough, Crawled;
    doctable := new D.DocTable();
    index := new MemIndex();
    NothingHandled();
    var i := 0;
    assert files[..0] == [];
    while i < |files|
      invariant i <= |files| && fresh(doctable.Repr) && fresh(index.Repr)
      invariant TotalSize(files[..i]) < TWO32 && RunsThrough(files[..i]) && Holds(doctable, index, AfterAll(files[..i]))
    {
      NextFile(files, i);
      var filecontent := ReadFile(files[i].text);
      ghost var parsed;
      parsed, stopped := HandleFile(files[i].name, filecontent, |files[i].text|, doctable, index);
      FileHandled(files, i);
      if stopped {
        if RunsThrough(files) {
          PrefixRuns(files, i + 1);
        }
        if DistinctPaths(files) {
          DistinctRuns(files);
        }
        return;
      }
      i := i + 1;
    }
    assert files[..i] == files;
    stopped := false;
    if DistinctPaths(files) {
      DistinctRuns(files);
      IsCrawled(doctable, index, files);
    }
  }

  lemma NothingHandled()
    ensures TotalSize([]) == 0 && RunsThrough([]) && AfterAll([]) == Collection([], map[], map[])
  {}

  /** ReadFile: the text with a terminator. */
  method ReadFile(text: seq<byte>) returns (filecontent: array<byte>)
    ensures fresh(filecontent) && filecontent.Length == |text| + 1 && filecontent[|text|] == 0
    ensures filecontent[..|text|] == text
  {
    filecontent := new byte[|text| + 1](k => if 0 <= k < |text| then text[k] else 0);
  }

  lemma WordCount(text: seq<byte>)
    requires |text| < TWO32
    ensures |WordsOf(text)| <= |text|
  {
    hide Hash, Runs, RecordAll;
    RunsInside(text, |text|);
    FewWords(WordsOf(text), text, |text|);
  }

  lemma OneMoreSize(index: Index, words: WordMap, id: uint64, n: nat)
    requires forall h :: h in index ==> |index[h]| <= n
    ensures |WithDocument(index, words, id)| <= |index| + |words|
    ensures forall h :: h in WithDocument(index, words, id) ==> |WithDocument(index, words, id)[h]| <= n + 1
  {
    var all := WithDocument(index, words, id);
    assert all.Keys == index.Keys + words.Keys;
    assert |all| == |all.Keys| && |index| == |index.Keys| && |words| == |words.Keys|;
  }

  lemma {:induction false} IndexSize(files: seq<Document>)
    requires TotalSize(files) < TWO32
    ensures |AfterAll(files).index| + |files| <= TotalSize(files)
    ensures forall h :: h in AfterAll(files).index ==> |AfterAll(files).index[h]| <= |files|
  {
    hide WordsOf, WithDocument, WithSpellings, D.Registered, IdFor, Parsed;
    if files != [] {
      var init, last := files[..|files| - 1], files[|files| - 1];
      IndexSize(init);
      WordCount(last.text);
      OneMoreSize(AfterAll(init).index, WordsOf(last.text), IdFor(AfterAll(init).names, last.name), |init|);
    }
  }

  /** Everything that HandleFile needs for the next file. */
  lemma NextFile(files: seq<Document>, i: nat)
    requires i < |files| && TotalSize(files) < TWO32
    ensures TotalSize(files[..i]) < TWO32 && TotalSize(files[..i + 1]) < TWO32 && |files[i].text| + 1 < TWO32
    ensures var c := AfterAll(files[..i]);
      |c.names| + 1 < TWO32 && Small(c.index, WordsOf(files[i].text))
  {
    hide WordsOf, AfterAll, TotalSize;
    TotalPrefix(files, i);
    SizeBound(files[..i]);
    IndexSize(files[..i]);
    WordCount(files[i].text);
  }

  lemma SizeBound(files: seq<Document>)
    requires TotalSize(files) < TWO32
    ensures |AfterAll(files).names| <= |files| <= TotalSize(files)
  {}

  lemma FileHandled(files: seq<Document>, i: nat)
    requires i < |files| && TotalSize(files) < TWO32
    ensures TotalSize(files[..i]) < TWO32 && TotalSize(files[..i + 1]) < TWO32 && |files[i].text| < TWO32
    ensures |AfterAll(files[..i]).names| + 1 < TWO64
    ensures var c, file := AfterAll(files[..i]), files[i];
      && AfterAll(files[..i + 1]) == (if !Parsed(file.text) then c
          else Collection(D.Registered(c.names, file.name), WithDocument(c.index, WordsOf(file.text), IdFor(c.names, file.name)),
                          WithSpellings(c.spelling, WordsOf(file.text))))
      && (RunsThrough(files[..i + 1]) <==>
          RunsThrough(files[..i]) && (Parsed(file.text) ==> NewDocument(c.index, WordsOf(file.text), IdFor(c.names, file.name))))
  {
    hide WordsOf, WithDocument, WithSpellings, D.Registered, IdFor, Parsed, NewDocument;
    TotalPrefix(files, i);
    SizeBound(files[..i]);
    assert files[..i + 1][i] == files[i];
  }

  // ---- When the program stops ----

  /** The id of a file of the run. */
  ghost function IdIn(files: seq<Document>, name: seq<byte>): nat
    requires TotalSize(files) < TWO32
  {
    D.IdOf(AfterAll(files).names, Hash(name))
  }

  /** The file with number i can be indexed and has the word hash. */
  ghost predicate HasWord(files: seq<Document>, i: nat, h: uint64)
    requires i < |files|
  {
    |files[i].text| < TWO32 && Parsed(files[i].text) && h in WordsOf(files[i].text)
  }

  lemma RegisteredId(names: seq<seq<byte>>, name: seq<byte>, h: uint64)
    ensures D.IdOf(D.Registered(names, name), h) ==
      if h == Hash(name) && D.IdOf(names, h) == 0 then |names| + 1 else D.IdOf(names, h)
    ensures D.IdOf(names, h) <= |names|
  {
    hide Hash;
  }

  lemma SameId(names: seq<seq<byte>>, g: uint64, h: uint64)
    requires D.IdOf(names, g) == D.IdOf(names, h) > 0
    ensures g == h
  {}

  /** Every file that can be indexed has an id, and files have the same one exactly if the hashes of
      their paths agree. */
  lemma {:induction false} HaveIds(files: seq<Document>, i: nat)
    requires TotalSize(files) < TWO32 && i < |files| && Parsed(files[i].text)
    ensures IdIn(files, files[i].name) > 0
    decreases |files|
  {
    hide Hash, D.IdOf, D.Registered, Parsed, WordsOf;
    var n := |files| - 1;
    TotalPrefix(files, n);
    var c, last := AfterAll(files[..n]), files[n];
    RegisteredId(c.names, last.name, Hash(files[i].name));
    if i < n {
      HaveIds(files[..n], i);
    }
  }

  /** An id that was given out stays. */
  lemma {:induction false} IdStays(files: seq<Document>, h: uint64)
    requires files != [] && TotalSize(files) < TWO32
    ensures var n := |files| - 1;
      TotalSize(files[..n]) < TWO32 && (D.IdOf(AfterAll(files[..n]).names, h) > 0 ==>
        D.IdOf(AfterAll(files).names, h) == D.IdOf(AfterAll(files[..n]).names, h))
  {
    hide Hash, D.IdOf, D.Registered, Parsed, WordsOf;
    var n := |files| - 1;
    TotalPrefix(files, n);
    RegisteredId(AfterAll(files[..n]).names, files[n].name, h);
  }

  /** The index has a document under a word hash exactly if a file with the id has the word. */
  ghost predicate Occurs(files: seq<Document>, h: uint64, d: uint64)
    requires TotalSize(files) < TWO32
  {
    exists i :: 0 <= i < |files| && HasWord(files, i, h) && d as nat == IdIn(files, files[i].name)
  }

  lemma {:induction false} RunIndexHolds(files: seq<Document>, h: uint64, d: uint64)
    requires TotalSize(files) < TWO32
    ensures var index := AfterAll(files).index;
      (h in index && d in index[h]) <==> Occurs(files, h, d)
    decreases |files|
  {
    hide Hash, D.IdOf, D.Registered, Parsed, WordsOf, IdIn, HasWord;
    if files != [] {
      var n := |files| - 1;
      var init, last := files[..n], files[n];
      TotalPrefix(files, n);
      RunIndexHolds(init, h, d);
      forall i | 0 <= i < n
        ensures HasWord(files, i, h) == HasWord(init, i, h)
        ensures HasWord(files, i, h) ==> IdIn(files, files[i].name) == IdIn(init, init[i].name)
      {
        KeepsId(files, i, h);
      }
      LastWord(files, h, d);
      assert Occurs(files, h, d) <==> Occurs(init, h, d) || (HasWord(files, n, h) && d as nat == IdIn(files, last.name));
    }
  }

  lemma KeepsId(files: seq<Document>, i: nat, h: uint64)
    requires TotalSize(files) < TWO32 && i < |files| - 1
    ensures var init := files[..|files| - 1];
      && TotalSize(init) < TWO32 && HasWord(files, i, h) == HasWord(init, i, h)
      && (HasWord(files, i, h) ==> IdIn(files, files[i].name) == IdIn(init, init[i].name))
  {
    hide Hash, D.IdOf, Parsed, WordsOf, AfterAll;
    TotalPrefix(files, |files| - 1);
    IdStays(files, Hash(files[i].name));
    if HasWord(files, i, h) {
      HaveIds(files[..|files| - 1], i);
    }
  }

  lemma LastWord(files: seq<Document>, h: uint64, d: uint64)
    requires TotalSize(files) < TWO32 && files != []
    ensures var n := |files| - 1;
      && TotalSize(files[..n]) < TWO32
      && var before, after := AfterAll(files[..n]).index, AfterAll(files).index;
      (h in after && d in after[h]) <==>
        (h in before && d in before[h]) || (HasWord(files, n, h) && d as nat == IdIn(files, files[n].name))
  {
    hide Hash, D.IdOf, D.Registered, Parsed, WordsOf, WithDocument, WithSpellings;
    var n := |files| - 1;
    TotalPrefix(files, n);
    var c, last := AfterAll(files[..n]), files[n];
    DocumentAdded(c.index, WordsOf(last.text), IdFor(c.names, last.name), h, d);
  }

  lemma DocumentAdded(index: Index, words: WordMap, id: uint64, h: uint64, d: uint64)
    ensures var all := WithDocument(index, words, id);
      (h in all && d in all[h]) <==> (h in index && d in index[h]) || (h in words && d == id)
  {}

  /** Two files of a run whose paths have the same hash and that can both be indexed share no word hash. */
  ghost predicate Apart(files: seq<Document>, i: nat, j: nat)
    requires i < |files| && j < |files|
  {
    Hash(files[i].name) == Hash(files[j].name) ==> forall h :: !(HasWord(files, i, h) && HasWord(files, j, h))
  }

  lemma PassesIff(files: seq<Document>)
    requires files != [] && TotalSize(files) < TWO32
    ensures var n := |files| - 1;
      && TotalSize(files[..n]) < TWO32 && |files[n].text| < TWO32
      && (Passes(AfterAll(files[..n]), files[n]) <==> forall i :: 0 <= i < n ==> Apart(files, i, n))
  {
    hide Hash, D.IdOf, D.Registered, Parsed, WordsOf, AfterAll, HasWord;
    var n := |files| - 1;
    var init, last := files[..n], files[n];
    TotalPrefix(files, n);
    var c := AfterAll(init);
    if Parsed(last.text) {
      var words, id := WordsOf(last.text), IdFor(c.names, last.name);
      forall h
        ensures (h in words && h in c.index && id in c.index[h]) <==> Clash(files, h)
      {
        ClashIff(files, h);
      }
      assert NewDocument(c.index, words, id) <==> forall h :: !Clash(files, h);
      ClashesOrApart(files, n);
    } else {
      NotParsedApart(files, n);
    }
  }

  ghost predicate Clash(files: seq<Document>, h: uint64)
    requires files != []
  {
    var n := |files| - 1;
    HasWord(files, n, h) && exists i :: 0 <= i < n && HasWord(files, i, h) && Hash(files[i].name) == Hash(files[n].name)
  }

  lemma ClashesOrApart(files: seq<Document>, n: nat)
    requires |files| == n + 1
    ensures (forall h :: !Clash(files, h)) <==> forall i :: 0 <= i < n ==> Apart(files, i, n)
  {
    hide Hash, HasWord;
    if forall h :: !Clash(files, h) {
      forall i | 0 <= i < n
        ensures Apart(files, i, n)
      {
        forall h
          ensures Hash(files[i].name) == Hash(files[n].name) ==> !(HasWord(files, i, h) && HasWord(files, n, h))
        {
          assert !Clash(files, h);
        }
      }
    }
    if forall i :: 0 <= i < n ==> Apart(files, i, n) {
      forall h
        ensures !Clash(files, h)
      {
        forall i | 0 <= i < n
          ensures !(HasWord(files, i, h) && HasWord(files, n, h) && Hash(files[i].name) == Hash(files[n].name))
        {
          assert Apart(files, i, n);
        }
      }
    }
  }

  lemma NotParsedApart(files: seq<Document>, n: nat)
    requires |files| == n + 1 && !Parsed(files[n].text)
    ensures forall i :: 0 <= i < n ==> Apart(files, i, n)
  {
    hide Hash, Parsed, WordsOf;
  }

  lemma ClashIff(files: seq<Document>, h: uint64)
    requires files != [] && TotalSize(files) < TWO32 && Parsed(files[|files| - 1].text)
    ensures var n := |files| - 1;
      && TotalSize(files[..n]) < TWO32 && |files[n].text| < TWO32
      && var c := AfterAll(files[..n]);
      (h in WordsOf(files[n].text) && h in c.index && IdFor(c.names, files[n].name) in c.index[h]) <==> Clash(files, h)
  {
    hide Hash, D.IdOf, D.Registered, Parsed, WordsOf, AfterAll, HasWord;
    var n := |files| - 1;
    var init, last := files[..n], files[n];
    TotalPrefix(files, n);
    SizeBound(init);
    var id := IdFor(AfterAll(init).names, last.name);
    RunIndexHolds(init, h, id);
    forall i | 0 <= i < n
      ensures HasWord(init, i, h) == HasWord(files, i, h)
      ensures HasWord(init, i, h) ==> (id as nat == IdIn(init, init[i].name) <==> Hash(files[i].name) == Hash(last.name))
    {
      KeepsId(files, i, h);
      if HasWord(init, i, h) {
        SharesId(init, i, h, last.name);
      }
    }
    LastHasWord(files, h);
  }

  lemma LastHasWord(files: seq<Document>, h: uint64)
    requires files != [] && TotalSize(files) < TWO32 && Parsed(files[|files| - 1].text)
    ensures |files[|files| - 1].text| < TWO32
    ensures HasWord(files, |files| - 1, h) <==> h in WordsOf(files[|files| - 1].text)
  {
    hide Parsed, WordsOf;
    TotalPrefix(files, |files| - 1);
  }

  /** The id that a name gets is that of a file of the run exactly if the hashes agree. */
  lemma SharesId(files: seq<Document>, i: nat, h: uint64, name: seq<byte>)
    requires TotalSize(files) < TWO32 && i < |files| && HasWord(files, i, h) && |AfterAll(files).names| + 1 < TWO64
    ensures IdFor(AfterAll(files).names, name) as nat == IdIn(files, files[i].name) <==> Hash(files[i].name) == Hash(name)
  {
    hide Hash, D.IdOf, D.Registered, Parsed, WordsOf, AfterAll;
    var names := AfterAll(files).names;
    HaveIds(files, i);
    RegisteredId(names, name, Hash(name));
    RegisteredId(names, name, Hash(files[i].name));
    if D.IdOf(names, Hash(name)) == D.IdOf(names, Hash(files[i].name)) {
      SameId(names, Hash(name), Hash(files[i].name));
    }
  }

  /** A run stops exactly if two of its files that can be indexed share a word hash although the
      hashes of their paths are the same. */
  lemma {:induction false} RunsThroughIff(files: seq<Document>)
    requires TotalSize(files) < TWO32
    ensures RunsThrough(files) <==> forall i, j :: 0 <= i < j < |files| ==> Apart(files, i, j)
    decreases |files|
  {
    hide Passes, AfterAll, Hash, HasWord;
    if files != [] {
      var n := |files| - 1;
      TotalPrefix(files, n);
      RunsThroughIff(files[..n]);
      PassesIff(files);
      forall i, j | 0 <= i < j < n
        ensures Apart(files, i, j) == Apart(files[..n], i, j)
      {
        SameFiles(files, n, i, j);
      }
    }
  }

  lemma SameFiles(files: seq<Document>, n: nat, i: nat, j: nat)
    requires n <= |files| && i < n && j < n
    ensures Apart(files, i, j) == Apart(files[..n], i, j)
  {
    hide Hash, Parsed, WordsOf;
    forall h
      ensures HasWord(files, i, h) == HasWord(files[..n], i, h) && HasWord(files, j, h) == HasWord(files[..n], j, h)
    {}
  }

  // ---- Paths with different hashes ----

  /** The files that HandleFile turns into documents. */
  ghost function Kept(files: seq<Document>): seq<Document> {
    if files == [] then []
    else
      var init, last := Kept(files[..|files| - 1]), files[|files| - 1];
      if Parsed(last.text) then init + [last] else init
  }

  ghost predicate DistinctPaths(files: seq<Document>) {
    forall i, j :: 0 <= i < j < |files| ==> Hash(files[i].name) != Hash(files[j].name)
  }

  lemma DistinctRuns(files: seq<Document>)
    requires DistinctPaths(files) && TotalSize(files) < TWO32
    ensures RunsThrough(files)
  {
    hide RunsThrough, Hash, HasWord;
    RunsThroughIff(files);
  }

  lemma {:induction false} KeptFiles(files: seq<Document>)
    ensures |Kept(files)| <= |files| && forall d :: d in Kept(files) ==> d in files
  {
    hide Parsed;
    if files != [] {
      KeptFiles(files[..|files| - 1]);
    }
  }

  lemma {:induction false} SmallTexts(files: seq<Document>, k: nat)
    requires TotalSize(files) < TWO32 && k < |files|
    ensures |files[k].text| < TWO32
  {
    TotalPrefix(files, k);
  }

  lemma KeptFit(files: seq<Document>)
    requires TotalSize(files) < TWO32
    ensures SizesFit(Kept(files)) && |Kept(files)| + 1 <= TWO32
  {
    hide Kept;
    KeptFiles(files);
    SizeBound(files);
    var kept := Kept(files);
    forall k | 0 <= k < |kept|
      ensures |kept[k].text| < TWO32
    {
      assert kept[k] in files;
      var i :| 0 <= i < |files| && files[i] == kept[k];
      SmallTexts(files, i);
    }
  }

  lemma NewPath(files: seq<Document>)
    requires DistinctPaths(files) && files != []
    ensures D.IdOf(NamesOf(Kept(files[..|files| - 1])), Hash(files[|files| - 1].name)) == 0
  {
    hide Hash, Kept, D.IdOf;
    var kept, last := Kept(files[..|files| - 1]), files[|files| - 1];
    D.NoneBefore(NamesOf(kept), Hash(last.name));
    KeptFiles(files[..|files| - 1]);
    forall k | 0 <= k < |kept|
      ensures Hash(NamesOf(kept)[k]) != Hash(last.name)
    {
      assert kept[k] in files[..|files| - 1];
    }
  }

  /** Then the ids are 1, 2, ... in the order of the files that can be indexed. */
  lemma {:induction false} DistinctCollection(files: seq<Document>)
    requires DistinctPaths(files) && TotalSize(files) < TWO32
    ensures SizesFit(Kept(files))
    ensures AfterAll(files) == Collection(NamesOf(Kept(files)), IndexOf(Kept(files)), SpellingsOf(Kept(files)))
    decreases |files|
  {
    hide Hash, D.IdOf, D.Registered, Parsed, WordsOf, WithDocument, WithSpellings, IndexOf, SpellingsOf, NamesOf, SizesFit;
    KeptFit(files);
    if files == [] {
      NothingCrawled();
    } else {
      var n := |files| - 1;
      TotalPrefix(files, n);
      KeptFit(files[..n]);
      DistinctCollection(files[..n]);
      NewPath(files);
      var docs := Kept(files[..n]);
      KeptFiles(files[..n]);
      SizeBound(files);
      NewName(docs, files[n].name);
      OneMoreDocument(docs, files[n]);
      assert Document(files[n].name, files[n].text) == files[n];
    }
  }

  lemma IsCrawled(doctable: D.DocTable, index: MemIndex, files: seq<Document>)
    requires DistinctPaths(files) && TotalSize(files) < TWO32 && Holds(doctable, index, AfterAll(files))
    ensures Crawled(doctable, index, Kept(files))
  {
    hide D.DocTable.Valid, MemIndex.Valid, AfterAll, DistinctPaths, Kept, IndexOf, SpellingsOf, NamesOf, SizesFit;
    DistinctCollection(files);
  }

  lemma NothingCrawled()
    ensures SizesFit([]) && NamesOf([]) == [] && IndexOf([]) == map[] && SpellingsOf([]) == map[]
  {}
}
