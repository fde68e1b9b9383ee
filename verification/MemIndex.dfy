/** hw2/memindex.c: the in-memory inverted index and its query engine. */
module MemIndexes {
  import opened Chains
  import opened StableSorts
  import opened LinkedLists
  import opened HashTables
  import opened Fnv
  import opened Queries

  /** WordDocSet: a word and its table from document ids to position lists. */
  datatype WordDocSet = WordDocSet(word: seq<byte>, docIDs: HashTable<LinkedList<uint32>>)

  /** What an index stores: by word hash, by document, the positions. */
  type Index = map<uint64, map<uint64, seq<uint32>>>

  /** The number of positions of the word with the hash, by document. */
  ghost function Counts(index: Index, h: uint64): Table {
    if h in index then map d | d in index[h] :: |index[h][d]| else map[]
  }

  /** The tables a query looks up. */
  ghost function Tables(index: Index, query: seq<seq<byte>>): seq<Table> {
    seq(|query|, i requires 0 <= i < |query| => Counts(index, Hash(query[i])))
  }

  /** The index with the positions of one word in one document added. */
  ghost function WithPosting(index: Index, h: uint64, docid: uint64, positions: seq<uint32>): Index {
    index[h := (if h in index then index[h] else map[])[docid := positions]]
  }

  ghost predicate AllOccur(index: Index) {
    forall h :: h in index ==> index[h] != map[]
  }

  lemma StillOccur(index: Index, h: uint64, docid: uint64, positions: seq<uint32>)
    requires AllOccur(index)
    ensures AllOccur(WithPosting(index, h, docid, positions))
  {
    var postings := (if h in index then index[h] else map[])[docid := positions];
    assert docid in postings;
  }

  /** MISearchListComparator. */
  function MISearchListComparator(e1: SearchResult, e2: SearchResult): int {
    if e1.rank > e2.rank then 1 else if e1.rank < e2.rank then -1 else 0
  }

  /** The table maps every document to its list of positions, all of them among the lists. */
  ghost predicate PostingsLinked(docIDs: HashTable<LinkedList<uint32>>, postings: map<uint64, seq<uint32>>, lists: set<object>)
    reads docIDs, docIDs.Repr, lists
  {
    && docIDs in docIDs.Repr && docIDs.Valid() && docIDs.m.Keys == postings.Keys
    && (forall d :: d in docIDs.m ==>
         var l := docIDs.m[d]; l in lists && l.Repr <= lists && l.Valid() && l.contents == postings[d])
  }

  lemma NoPostings(docIDs: HashTable<LinkedList<uint32>>, lists: set<object>)
    requires docIDs.Valid() && docIDs.m == map[]
    ensures docIDs in docIDs.Repr && PostingsLinked(docIDs, map[], lists)
  {}

  lemma MoreLists(docIDs: HashTable<LinkedList<uint32>>, postings: map<uint64, seq<uint32>>, some: set<object>, lists: set<object>)
    requires PostingsLinked(docIDs, postings, some) && some <= lists
    ensures PostingsLinked(docIDs, postings, lists)
  {
    hide HashTable.Valid, LinkedList.Valid;
  }

  /** Every word is kept in its own spelling, under its hash. */
  ghost predicate Spelled(m: map<uint64, WordDocSet>, spelling: map<uint64, seq<byte>>) {
    m.Keys == spelling.Keys && forall h :: h in m ==> m[h].word == spelling[h] && Hash(spelling[h]) == h
  }

  lemma OneMoreSpelling(before: map<uint64, WordDocSet>, m: map<uint64, WordDocSet>, spelling: map<uint64, seq<byte>>, word: seq<byte>)
    requires Spelled(before, spelling) && m.Keys == before.Keys + {Hash(word)} && m[Hash(word)].word == word && Hash(word) !in before
    requires forall h :: h in before ==> m[h] == before[h]
    ensures Spelled(m, spelling[Hash(word) := word])
  {
    hide Hash;
  }

  lemma KeyAdded<V>(m: map<uint64, V>, key: uint64, value: V)
    requires key !in m
    ensures m[key := value].Keys == m.Keys + {key} && forall k :: k in m ==> m[key := value][k] == m[k]
  {}

  lemma PostingAfterWord(index: Index, h: uint64, docid: uint64, positions: seq<uint32>)
    requires if h in index then |index[h]| + 1 < TWO32 else |index| + 1 < TWO32
    ensures var known := if h in index then index else index[h := map[]];
      && |known[h]| + 1 < TWO32 && (docid in known[h] <==> h in index && docid in index[h])
      && known[h := known[h][docid := positions]] == WithPosting(index, h, docid, positions)
  {}

  lemma SameSize<V, W>(m: map<uint64, V>, n: map<uint64, W>)
    requires m.Keys == n.Keys
    ensures |m| == |n|
  {
    assert |m| == |m.Keys| && |n| == |n.Keys|;
  }

  /** The insertion itself. */
  method InsertPosting(docIDs: HashTable<LinkedList<uint32>>, ghost postings: map<uint64, seq<uint32>>, ghost lists: set<object>,
                       docid: uint64, positions: LinkedList<uint32>)
    requires docIDs in docIDs.Repr && PostingsLinked(docIDs, postings, lists) && |postings| + 1 < TWO32 && docid !in postings
    requires lists !! docIDs.Repr && positions.Repr !! docIDs.Repr && positions.Valid()
    modifies docIDs.Repr
    ensures PostingsLinked(docIDs, postings[docid := positions.contents], lists + positions.Repr)
    ensures docIDs in docIDs.Repr && fresh(docIDs.Repr - old(docIDs.Repr))
  {
    hide HashTable.Valid, LinkedList.Valid;
    positions.InRepr();
    docIDs.SizeBound();
    SameSize(docIDs.m, postings);
    var res, _ := docIDs.Insert(KeyValue(docid, positions));
    assert res != 0;
  }

  class MemIndex {
    var table: HashTable<WordDocSet>
    ghost var index: Index
    ghost var spelling: map<uint64, seq<byte>>
    ghost var Repr: set<object>
    ghost var tables: set<object>
    ghost var lists: set<object>

    /** One table per indexed word and one list per posting. The tables share nothing with
        each other nor with the lists. Together they store `index`. */
    ghost predicate Linked()
      reads this, Repr
      ensures Linked() ==> this in Repr && table in Repr
    {
      && this in Repr && Repr == {this} + tables + lists && this !in tables && this !in lists && tables !! lists
      && table in tables && table.Repr <= tables && table.Valid()
      && index.Keys == table.m.Keys && Spelled(table.m, spelling)
      && (forall h :: h in table.m ==> table.m[h].docIDs in tables && Owned(table.m[h].docIDs))
      && (forall h :: h in table.m ==> PostingsLinked(table.m[h].docIDs, index[h], lists))
      && (forall h, g :: h in table.m && g in table.m && h != g ==> table.m[h].docIDs.Repr !! table.m[g].docIDs.Repr)
    }

    ghost predicate Owned(docIDs: HashTable<LinkedList<uint32>>)
      requires table in Repr
      reads this, docIDs, Repr
    {
      docIDs in docIDs.Repr && docIDs.Repr <= tables && docIDs.Repr !! table.Repr
    }

    /** An indexed word occurs somewhere. */
    ghost predicate Valid()
      reads this, Repr
      ensures Valid() ==> this in Repr
    {
      Linked() && AllOccur(index)
    }

    constructor ()
      ensures Valid() && fresh(Repr) && index == map[] && spelling == map[] && table.numBuckets == 128
    {
      hide Linked, HashTable.Valid;
      var mi := new HashTable<WordDocSet>(128);
      mi.InTable();
      table, index, spelling, Repr, tables, lists := mi, map[], map[], {this} + mi.Repr, mi.Repr, {};
      new;
      NothingLinked();
    }

    lemma NothingLinked()
      requires Repr == {this} + tables && tables == table.Repr && lists == {} && table in table.Repr && this !in tables
      requires table.Valid() && table.m == map[] && index == map[] && spelling == map[]
      ensures Linked()
    {
      hide HashTable.Valid, LinkedList.Valid;
    }

    /** docIDs is the table of the word with hash h, whose occurrences are counts. */
    ghost predicate Serves(docIDs: HashTable<LinkedList<uint32>>, h: uint64, counts: Table)
      requires Valid()
      reads this, Repr
    {
      h in index && h in table.m && docIDs == table.m[h].docIDs && counts == Counts(index, h)
    }

    lemma WordAt(docIDs: HashTable<LinkedList<uint32>>, h: uint64, counts: Table)
      requires Valid() && Serves(docIDs, h, counts)
      ensures this in Repr && table in Repr && docIDs.Valid() && docIDs.Repr <= Repr
      ensures docIDs.m.Keys == counts.Keys && docIDs.m != map[]
    {
      hide HashTable.Valid, LinkedList.Valid, Spelled;
      assert Owned(table.m[h].docIDs) && PostingsLinked(table.m[h].docIDs, index[h], lists);
    }

    lemma ListAt(docIDs: HashTable<LinkedList<uint32>>, h: uint64, counts: Table, d: uint64)
      requires Valid() && Serves(docIDs, h, counts) && d in counts && d in docIDs.m
      ensures var l := docIDs.m[d];
        l.Valid() && l.Repr <= Repr && |l.contents| == counts[d]
    {
      hide HashTable.Valid, LinkedList.Valid, Spelled;
      assert Owned(table.m[h].docIDs) && PostingsLinked(table.m[h].docIDs, index[h], lists);
    }

    /** The element counts stay within HWSize_t when a posting of the word with the hash is added. */
    ghost predicate RoomFor(h: uint64)
      reads this
    {
      if h in index then |index[h]| + 1 < TWO32 else |index| + 1 < TWO32
    }

    /** MIAddPostingList: the index gains one posting and keeps every other, and a new word its spelling.
        When the document is under the word already, the program stops (None). */
    method AddPostingList(word: seq<byte>, docid: uint64, positions: LinkedList<uint32>) returns (res: Option<int>)
      requires Valid() && RoomFor(Hash(word))
      requires positions.Valid() && positions.Repr !! Repr
      modifies Repr
      ensures Valid() && fresh(Repr - old(Repr) - positions.Repr)
      ensures res == if Hash(word) in old(index) && docid in old(index)[Hash(word)] then None else Some(1)
      ensures res == None ==> index == old(index) && spelling == old(spelling)
      ensures res != None ==> index == WithPosting(old(index), Hash(word), docid, positions.contents)
      ensures res != None ==>
        spelling == if Hash(word) in old(index) then old(spelling) else old(spelling)[Hash(word) := word]
    {
      hide Linked, AllOccur, HashTable.Valid, LinkedList.Valid, PostingsLinked, Spelled, WithPosting, Hash;
      Parts();
      PostingAfterWord(index, Hash(word), docid, positions.contents);
      StillOccur(index, Hash(word), docid, positions.contents);
      var wordkey := FNVHash64(word);
      var docIDs := TableFor(word, wordkey);
      res := AddUnlessThere(docIDs, wordkey, docid, positions);
    }

    /** The second half of MIAddPostingList, when the word has a table. */
    method AddUnlessThere(docIDs: HashTable<LinkedList<uint32>>, h: uint64, docid: uint64, positions: LinkedList<uint32>)
      returns (res: Option<int>)
      requires Linked() && h in index && h in table.m && docIDs == table.m[h].docIDs && |index[h]| + 1 < TWO32
      requires positions.Valid() && positions.Repr !! Repr
      modifies docIDs.Repr, this
      ensures Linked() && fresh(Repr - old(Repr) - positions.Repr) && spelling == old(spelling)
      ensures res == if docid in old(index)[h] then None else Some(1)
      ensures index == if res == None then old(index) else old(index)[h := old(index)[h][docid := positions.contents]]
    {
      hide Linked, HashTable.Valid, LinkedList.Valid, PostingsLinked, Spelled;
      WordTable(h);
      var hit, _ := docIDs.Lookup(docid);
      if hit != 0 {
        return None;
      }
      AddPosting(docIDs, h, docid, positions);
      return Some(1);
    }

    /** The table of a word, which is new if the word is. */
    method TableFor(word: seq<byte>, wordkey: uint64) returns (docIDs: HashTable<LinkedList<uint32>>)
      requires Linked() && wordkey == Hash(word) && RoomFor(wordkey)
      modifies table.Repr, this
      ensures Linked() && fresh(Repr - old(Repr)) && wordkey in table.m && docIDs == table.m[wordkey].docIDs
      ensures docIDs.Repr <= old(Repr) || fresh(docIDs.Repr)
      ensures index == if wordkey in old(index) then old(index) else old(index)[wordkey := map[]]
      ensures spelling == if wordkey in old(index) then old(spelling) else old(spelling)[wordkey := word]
    {
      hide Linked, HashTable.Valid, LinkedList.Valid, PostingsLinked, Spelled, Hash;
      Parts();
      var res, kv := table.Lookup(wordkey);
      if res == 0 {
        docIDs := AddWord(word, wordkey);
      } else {
        docIDs := kv.value.value.docIDs;
        WordTable(wordkey);
      }
    }

    /** The first time a word is seen, it gets a new, empty table. */
    method AddWord(word: seq<byte>, wordkey: uint64) returns (docIDs: HashTable<LinkedList<uint32>>)
      requires Linked() && wordkey == Hash(word) && wordkey !in index && |index| + 1 < TWO32
      modifies table.Repr, this
      ensures Linked() && fresh(Repr - old(Repr)) && index == old(index)[wordkey := map[]]
      ensures spelling == old(spelling)[wordkey := word]
      ensures wordkey in table.m && docIDs == table.m[wordkey].docIDs && fresh(docIDs.Repr)
    {
      hide Linked, HashTable.Valid, HashTable.Shape, LinkedList.Valid, PostingsLinked, Owned, Spelled, Hash;
      Parts();
      ghost var before := table.m;
      table.SizeBound();
      SameSize(before, index);
      docIDs := NewTable(word, wordkey);
      OneMoreSpelling(before, table.m, spelling, word);
      NoPostings(docIDs, lists);
      NoteWord(word, wordkey, docIDs);
      WordAdded(wordkey, docIDs);
    }

    ghost method NoteWord(word: seq<byte>, wordkey: uint64, docIDs: HashTable<LinkedList<uint32>>)
      modifies this
      ensures table == old(table) && lists == old(lists) && tables == old(tables) + table.Repr + docIDs.Repr
      ensures Repr == {this} + tables + lists
      ensures index == old(index)[wordkey := map[]] && spelling == old(spelling)[wordkey := word]
    {
      tables := tables + table.Repr + docIDs.Repr;
      Repr := {this} + tables + lists;
      index, spelling := index[wordkey := map[]], spelling[wordkey := word];
    }

    method NewTable(word: seq<byte>, wordkey: uint64) returns (docIDs: HashTable<LinkedList<uint32>>)
      requires table.Valid() && table.numElements + 1 < TWO32 && wordkey !in table.m && this !in table.Repr && table in table.Repr
      modifies table.Repr
      ensures table.Valid() && fresh(table.Repr - old(table.Repr)) && table in table.Repr
      ensures table.m.Keys == old(table.m).Keys + {wordkey} && table.m[wordkey] == WordDocSet(word, docIDs)
      ensures forall h :: h in old(table.m) ==> table.m[h] == old(table.m)[h]
      ensures docIDs.Valid() && docIDs.m == map[] && docIDs.numBuckets == 64
      ensures fresh(docIDs.Repr) && docIDs in docIDs.Repr && docIDs.Repr !! table.Repr
    {
      hide HashTable.Valid;
      docIDs := new HashTable<LinkedList<uint32>>(64);
      docIDs.InTable();
      InsertWord(wordkey, WordDocSet(word, docIDs));
    }

    method InsertWord(wordkey: uint64, wds: WordDocSet)
      requires table.Valid() && table.numElements + 1 < TWO32 && wordkey !in table.m && this !in table.Repr && table in table.Repr
      modifies table.Repr
      ensures table.Valid() && fresh(table.Repr - old(table.Repr)) && table in table.Repr
      ensures table.m.Keys == old(table.m).Keys + {wordkey} && table.m[wordkey] == wds
      ensures forall h :: h in old(table.m) ==> table.m[h] == old(table.m)[h]
    {
      hide HashTable.Valid;
      KeyAdded(table.m, wordkey, wds);
      var res, _ := table.Insert(KeyValue(wordkey, wds));
      assert res == 1;
      table.InTable();
    }

    twostate lemma WordAdded(wordkey: uint64, new docIDs: HashTable<LinkedList<uint32>>)
      requires old(Linked()) && wordkey !in old(table.m) && table == old(table) && index == old(index)[wordkey := map[]]
      requires table.Valid() && fresh(table.Repr - old(table.Repr))
      requires table.m.Keys == old(table.m).Keys + {wordkey} && table.m[wordkey].docIDs == docIDs && Spelled(table.m, spelling)
      requires forall h :: h in old(table.m) ==> table.m[h] == old(table.m)[h]
      requires PostingsLinked(docIDs, map[], lists) && fresh(docIDs.Repr) && docIDs in docIDs.Repr && docIDs.Repr !! table.Repr
      requires tables == old(tables) + table.Repr + docIDs.Repr && lists == old(lists) && Repr == {this} + tables + lists
      requires unchanged(old(tables) - old(table.Repr)) && unchanged(old(lists))
      ensures Linked()
    {
      hide HashTable.Valid, LinkedList.Valid, PostingsLinked, Spelled;
      forall h | h in old(table.m)
        ensures table.m[h].docIDs.Repr == old(table.m[h].docIDs.Repr) && table.m[h].docIDs in tables && Owned(table.m[h].docIDs)
        ensures PostingsLinked(table.m[h].docIDs, index[h], lists)
      {
        OldWordKept(h);
      }
    }

    /** The table of a word that was there before is as it was. */
    twostate lemma OldWordKept(h: uint64)
      requires old(Linked()) && h in old(table.m) && table == old(table) && table in Repr && h in table.m && table.m[h] == old(table.m)[h]
      requires lists == old(lists) && old(tables) <= tables && fresh(table.Repr - old(table.Repr))
      requires unchanged(old(tables) - old(table.Repr)) && unchanged(old(lists))
      ensures table.m[h].docIDs.Repr == old(table.m[h].docIDs.Repr) && table.m[h].docIDs in tables && Owned(table.m[h].docIDs)
      ensures PostingsLinked(table.m[h].docIDs, old(index)[h], lists)
    {
      hide HashTable.Valid, LinkedList.Valid, PostingsLinked, Spelled;
      assert old(Owned(table.m[h].docIDs)) && old(PostingsLinked(table.m[h].docIDs, index[h], lists));
    }

    /** One insertion into the table of a word. */
    method AddPosting(docIDs: HashTable<LinkedList<uint32>>, h: uint64, docid: uint64, positions: LinkedList<uint32>)
      requires Linked() && h in index && h in table.m && docIDs == table.m[h].docIDs && |index[h]| + 1 < TWO32
      requires positions.Valid() && positions.Repr !! Repr && docid !in index[h]
      modifies docIDs.Repr, this
      ensures Linked() && fresh(Repr - old(Repr) - positions.Repr)
      ensures index == old(index)[h := old(index)[h][docid := positions.contents]] && spelling == old(spelling)
    {
      hide Linked, HashTable.Valid, LinkedList.Valid, PostingsLinked, Spelled;
      Parts();
      WordTable(h);
      InsertPosting(docIDs, index[h], lists, docid, positions);
      tables := tables + docIDs.Repr;
      lists := lists + positions.Repr;
      Repr := {this} + tables + lists;
      index := index[h := index[h][docid := positions.contents]];
      PostingAdded(h, docIDs, positions.Repr);
    }

    twostate lemma PostingAdded(h: uint64, new docIDs: HashTable<LinkedList<uint32>>, new newList: set<object>)
      requires old(Linked()) && h in old(table.m) && docIDs == old(table.m[h].docIDs) && table == old(table)
      requires spelling == old(spelling) && table.m == old(table.m)
      requires index.Keys == old(index).Keys && forall g :: g in index && g != h ==> index[g] == old(index)[g]
      requires PostingsLinked(docIDs, index[h], lists) && docIDs in docIDs.Repr
      requires fresh(docIDs.Repr - old(table.m[h].docIDs.Repr))
      requires newList !! old(Repr) && newList !! docIDs.Repr
      requires tables == old(tables) + docIDs.Repr && lists == old(lists) + newList && Repr == {this} + tables + lists
      requires unchanged(old(tables) - old(table.m[h].docIDs.Repr)) && unchanged(old(lists))
      ensures Linked()
    {
      hide HashTable.Valid, LinkedList.Valid, PostingsLinked, Spelled;
      forall g | g in old(table.m) && g != h
        ensures PostingsLinked(old(table.m)[g].docIDs, old(index)[g], lists)
      {
        assert old(PostingsLinked(table.m[g].docIDs, index[g], lists));
        MoreLists(old(table.m)[g].docIDs, old(index)[g], old(lists), lists);
      }
    }

    /** How the objects are partitioned. */
    lemma Parts()
      requires Linked()
      ensures Repr == {this} + tables + lists && this !in tables && this !in lists && tables !! lists
      ensures table in tables && table in table.Repr && table.Repr <= tables && table.Valid() && index.Keys == table.m.Keys
      ensures Spelled(table.m, spelling)
    {
      hide LinkedList.Valid, PostingsLinked, Spelled;
    }

    lemma WordTable(h: uint64)
      requires Linked() && h in index
      ensures h in table.m
      ensures var docIDs := table.m[h].docIDs;
        && docIDs in docIDs.Repr && docIDs.Repr <= tables && docIDs.Repr !! table.Repr
        && docIDs.Valid() && docIDs.m.Keys == index[h].Keys && PostingsLinked(docIDs, index[h], lists)
    {
      hide HashTable.Valid, LinkedList.Valid, Spelled;
      assert Owned(table.m[h].docIDs) && PostingsLinked(table.m[h].docIDs, index[h], lists);
    }

    /** MIProcessQuery: NULL (null) when the query is empty or nothing matches, and otherwise
        every document that has all the words, once, with its rank, best ranks first. */
    method ProcessQuery(query: seq<seq<byte>>) returns (retlist: LinkedList?<SearchResult>)
      requires Valid() && |query| < 256
      ensures retlist == null <==> query == [] || forall d :: !Matches(Tables(index, query), d)
      ensures retlist != null ==> fresh(retlist.Repr) && retlist.Valid()
      ensures retlist != null ==> Answers(Tables(index, query), retlist.contents) && BestFirst(retlist.contents)
    {
      hide Valid, LinkedList.Valid, HashTable.Valid, Answers, Hash, Counts, Matches;
      if |query| == 0 {
        return null;
      }
      var wordkey := FNVHash64(query[0]);
      var docIDs := LookupWord(wordkey);
      if docIDs == null {
        MissingWord(index, query, 0);
        return null;
      }
      var results := CollectFirst(docIDs, wordkey, Counts(index, wordkey));
      TablesOfPrefix(index, query, 0);
      assert Tables(index, query[..0]) == [] && Tables(index, query[..1]) == [Counts(index, wordkey)];
      var i := 1;
      while i < |query|
        invariant 1 <= i <= |query| && results.Valid() && fresh(results.Repr) && results.contents != []
        invariant Answers(Tables(index, query[..i]), results.contents)
      {
        wordkey := FNVHash64(query[i]);
        docIDs := LookupWord(wordkey);
        if docIDs == null {
          MissingWord(index, query, i);
          return null;
        }
        KeepAnswers(Tables(index, query[..i]), Counts(index, wordkey), results.contents);
        TablesOfPrefix(index, query, i);
        IntersectWith(results, docIDs, wordkey, Counts(index, wordkey));
        i := i + 1;
        var ne := results.NumElements();
        if ne == 0 {
          NoneLeft(index, query, i);
          return null;
        }
      }
      assert query[..i] == query;
      SortByRank(results, Tables(index, query));
      EmptyAnswer(Tables(index, query), results.contents);
      return results;
    }

    /** The lookup of one query word. */
    method LookupWord(wordkey: uint64) returns (docIDs: HashTable?<LinkedList<uint32>>)
      requires Valid()
      ensures (docIDs != null) == (wordkey in index)
      ensures docIDs != null ==> wordkey in table.m && docIDs == table.m[wordkey].docIDs
    {
      hide HashTable.Valid, LinkedList.Valid, PostingsLinked, Spelled;
      var res, kv := table.Lookup(wordkey);
      if res == 0 {
        return null;
      }
      return kv.value.value.docIDs;
    }

    /** One result per document of the first word. */
    method CollectFirst(docIDs: HashTable<LinkedList<uint32>>, ghost h: uint64, ghost counts: Table) returns (retlist: LinkedList<SearchResult>)
      requires Valid() && Serves(docIDs, h, counts)
      ensures retlist.Valid() && fresh(retlist.Repr) && retlist.contents != []
      ensures Answers([counts], retlist.contents)
    {
      hide Valid, Serves, HashTable.Valid, LinkedList.Valid, HTIter.Valid, HTIter.Remaining, HashTable.Items, Lists, Answers, Spelled;
      WordAt(docIDs, h, counts);
      retlist := new LinkedList<SearchResult>();
      var it := new HTIter(docIDs);
      ghost var all := docIDs.Items();
      docIDs.ItemsListMap();
      ItemsInDomain(all, docIDs.m);
      CollectAll(docIDs, h, counts, it, retlist, all);
      ListedAnswers(counts, all, docIDs.m);
    }

    method CollectAll(docIDs: HashTable<LinkedList<uint32>>, ghost h: uint64, ghost counts: Table,
                      it: HTIter<LinkedList<uint32>>, retlist: LinkedList<SearchResult>,
                      ghost all: seq<KeyValue<LinkedList<uint32>>>)
      requires Valid() && Serves(docIDs, h, counts)
      requires it.Valid() && it.ht == docIDs && retlist.Valid() && retlist.contents == []
      requires {it, it.bucketIt} !! Repr && retlist.Repr !! Repr && it !in retlist.Repr && it.bucketIt !in retlist.Repr
      requires it.Remaining() == all
      requires forall e :: e in all ==> e.key in docIDs.m && docIDs.m[e.key] == e.value && e.key in counts
      modifies retlist.Repr, it, it.bucketIt
      ensures retlist.Valid() && fresh(retlist.Repr - old(retlist.Repr))
      ensures retlist.contents == Listed(counts, all)
    {
      hide Valid, Serves, HashTable.Valid, LinkedList.Valid, HTIter.Valid, HTIter.Remaining, Listed, Spelled;
      WordAt(docIDs, h, counts);
      ghost var k := 0;
      NothingListed(counts, all);
      var pastEnd := it.PastEnd();
      while !pastEnd
        invariant Valid() && Serves(docIDs, h, counts) && it.Valid() && it.ht == docIDs
        invariant it.bucketIt == old(it.bucketIt) || (it.bucketIt != null && fresh(it.bucketIt))
        invariant retlist.Valid() && fresh(retlist.Repr - old(retlist.Repr))
        invariant {it, it.bucketIt} !! Repr && retlist.Repr !! Repr && it !in retlist.Repr && it.bucketIt !in retlist.Repr
        invariant k <= |all| && it.Remaining() == all[k..] && pastEnd == (k == |all|)
        invariant retlist.contents == Listed(counts, all[..k])
        decreases |all| - k
      {
        CollectNext(docIDs, h, counts, it, retlist, all, k);
        k := k + 1;
        pastEnd := it.PastEnd();
      }
      assert all[..k] == all;
    }

    method CollectNext(docIDs: HashTable<LinkedList<uint32>>, ghost h: uint64, ghost counts: Table,
                       it: HTIter<LinkedList<uint32>>, retlist: LinkedList<SearchResult>,
                       ghost all: seq<KeyValue<LinkedList<uint32>>>, ghost k: nat)
      requires Valid() && Serves(docIDs, h, counts)
      requires it.Valid() && it.ht == docIDs && retlist.Valid()
      requires {it, it.bucketIt} !! Repr && retlist.Repr !! Repr && it !in retlist.Repr && it.bucketIt !in retlist.Repr
      requires k < |all| && it.Remaining() == all[k..]
      requires forall e :: e in all ==> e.key in docIDs.m && docIDs.m[e.key] == e.value && e.key in counts
      requires retlist.contents == Listed(counts, all[..k])
      modifies retlist.Repr, it, it.bucketIt
      ensures retlist.Valid() && fresh(retlist.Repr - old(retlist.Repr))
      ensures it.Valid() && (it.bucketIt == old(it.bucketIt) || (it.bucketIt != null && fresh(it.bucketIt)))
      ensures it.bucketIt !in retlist.Repr
      ensures it.Remaining() == all[k + 1..]
      ensures retlist.contents == Listed(counts, all[..k + 1])
    {
      hide Valid, Serves, HashTable.Valid, LinkedList.Valid, HTIter.Valid, HTIter.Remaining, Add32, Spelled;
      WordAt(docIDs, h, counts);
      var _, kv := it.Get();
      assert kv.value == all[k] && all[k] in all;
      ListAt(docIDs, h, counts, kv.value.key);
      var n := kv.value.value.NumElements();
      retlist.Append(SearchResult(kv.value.key, Add32(0, n)));
      assert all[..k + 1][..k] == all[..k];
      var _ := it.Next();
    }

    /** The loop over the current results: each result in turn is raised in place or deleted. */
    method IntersectWith(retlist: LinkedList<SearchResult>, docIDs: HashTable<LinkedList<uint32>>,
                         ghost h: uint64, ghost counts: Table)
      requires Valid() && Serves(docIDs, h, counts)
      requires retlist.Valid() && retlist.Repr !! Repr && retlist.contents != []
      modifies retlist.Repr
      ensures retlist.Valid() && retlist.Repr == old(retlist.Repr)
      ensures retlist.contents == Keep(counts, old(retlist.contents))
    {
      hide Valid, Serves, LinkedList.Valid, LLIter.Valid, HashTable.Valid, Keep, Add32;
      ghost var orig := retlist.contents;
      NothingKept(counts);
      WordAt(docIDs, h, counts);
      var llit := new LLIter(retlist, false);
      var ne := retlist.NumElements();
      var j := 0;
      assert orig[0..] == orig && orig[..0] == [];
      while j < ne
        invariant Valid() && retlist.Valid() && retlist.Repr == old(retlist.Repr)
        invariant llit.list == retlist && fresh(llit)
        invariant j <= ne == |orig| && retlist.contents == Keep(counts, orig[..j]) + orig[j..]
        invariant j < ne ==> llit.Valid() && llit.pos == |Keep(counts, orig[..j])|
      {
        IntersectNext(llit, docIDs, h, counts, orig, j);
        j := j + 1;
      }
      assert orig[..j] == orig && orig[j..] == [];
    }

    /** Iteration j looks at original result j. */
    method IntersectNext(llit: LLIter<SearchResult>, docIDs: HashTable<LinkedList<uint32>>,
                         ghost h: uint64, ghost counts: Table, ghost orig: seq<SearchResult>, ghost j: nat)
      requires Valid() && Serves(docIDs, h, counts) && j < |orig|
      requires llit.Valid() && llit !in Repr && llit.list.Repr !! Repr
      requires llit.list.contents == Keep(counts, orig[..j]) + orig[j..] && llit.pos == |Keep(counts, orig[..j])|
      modifies llit, llit.list.Repr
      ensures llit.list.Valid() && llit.list.Repr == old(llit.list.Repr)
      ensures llit.list.contents == Keep(counts, orig[..j + 1]) + orig[j + 1..]
      ensures j + 1 < |orig| ==> llit.Valid() && llit.pos == |Keep(counts, orig[..j + 1])|
    {
      hide Valid, Serves, LinkedList.Valid, LLIter.Valid, Keep, Add32;
      KeepNext(counts, orig, j);
      RaiseOrDelete(llit, docIDs, h, counts);
    }

    method RaiseOrDelete(llit: LLIter<SearchResult>, docIDs: HashTable<LinkedList<uint32>>,
                         ghost h: uint64, ghost counts: Table)
      requires Valid() && Serves(docIDs, h, counts)
      requires llit.Valid() && llit !in Repr && llit.list.Repr !! Repr
      modifies llit, llit.list.Repr
      ensures llit.list.Valid() && llit.list.Repr == old(llit.list.Repr)
      ensures var c, p := old(llit.list.contents), old(llit.pos);
        && p < |c|
        && llit.list.contents == c[..p]
             + (if c[p].docid in counts then [SearchResult(c[p].docid, Add32(c[p].rank, counts[c[p].docid]))] else [])
             + c[p + 1..]
        && (p + 1 < |c| ==> llit.Valid() && llit.pos == p + (if c[p].docid in counts then 1 else 0))
    {
      hide Valid, Serves, LinkedList.Valid, LLIter.Valid, HashTable.Valid, Add32;
      WordAt(docIDs, h, counts);
      llit.InRange();
      var sr := llit.GetPayload();
      var res, kv := docIDs.Lookup(sr.docid);
      if res == 0 {
        var _ := llit.Delete();
      } else {
        ListAt(docIDs, h, counts, sr.docid);
        var num := kv.value.value.NumElements();
        llit.SetPayload(SearchResult(sr.docid, Add32(sr.rank, num)));
        var _ := llit.Next();
      }
    }
  }

  method SortByRank(results: LinkedList<SearchResult>, ghost tables: seq<Table>)
    requires results.Valid() && Answers(tables, results.contents)
    modifies results.Repr
    ensures results.Valid() && results.Repr == old(results.Repr)
    ensures Answers(tables, results.contents) && BestFirst(results.contents)
    ensures |results.contents| == |old(results.contents)|
  {
    hide LinkedList.Valid, Answers;
    ghost var before := results.contents;
    results.Sort(false, MISearchListComparator);
    SortPermutes(MISearchListComparator, false, before);
    SortSorts(MISearchListComparator, false, before);
    PermutedAnswers(tables, before, results.contents);
  }

  /** The first results: every listed document, ranked by the first word alone. */
  ghost function Listed<V>(counts: Table, items: seq<KeyValue<V>>): seq<SearchResult>
    requires forall e :: e in items ==> e.key in counts
  {
    if items == [] then []
    else var last := items[|items| - 1];
      Listed(counts, items[..|items| - 1]) + [SearchResult(last.key, Add32(0, counts[last.key]))]
  }

  lemma NothingListed<V>(counts: Table, all: seq<KeyValue<V>>)
    requires forall e :: e in all ==> e.key in counts
    ensures all[0..] == all && all[..0] == [] && Listed(counts, all[..0]) == []
  {}

  lemma ItemsInDomain<V>(items: seq<KeyValue<V>>, m: map<uint64, V>)
    requires Lists(items, m)
    ensures forall e :: e in items ==> e.key in m && m[e.key] == e.value
  {}

  lemma {:induction false} ListedAt<V>(counts: Table, items: seq<KeyValue<V>>)
    requires forall e :: e in items ==> e.key in counts
    ensures |Listed(counts, items)| == |items|
    ensures forall i :: 0 <= i < |items| ==>
      Listed(counts, items)[i] == SearchResult(items[i].key, Add32(0, counts[items[i].key]))
  {
    if items != [] {
      ListedAt(counts, items[..|items| - 1]);
    }
  }

  lemma ListedAnswers<V>(counts: Table, items: seq<KeyValue<V>>, m: map<uint64, V>)
    requires Lists(items, m) && m.Keys == counts.Keys
    requires forall e :: e in items ==> e.key in counts
    ensures Answers([counts], Listed(counts, items))
    ensures m != map[] ==> Listed(counts, items) != []
  {
    hide Rank, Matches, Listed, Add32;
    var l := Listed(counts, items);
    ListedAt(counts, items);
    forall r | r in l
      ensures Matches([counts], r.docid) && r.rank == Rank([counts], r.docid)
    {
      OneTable(counts, r.docid);
    }
    forall d | Matches([counts], d)
      ensures SearchResult(d, Rank([counts], d)) in l
    {
      OneTable(counts, d);
      var i :| 0 <= i < |items| && items[i] == KeyValue(d, m[d]);
      assert l[i].docid == d;
    }
    if m != map[] {
      var d :| d in m;
      assert KeyValue(d, m[d]) in items;
    }
  }

  lemma OneTable(counts: Table, d: uint64)
    ensures Matches([counts], d) <==> d in counts
    ensures d in counts ==> Rank([counts], d) == Add32(0, counts[d])
  {
    assert [counts][..0] == [] && [counts][0] == counts;
    if d in counts {
      assert Occurrences([counts], d) == counts[d] + Occurrences([], d);
    }
  }

  lemma NothingKept(counts: Table)
    ensures Keep(counts, []) == []
  {}

  lemma KeepNext(counts: Table, orig: seq<SearchResult>, j: nat)
    requires j < |orig|
    ensures var kept, last := Keep(counts, orig[..j]), orig[j];
      && (kept + orig[j..])[..|kept|] == kept && (kept + orig[j..])[|kept|] == last
      && (kept + orig[j..])[|kept| + 1..] == orig[j + 1..]
      && Keep(counts, orig[..j + 1])
         == kept + if last.docid in counts then [SearchResult(last.docid, Add32(last.rank, counts[last.docid]))] else []
  {
    assert orig[..j + 1][..j] == orig[..j];
  }

  lemma TablesOfPrefix(index: Index, query: seq<seq<byte>>, i: nat)
    requires i < |query|
    ensures Tables(index, query[..i + 1]) == Tables(index, query[..i]) + [Counts(index, Hash(query[i]))]
  {
    hide Hash, Counts;
  }

  lemma MissingWord(index: Index, query: seq<seq<byte>>, i: nat)
    requires i < |query| && Hash(query[i]) !in index
    ensures forall d :: !Matches(Tables(index, query), d)
  {
    hide Hash;
    assert Tables(index, query)[i] == map[];
  }

  lemma NoneLeft(index: Index, query: seq<seq<byte>>, i: nat)
    requires i <= |query| && Answers(Tables(index, query[..i]), [])
    ensures forall d :: !Matches(Tables(index, query), d)
  {
    hide Hash, Counts;
    var some, all := Tables(index, query[..i]), Tables(index, query);
    assert forall k :: 0 <= k < i ==> some[k] == all[k];
    assert forall d :: Matches(all, d) ==> Matches(some, d);
  }
}
