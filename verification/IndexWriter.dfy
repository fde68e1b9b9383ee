/** WriteHeader and WriteIndex of hw3/fileindexwriter.cc. */
module IndexWriters {
  import opened Chains
  import opened Fnv
  import opened Layouts
  import opened Crc32
  import opened HashTableReaders
  import opened DocTableReaders
  import opened IndexTableReaders
  import opened FileIndexReaders
  import opened QueryProcessors
  import opened FileIndexWriters
  import opened IndexRoundTrips
  import opened LinkedLists
  import opened HashTables
  import opened Queries
  import opened MemIndexes
  import opened Snapshots
  import opened DocIDTableReaders
  import opened Engines
  import D = DocTables

  /** WriteHeader: the checksum of everything behind the header, then the header. */
  method WriteHeader(f: DiskFile, doctSize: nat, memidxSize: nat) returns (res: nat)
    requires |f.content| == 16 + doctSize + memidxSize < TWO32
    modifies f
    ensures res == 16 && |f.content| == |old(f.content)| && f.content[16..] == old(f.content)[16..]
    ensures Accepts(f.content, true) && U32(f.content, 8) as nat == doctSize
    ensures f.history == old(f.history) + [f.content]
  {
    hide Checksum, Octets, Bytes, Overwritten, Accepts, U32;
    ghost var before := f.content;
    var crc := ChecksumTables(f, doctSize + memidxSize);
    f.Seek(0);
    f.Write(Bytes(MAGIC_NUMBER as nat, 4) + Bytes(crc as nat, 4) + Bytes(doctSize, 4) + Bytes(memidxSize, 4));
    HeaderThere(before, f.content, crc, doctSize, memidxSize);
    res := INDEX_FILE_HEADER;
  }

  /** The checksum loop of WriteHeader, one byte at a time. */
  method ChecksumTables(f: DiskFile, cslen: nat) returns (crc: bv32)
    requires |f.content| == 16 + cslen
    modifies f`pos
    ensures crc == Checksum(Octets(f.content[16..]))
  {
    hide Checksum, Octets, CRC32.Valid;
    var crcobj := new CRC32();
    f.Seek(INDEX_FILE_HEADER);
    NothingRead(f.content);
    var i := 0;
    while i < cslen
      invariant i <= cslen && f.pos == 16 + i
      invariant crcobj.Valid() && !crcobj.finalized && fresh(crcobj) && fresh(crcobj.table)
      invariant crcobj.fed == Octets(f.content[16..16 + i])
    {
      var curByte := f.Read(1);
      FoldBuffer(crcobj, curByte);
      OctetsAppend(f.content, 16 + i, 16 + i + 1);
      i := i + 1;
    }
    assert f.content[16..16 + i] == f.content[16..];
    crc := crcobj.GetFinalCRC();
  }

  lemma TwoHalves(d: Image, first: Image, second: Image)
    requires |first| == |second| == 8 && |d| >= 16 && d[0..16] == first + second
    ensures d[0..8] == first && d[8..16] == second
  {
    forall k | 0 <= k < 8
      ensures d[k] == first[k] && d[8 + k] == second[k]
    {
      assert d[0..16][k] == (first + second)[k] && d[0..16][8 + k] == (first + second)[8 + k];
    }
  }

  lemma TwoFields(d: Image, at: nat, a: nat, b: nat)
    requires a < TWO32 && b < TWO32 && at + 8 <= |d| && d[at..at + 8] == Bytes(a, 4) + Bytes(b, 4)
    ensures U32(d, at) as nat == a && U32(d, at + 4) as nat == b
  {
    hide Network, Bytes, Power256;
    Powers();
    FieldsWritten(d, at, a, 4, b, 4);
  }

  lemma HeaderThere(c: Image, d: Image, crc: bv32, doctSize: nat, memidxSize: nat)
    requires |c| == 16 + doctSize + memidxSize < TWO32 && crc == Checksum(Octets(c[16..]))
    requires d == Overwritten(c, 0, Bytes(MAGIC_NUMBER as nat, 4) + Bytes(crc as nat, 4) + Bytes(doctSize, 4) + Bytes(memidxSize, 4))
    ensures |d| == |c| && d[16..] == c[16..] && Accepts(d, true) && U32(d, 8) as nat == doctSize
  {
    hide Checksum, Octets, Bytes, Overwritten, U32;
    var first, second := Bytes(MAGIC_NUMBER as nat, 4) + Bytes(crc as nat, 4), Bytes(doctSize, 4) + Bytes(memidxSize, 4);
    HeaderLength(MAGIC_NUMBER as nat, crc as nat);
    HeaderLength(doctSize, memidxSize);
    assert first + second == first + Bytes(doctSize, 4) + Bytes(memidxSize, 4);
    BytesThere(c, 0, first + second);
    Overwrites(c, 0, first + second, 16, |c|);
    assert d[16..|d|] == d[16..] && c[16..|c|] == c[16..];
    TwoHalves(d, first, second);
    TwoFields(d, 0, MAGIC_NUMBER as nat, crc as nat);
    TwoFields(d, 8, doctSize, memidxSize);
  }

  /** The magic number is the commit record: of all the contents the file ever had, only the last
      one is accepted, with or without validation. */
  ghost predicate CommittedLast(f: DiskFile)
    reads f
  {
    && f.history != [] && f.history[|f.history| - 1] == f.content
    && forall k, validate :: 0 <= k < |f.history| ==> (Accepts(f.history[k], validate) <==> k == |f.history| - 1)
  }

  lemma StartsBlank(f: DiskFile)
    requires f.content == [] && f.history == [[]]
    ensures f.HeaderBlank()
  {}

  lemma NeverAccepted(f: DiskFile)
    requires f.HeaderBlank()
    ensures forall k, validate :: 0 <= k < |f.history| ==> !Accepts(f.history[k], validate)
  {
    hide Accepts, Blank;
    forall k, validate | 0 <= k < |f.history|
      ensures !Accepts(f.history[k], validate)
    {
      assert f.history[k] in f.history;
      BlankRejected(f.history[k], validate);
    }
  }

  lemma BlankRejected(c: Image, validate: bool)
    requires Blank(c)
    ensures !Accepts(c, validate)
  {
    hide Checksum, Octets, Body;
    if |c| >= 16 {
      assert c[0..4] == [0, 0, 0, 0];
      Numbers();
    }
  }

  /** A file that is accepted with validation is accepted without. */
  lemma AcceptedEitherWay(c: Image)
    requires Accepts(c, true)
    ensures forall validate :: Accepts(c, validate)
  {
    hide Checksum, Octets, Body, HeaderFits;
  }

  /** WriteIndex, on the chains of the two tables. */
  method WriteTables(dt: seq<Slots>, mi: seq<Slots>, ghost names: Names, ghost words: WordIndex)
    returns (f: DiskFile, filesize: nat)
    requires AllWritable(dt) && AllWritable(mi) && 16 + TableLen(dt) + TableLen(mi) < TWO32
    requires NameTable(dt, names) && WordTable(mi, words)
    ensures fresh(f) && filesize == |f.content| == 16 + TableLen(dt) + TableLen(mi)
    ensures IndexFile(f.content, true, names, words) <==> NamesFit(names) && WordsFit(words)
    ensures Accepts(f.content, true) && StoresNames(f.content, INDEX_FILE_HEADER, KeptNames(names)) && CommittedLast(f)
  {
    hide NamesFit, WordsFit, KeptNames, DiskFile.HeaderBlank, TableWritten, NameTable, WordTable, AllWritable, Accepts,
      StoresNames, StoresWords, U32, TableLen;
    f := new DiskFile([]);
    StartsBlank(f);
    var dtres := WriteHashTable(f, dt, INDEX_FILE_HEADER);
    ghost var c := f.content;
    var mires := WriteHashTable(f, mi, INDEX_FILE_HEADER + dtres);
    ghost var d := f.content;
    TableFrame(c, d, 16, dt);
    NeverAccepted(f);
    var hdres := WriteHeader(f, dtres, mires);
    ghost var e := f.content;
    Behind(d, e, 16, dtres);
    Behind(d, e, 16 + dtres, mires);
    TableFrame(d, e, 16, dt);
    TableFrame(d, e, 16 + dtres, mi);
    NamesStored(e, 16, dt, names);
    NamesStoredIff(e, 16, dt, names);
    WordsStoredIff(e, 16 + dtres, mi, words);
    AcceptedEitherWay(e);
    filesize := dtres + mires + hdres;
  }

  lemma Behind(d: Image, e: Image, at: nat, n: nat)
    requires |d| == |e| && 16 <= at && at + n <= |d| && d[16..] == e[16..]
    ensures Agree(d, e, at, at + n)
  {
    forall k | at <= k < at + n
      ensures d[k] == e[k]
    {
      assert d[16..][k - 16] == e[16..][k - 16];
    }
  }

  // ---- The in-memory tables ----

  /** A length that is not 0 in its 16-bit field. */
  ghost predicate Writes16(s: Image) {
    |s| % 65536 != 0
  }

  lemma NamesWritable(chains: seq<seq<KeyValue<Image>>>, names: Names)
    requires Holds(chains, names) && forall d :: d in names ==> Writes16(names[d])
    ensures AllWritable(NameSlots(chains))
  {
    hide Bucket;
    forall i, j | 0 <= i < |chains| && 0 <= j < |chains[i]|
      ensures Writable(NameSlots(chains)[i].entries[j])
    {
      assert chains[i][j] in chains[i];
    }
  }

  lemma PostingsWritable(chains: seq<seq<KeyValue<LinkedList<uint32>>>>, m: map<uint64, LinkedList<uint32>>, d: Postings)
    requires Holds(chains, m) && m.Keys == d.Keys && forall id :: id in d ==> 0 < |d[id]| < TWO32
    ensures AllWritable(PostingSlots(chains, d))
  {
    hide Bucket;
    forall i, j | 0 <= i < |chains| && 0 <= j < |chains[i]|
      ensures Writable(PostingSlots(chains, d)[i].entries[j])
    {
      assert chains[i][j] in chains[i];
    }
  }

  /** The writer does not stop: no length is 0 in its field, and every document of a word has a position of it. */
  ghost predicate Storable(index: Index, spelling: map<uint64, seq<byte>>) {
    && (forall h :: h in spelling ==> Writes16(spelling[h]))
    && (forall h, d :: h in index && d in index[h] ==> 0 < |index[h][d]| < TWO32)
  }

  lemma WordsWritable(mi: MemIndex)
    requires mi.Valid() && Storable(mi.index, mi.spelling)
    ensures AllWritable(WordSlots(mi.table.chains, mi.index))
  {
    hide MemIndex.Linked, HashTable.Valid, PostingSlots, PostingsLinked, Bucket, Writable, Spelled;
    WordChains(mi);
    var chains := mi.table.chains;
    forall i, j | 0 <= i < |chains| && 0 <= j < |chains[i]|
      ensures Writable(WordSlots(chains, mi.index)[i].entries[j])
    {
      assert chains[i][j] in chains[i];
      WordWritable(mi, chains[i][j]);
    }
  }

  lemma WordWritable(mi: MemIndex, e: KeyValue<WordDocSet>)
    requires mi.Valid() && Storable(mi.index, mi.spelling) && e.key in mi.table.m && mi.table.m[e.key] == e.value
    ensures Writable(WordOf(e, mi.index))
  {
    hide MemIndex.Linked, HashTable.Valid, LinkedList.Valid, PostingSlots, AllWritable, PostingsLinked, Spelled;
    mi.Parts();
    mi.WordTable(e.key);
    SpelledAs(mi.table.m, mi.spelling, e.key);
    ChainsHold(e.value.docIDs);
    PostingsWritable(e.value.docIDs.chains, e.value.docIDs.m, mi.index[e.key]);
  }

  lemma ChainsHold<V>(ht: HashTable<V>)
    requires ht.Valid()
    ensures Holds(ht.chains, ht.m)
  {
    hide HashTable.Shape;
  }

  lemma SpelledAs(m: map<uint64, WordDocSet>, spelling: map<uint64, seq<byte>>, h: uint64)
    requires Spelled(m, spelling) && h in m
    ensures h in spelling && m[h].word == spelling[h]
  {
    hide Hash;
  }

  /** The two tables and the header fit in a file of less than 4 GiB. */
  ghost predicate SizeFits(mi: MemIndex, dt: D.DocTable)
    requires mi.Valid() && dt.Valid()
    reads mi, mi.Repr, dt, dt.Repr
  {
    WordChains(mi);
    Inside(mi);
    16 + TableLen(NameSlots(dt.docidToDocname.chains)) + TableLen(WordSlots(mi.table.chains, mi.index)) < TWO32
  }

  lemma Inside(mi: MemIndex)
    requires mi.Valid()
    ensures forall i, o :: 0 <= i < |mi.table.chains| && o in Nested(mi.table.chains[i]) ==> o in mi.Repr
  {
    hide MemIndex.Linked, HashTable.Valid, LinkedList.Valid, PostingsLinked, Bucket, Spelled;
    WordChains(mi);
    mi.Parts();
    forall i, o | 0 <= i < |mi.table.chains| && o in Nested(mi.table.chains[i])
      ensures o in mi.Repr
    {
      var j :| 0 <= j < |mi.table.chains[i]| && mi.table.chains[i][j].value.docIDs == o;
      assert mi.table.chains[i][j] in mi.table.chains[i];
      mi.WordTable(mi.table.chains[i][j].key);
    }
  }

  /** The lengths of all names and words fit their 16-bit fields. */
  ghost predicate LengthsFit16(names: seq<Image>, spelling: map<uint64, seq<byte>>) {
    (forall n :: n in names ==> |n| < 65536) && forall h :: h in spelling ==> |spelling[h]| < 65536
  }

  /** WriteIndex: an index file that opens, and that holds what the document table and the index hold
      exactly if the length of every name and word fits its field. */
  method WriteIndex(mi: MemIndex, dt: D.DocTable) returns (f: DiskFile, filesize: nat)
    requires mi.Valid() && dt.Valid() && SizeFits(mi, dt)
    requires Storable(mi.index, mi.spelling) && forall n :: n in dt.names ==> Writes16(n)
    ensures fresh(f) && filesize == |f.content| < TWO32 && CommittedLast(f)
    ensures Accepts(f.content, true) && StoresNames(f.content, INDEX_FILE_HEADER, KeptNames(D.IdMap(dt.names)))
    ensures IndexFile(f.content, true, D.IdMap(dt.names), ByWord(mi.index, mi.spelling)) <==> LengthsFit16(dt.names, mi.spelling)
  {
    hide CommittedLast, Accepts, StoresNames, KeptNames, NamesFit, WordsFit, LengthsFit16, MemIndex.Valid, HashTable.Valid, TableLen,
      WordSlots, NameSlots, NameTable, WordTable, AllWritable, Storable, IndexFile,
      ByWord, D.IdMap, D.NameMap, D.DistinctHashes;
    NamesOfTable(dt);
    var names := TableChains(dt.docidToDocname);
    var words := TakeWords(mi);
    WordsWritable(mi);
    assert SizeFits(mi, dt);
    LengthsOf(mi, dt);
    f, filesize := WriteTables(NameSlots(names), words, D.IdMap(dt.names), ByWord(mi.index, mi.spelling));
  }

  lemma LengthsOf(mi: MemIndex, dt: D.DocTable)
    requires mi.Valid() && dt.Valid()
    ensures NamesFit(D.IdMap(dt.names)) && WordsFit(ByWord(mi.index, mi.spelling)) <==> LengthsFit16(dt.names, mi.spelling)
  {
    hide MemIndex.Linked, HashTable.Valid, D.IdMap, D.NameMap, D.DistinctHashes;
    mi.Parts();
    FewNames(dt);
    LengthsOfNames(dt.names);
    LengthsOfWords(mi.table.m, mi.index, mi.spelling);
  }

  lemma LengthsOfNames(names: seq<Image>)
    requires |names| < TWO32
    ensures NamesFit(D.IdMap(names)) <==> forall n :: n in names ==> |n| < 65536
  {
    hide D.IdMap;
    forall d | d in D.IdMap(names)
      ensures D.IdMap(names)[d] in names
    {
      D.IdLookup(names, d);
    }
    forall n | n in names
      ensures exists d :: d in D.IdMap(names) && D.IdMap(names)[d] == n
    {
      var i :| 0 <= i < |names| && names[i] == n;
      D.IdLookup(names, (i + 1) as uint64);
    }
  }

  lemma LengthsOfWords(m: map<uint64, WordDocSet>, index: Index, spelling: map<uint64, seq<byte>>)
    requires Spelled(m, spelling) && index.Keys == m.Keys
    ensures WordsFit(ByWord(index, spelling)) <==> forall h :: h in spelling ==> |spelling[h]| < 65536
  {
    hide Hash, ByWord;
    forall h | h in spelling
      ensures spelling[h] in ByWord(index, spelling)
    {
      SpelledWords(m, index, spelling, spelling[h]);
    }
    forall w | w in ByWord(index, spelling)
      ensures Hash(w) in spelling && spelling[Hash(w)] == w
    {
      SpelledWords(m, index, spelling, w);
    }
  }

  lemma NamesOfTable(dt: D.DocTable)
    requires dt.Valid() && forall n :: n in dt.names ==> Writes16(n)
    ensures dt.docidToDocname.Valid()
    ensures NameTable(NameSlots(dt.docidToDocname.chains), D.IdMap(dt.names)) && AllWritable(NameSlots(dt.docidToDocname.chains))
  {
    hide HashTable.Shape, NameTable, NameSlots, AllWritable, Writes16, D.IdMap, D.NameMap, D.DistinctHashes, Bucket;
    var chains, ids := dt.docidToDocname.chains, D.IdMap(dt.names);
    NamesHeld(chains, ids);
    forall d | d in ids
      ensures Writes16(ids[d])
    {
      D.IdLookup(dt.names, d);
    }
    NamesWritable(chains, ids);
  }

  /** The file holds the words of the index with their postings, and nothing else. */
  lemma WrittenContents(m: map<uint64, WordDocSet>, index: Index, spelling: map<uint64, seq<byte>>)
    requires Spelled(m, spelling) && index.Keys == m.Keys
    ensures SameContents(index, ByWord(index, spelling))
  {
    hide Hash, ByWord;
    var words := ByWord(index, spelling);
    forall w | w in words
      ensures Hash(w) in index && index[Hash(w)] == words[w]
    {
      SpelledWords(m, index, spelling, w);
    }
    forall h | h in index
      ensures exists w :: w in words && Hash(w) == h
    {
      SpelledWords(m, index, spelling, spelling[h]);
    }
  }

  /** Every document of the index has been given out as an id. */
  ghost predicate Registered(index: Index, n: nat) {
    forall h, d :: h in index && d in index[h] ==> 1 <= d as nat <= n
  }

  lemma RegisteredNames(index: Index, spelling: map<uint64, seq<byte>>, names: seq<seq<byte>>)
    requires Registered(index, |names|) && |names| < TWO64
    ensures AllRegistered(ByWord(index, spelling), D.IdMap(names))
  {
    hide Hash, D.IdMap;
    forall w, d | w in ByWord(index, spelling) && d in ByWord(index, spelling)[w]
      ensures d in D.IdMap(names)
    {
      D.IdLookup(names, d);
    }
  }

  /** Writing the index, opening the file and asking the query processor gives the documents and
      ranks of MIProcessQuery. */
  method WriteAndQuery(mi: MemIndex, dt: D.DocTable, query: seq<Image>)
    returns (inMemory: LinkedList?<SearchResult>, onDisk: seq<QueryResult>)
    requires mi.Valid() && dt.Valid() && SizeFits(mi, dt)
    requires Storable(mi.index, mi.spelling) && (forall n :: n in dt.names ==> Writes16(n)) && Registered(mi.index, |dt.names|)
    requires LengthsFit16(dt.names, mi.spelling)
    requires 0 < |query| < 256 && NoCollision(ByWord(mi.index, mi.spelling), query)
    ensures inMemory == null <==> onDisk == []
    ensures Answers(Tables(mi.index, query), if inMemory == null then [] else inMemory.contents)
    ensures inMemory != null ==>
      && fresh(inMemory) && multiset(onDisk) == multiset(Named(D.IdMap(dt.names), inMemory.contents))
      && BestFirst(inMemory.contents) && HighestFirst(onDisk)
  {
    hide MemIndex.Valid, D.DocTable.Valid, LinkedList.Valid, Storable, Writes16, LengthsFit16, Accepts, StoresNames,
      Registered, IndexFile, D.IdMap, ByWord, Spelled,
      QueryProcessor.Valid, Answers, Named, Tables, NoCollision, SameContents, AllRegistered, BestFirst, HighestFirst;
    FewNames(dt);
    ghost var names, words := D.IdMap(dt.names), ByWord(mi.index, mi.spelling);
    WordChains(mi);
    WrittenContents(mi.table.m, mi.index, mi.spelling);
    RegisteredNames(mi.index, mi.spelling, dt.names);
    var f, _ := WriteIndex(mi, dt);
    OneFile(f);
    var qp := new QueryProcessor([f], true, [names], [words]);
    inMemory, onDisk := QueryBoth(mi, qp, query);
  }

  lemma OneFile(f: DiskFile)
    ensures Files([f]) == {f}
  {
    assert [f][0] == f;
  }

  lemma FewNames(dt: D.DocTable)
    requires dt.Valid()
    ensures |dt.names| < TWO32
  {
    hide HashTable.Valid, D.IdMap, D.NameMap, D.DistinctHashes;
  }
}
