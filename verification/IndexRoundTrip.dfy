/** What hw3/fileindexwriter.cc writes, the readers of hw3 read back. */
module IndexRoundTrips {
  import opened Chains
  import opened Fnv
  import opened Layouts
  import opened HashTableReaders
  import opened DocIDTableReaders
  import opened DocTableReaders
  import opened IndexTableReaders
  import opened FileIndexWriters

  // ---- A written table is well formed ----

  /** The readers see the chains that were written. */
  ghost predicate ChainStored(c: Image, at: nat, t: seq<Slots>, i: nat)
    requires i < |t|
  {
    && TableFits(c, at) && NumBuckets(c, at) == |t| && |Chain(c, at, i)| == |t[i].entries|
    && forall j :: 0 <= j < |t[i].entries| ==> EntryWritten(c, Chain(c, at, i)[j] as nat, t[i].entries[j])
  }

  lemma RecordAt(c: Image, at: nat, t: seq<Slots>, i: nat)
    requires TableWritten(c, at, t) && i < |t|
    ensures at + 4 + 8 * i + 8 <= |c| && ChainLen(c, at, i) == |t[i].entries|
    ensures ChainPos(c, at, i) == BucketPos(t, at, i) && ChainPos(c, at, i) + 4 * ChainLen(c, at, i) <= |c|
    ensures t[i].entries != [] ==> BucketWritten(c, BucketPos(t, at, i), t[i])
  {
    hide U32, BucketWritten, BucketPos;
    assert RecordWritten(c, at, t, i);
    BucketInside(t, at, i);
  }

  lemma WrittenFits(c: Image, at: nat, t: seq<Slots>)
    requires TableWritten(c, at, t) && t != [] && |c| < TWO32
    ensures TableFits(c, at) && NumBuckets(c, at) == |t|
  {
    hide U32, ChainLen, ChainPos, RecordWritten;
    forall i | 0 <= i < |t|
      ensures ChainLen(c, at, i) == 0 || ChainPos(c, at, i) + 4 * ChainLen(c, at, i) <= |c|
    {
      RecordAt(c, at, t, i);
    }
  }

  lemma WrittenChain(c: Image, at: nat, t: seq<Slots>, i: nat)
    requires TableWritten(c, at, t) && i < |t| && |c| < TWO32
    ensures ChainStored(c, at, t, i)
  {
    hide U32, TableFits, TableWritten, BucketPos, ElementPos, EntryWritten;
    WrittenFits(c, at, t);
    RecordAt(c, at, t, i);
    ChainAtRecord(c, at, i);
    forall j | 0 <= j < |t[i].entries|
      ensures EntryWritten(c, Chain(c, at, i)[j] as nat, t[i].entries[j])
    {
      assert SlotWritten(c, BucketPos(t, at, i), t[i], j);
    }
  }

  lemma ChainAtRecord(c: Image, at: nat, i: nat)
    requires TableFits(c, at) && i < NumBuckets(c, at)
    ensures forall j :: 0 <= j < |Chain(c, at, i)| ==>
      ChainPos(c, at, i) + 4 * j + 4 <= |c| && Chain(c, at, i)[j] == U32(c, ChainPos(c, at, i) + 4 * j)
  {
    hide U32;
    assert ChainLen(c, at, i) == 0 || ChainPos(c, at, i) + 4 * ChainLen(c, at, i) <= |c|;
  }

  // ---- Document names ----

  /** The chains hold exactly the names, each in the bucket of its id. */
  ghost predicate NameTable(t: seq<Slots>, names: Names) {
    && t != []
    && (forall i, j :: 0 <= i < |t| && 0 <= j < |t[i].entries| ==> NameEntry(t[i].entries[j], names, i, |t|))
    && (forall d :: d in names ==> exists j :: 0 <= j < |t[Bucket(d, |t|)].entries| && t[Bucket(d, |t|)].entries[j] == Name(d, names[d]))
  }

  ghost predicate NameEntry(e: Entry, names: Names, i: nat, n: nat)
    requires n > 0
  {
    e.Name? && e.docid in names && names[e.docid] == e.name && Bucket(e.docid, n) == i
  }

  /** What the 16-bit lengths keep of the names. */
  ghost function KeptNames(names: Names): Names {
    map d | d in names :: Kept16(names[d])
  }

  ghost predicate NamesFit(names: Names) {
    forall d :: d in names ==> |names[d]| < 65536
  }

  lemma NamesStored(c: Image, at: nat, t: seq<Slots>, names: Names)
    requires TableWritten(c, at, t) && NameTable(t, names) && |c| < TWO32
    ensures StoresNames(c, at, KeptNames(names))
  {
    hide U16, U64, TableFits, TableWritten, Chain, Bucket, Kept16;
    WrittenFits(c, at, t);
    forall i, j | 0 <= i < |t| && 0 <= j < |Chain(c, at, i)|
      ensures HoldsName(c, Chain(c, at, i)[j] as nat, KeptNames(names), i, |t|)
    {
      WrittenChain(c, at, t, i);
      assert NameEntry(t[i].entries[j], names, i, |t|);
      NameThere(c, Chain(c, at, i)[j] as nat, t[i].entries[j]);
    }
    forall d | d in KeptNames(names)
      ensures HasDoc(c, Chain(c, at, Bucket(d, |t|)), d)
    {
      var i := BucketInRange(d, |t|);
      WrittenChain(c, at, t, i);
      var j :| 0 <= j < |t[i].entries| && t[i].entries[j] == Name(d, names[d]);
      NameThere(c, Chain(c, at, i)[j] as nat, t[i].entries[j]);
    }
  }

  lemma NameThere(c: Image, at: nat, e: Entry)
    requires EntryWritten(c, at, e) && e.Name?
    ensures NameFits(c, at) && U64(c, at) == e.docid && NameAt(c, at) == Kept16(e.name)
  {
    hide U16, U64;
  }

  /** The document table holds the names themselves exactly if the length of each fits its 16 bits. */
  lemma NamesStoredIff(c: Image, at: nat, t: seq<Slots>, names: Names)
    requires TableWritten(c, at, t) && NameTable(t, names) && |c| < TWO32
    ensures StoresNames(c, at, names) <==> NamesFit(names)
  {
    hide U64, TableFits, TableWritten, Chain, Bucket, NameTable, HasDoc;
    NamesStored(c, at, t, names);
    if NamesFit(names) {
      assert KeptNames(names) == names;
    }
    if StoresNames(c, at, names) {
      forall d | d in names
        ensures |names[d]| < 65536
      {
        StoredNameIsShort(c, at, names, d);
      }
    }
  }

  /** No image stores a name of 65536 bytes or more. */
  lemma StoredNameIsShort(c: Image, at: nat, names: Names, d: uint64)
    requires StoresNames(c, at, names) && d in names
    ensures |names[d]| < 65536
  {
    hide U64, TableFits, Chain;
    var i := BucketInRange(d, NumBuckets(c, at));
    var chain := Chain(c, at, i);
    assert HasDoc(c, chain, d);
    var j :| 0 <= j < |chain| && NameFits(c, chain[j] as nat) && U64(c, chain[j] as nat) == d;
    assert HoldsName(c, chain[j] as nat, names, i, NumBuckets(c, at));
  }

  lemma BucketInRange(key: uint64, n: nat) returns (b: nat)
    requires n > 0
    ensures b == Bucket(key, n) < n
  {
    b := Bucket(key, n);
  }

  // ---- Position lists ----

  ghost predicate AllPostings(t: seq<Slots>) {
    forall i, j :: 0 <= i < |t| && 0 <= j < |t[i].entries| ==> t[i].entries[j].Posting?
  }

  ghost function PostingChain(b: Slots): (c: seq<KeyValue<seq<uint32>>>)
    requires forall j :: 0 <= j < |b.entries| ==> b.entries[j].Posting?
    ensures |c| == |b.entries|
  {
    seq(|b.entries|, j requires 0 <= j < |b.entries| => KeyValue(b.entries[j].docid, b.entries[j].positions))
  }

  ghost function PostingChains(t: seq<Slots>): (c: seq<seq<KeyValue<seq<uint32>>>>)
    requires AllPostings(t)
    ensures |c| == |t|
  {
    seq(|t|, i requires 0 <= i < |t| => PostingChain(t[i]))
  }

  /** The chains hold exactly the postings, each in the bucket of its document. */
  ghost predicate PostingTable(t: seq<Slots>, d: Postings) {
    t != [] && AllPostings(t) && Holds(PostingChains(t), d)
  }

  lemma PostingThere(c: Image, at: nat, docid: uint64, positions: seq<uint32>)
    requires EntryWritten(c, at, Posting(docid, positions))
    ensures ElementFits(c, at) && Element(c, at) == KeyValue(docid, positions)
  {
    hide U32, U64, U32s;
  }

  lemma PostingsStored(c: Image, at: nat, t: seq<Slots>, d: Postings)
    requires TableWritten(c, at, t) && PostingTable(t, d) && |c| < TWO32
    ensures StoresPostings(c, at, d)
  {
    hide TableFits, TableWritten, Chain, Holds, Element, ElementFits, EntryWritten;
    WrittenFits(c, at, t);
    forall i, j | 0 <= i < |t| && 0 <= j < |Chain(c, at, i)|
      ensures ElementFits(c, Chain(c, at, i)[j] as nat) && j < |t[i].entries|
      ensures Element(c, Chain(c, at, i)[j] as nat) == PostingChains(t)[i][j]
    {
      WrittenChain(c, at, t, i);
      var e := t[i].entries[j];
      PostingThere(c, Chain(c, at, i)[j] as nat, e.docid, e.positions);
    }
    forall i | 0 <= i < |t|
      ensures ElementChain(c, at, i) == PostingChains(t)[i]
    {
      WrittenChain(c, at, t, i);
    }
    assert ElementChains(c, at) == PostingChains(t);
  }

  // ---- Words ----

  ghost predicate WordEntry(e: Entry, words: WordIndex, i: nat, n: nat)
    requires n > 0
  {
    e.Word? && e.word in words && Bucket(Hash(e.word), n) == i && PostingTable(e.docs, words[e.word])
  }

  ghost predicate HoldsSpelling(b: Slots, w: Image) {
    exists j :: 0 <= j < |b.entries| && b.entries[j].Word? && b.entries[j].word == w
  }

  /** The chains hold exactly the words, each in the bucket of its hash and with its postings. */
  ghost predicate WordTable(t: seq<Slots>, words: WordIndex) {
    && t != []
    && (forall i, j :: 0 <= i < |t| && 0 <= j < |t[i].entries| ==> WordEntry(t[i].entries[j], words, i, |t|))
    && (forall w :: w in words ==> HoldsSpelling(t[Bucket(Hash(w), |t|)], w))
  }

  lemma WordThere(c: Image, at: nat, e: Entry, words: WordIndex, i: nat, n: nat)
    requires EntryWritten(c, at, e) && n > 0 && WordEntry(e, words, i, n) && |c| < TWO32 && |e.word| < 65536
    ensures HoldsWord(c, at, words, i, n) && WordFits(c, at) && WordAt(c, at) == e.word
  {
    hide U16, U32, TableWritten, TableLen, StoresPostings, PostingTable, Bucket, Hash;
    PostingsStored(c, at + 6 + |e.word|, e.docs, words[e.word]);
  }

  lemma WordKnown(e: Entry, words: WordIndex, i: nat, n: nat)
    requires n > 0 && WordEntry(e, words, i, n)
    ensures e.Word? && e.word in words
  {}

  ghost predicate WordsFit(words: WordIndex) {
    forall w :: w in words ==> |w| < 65536
  }

  /** The index table holds the words exactly if the length of each fits its 16 bits. */
  lemma WordsStoredIff(c: Image, at: nat, t: seq<Slots>, words: WordIndex)
    requires TableWritten(c, at, t) && WordTable(t, words) && |c| < TWO32
    ensures StoresWords(c, at, words) <==> WordsFit(words)
  {
    hide TableWritten, WordTable, StoresWords;
    if WordsFit(words) {
      WordsStored(c, at, t, words);
    }
    if StoresWords(c, at, words) {
      forall w | w in words
        ensures |w| < 65536
      {
        StoredWordIsShort(c, at, words, w);
      }
    }
  }

  /** No image stores a word of 65536 bytes or more. */
  lemma StoredWordIsShort(c: Image, at: nat, words: WordIndex, w: Image)
    requires StoresWords(c, at, words) && w in words
    ensures |w| < 65536
  {
    hide TableFits, Chain, Hash, HoldsWord;
    var i := BucketInRange(Hash(w), NumBuckets(c, at));
    var chain := Chain(c, at, i);
    assert HasWord(c, chain, w);
  }

  lemma WordsStored(c: Image, at: nat, t: seq<Slots>, words: WordIndex)
    requires TableWritten(c, at, t) && WordTable(t, words) && |c| < TWO32 && WordsFit(words)
    ensures StoresWords(c, at, words)
  {
    hide TableFits, TableWritten, Chain, Bucket, Hash, WordFits, WordAt, HoldsWord, EntryWritten, WordEntry;
    WrittenFits(c, at, t);
    forall i, j | 0 <= i < |t| && 0 <= j < |Chain(c, at, i)|
      ensures HoldsWord(c, Chain(c, at, i)[j] as nat, words, i, |t|)
    {
      WrittenChain(c, at, t, i);
      WordKnown(t[i].entries[j], words, i, |t|);
      WordThere(c, Chain(c, at, i)[j] as nat, t[i].entries[j], words, i, |t|);
    }
    forall w | w in words
      ensures HasWord(c, Chain(c, at, Bucket(Hash(w), |t|)), w)
    {
      var i := BucketInRange(Hash(w), |t|);
      WrittenChain(c, at, t, i);
      var j :| 0 <= j < |t[i].entries| && t[i].entries[j].Word? && t[i].entries[j].word == w;
      WordThere(c, Chain(c, at, i)[j] as nat, t[i].entries[j], words, i, |t|);
    }
  }
}
