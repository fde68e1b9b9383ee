/** The tables of an index file, byte by byte: where a reader of the file, or any other program, finds a
    document name, a position list and a word. */
module BytesOnDisk {
  import opened Chains
  import opened Fnv
  import opened Layouts
  import opened HashTableReaders
  import opened DocIDTableReaders
  import opened DocTableReaders
  import opened IndexTableReaders
  import opened FileIndexReaders
  import opened QueryProcessors
  import opened Crc32

  /** Where element j of the bucket with the record at r is. */
  ghost predicate ElementIs(c: Image, r: nat, j: nat, e: nat) {
    && r + 8 <= |c| && j < Big4(c, r)
    && Big4(c, r + 4) + 4 * j + 4 <= |c| && e == Big4(c, Big4(c, r + 4) + 4 * j)
  }

  /** A bucket record of the table at off. */
  function Record(off: nat, i: nat): nat { off + 4 + 8 * i }

  lemma ElementOfChain(c: Image, off: nat, i: nat, j: nat)
    requires TableFits(c, off) && i < NumBuckets(c, off) && j < |Chain(c, off, i)|
    ensures NumBuckets(c, off) == Big4(c, off) && ElementIs(c, Record(off, i), j, Chain(c, off, i)[j] as nat)
  {
    hide Big4, Chain, TableFits;
    ChainBytes(c, off, i);
  }

  // ---- Document names ----

  /** A doctable element at e: a document id, a length, and so many characters. */
  ghost predicate NameIs(c: Image, e: nat, d: nat, name: Image) {
    && e + 10 + |name| <= |c| && Big8(c, e) == d && Big2(c, e + 8) == |name| && c[e + 10..e + 10 + |name|] == name
  }

  lemma NameBytes(c: Image, e: nat, d: uint64)
    requires NameFits(c, e) && U64(c, e) == d
    ensures NameIs(c, e, d as nat, NameAt(c, e))
  {
    hide U16, U64, Big2, Big8;
    Field8(c, e);
    Field2(c, e + 8);
  }

  /** A document is in the bucket of its id modulo the bucket count, under its name. */
  lemma NameOnDisk(c: Image, off: nat, names: Names, d: uint64) returns (j: nat, e: nat)
    requires StoresNames(c, off, names) && d in names
    ensures off + 4 <= |c| && Big4(c, off) > 0
    ensures ElementIs(c, off + 4 + 8 * (d as nat % Big4(c, off)), j, e) && NameIs(c, e, d as nat, names[d])
  {
    hide U16, U64, TableFits, Chain, Big4, Big8, NameIs, ElementIs;
    var n := NumBuckets(c, off);
    var i := Bucket(d, n);
    var chain := Chain(c, off, i);
    assert HasDoc(c, chain, d);
    j :| 0 <= j < |chain| && NameFits(c, chain[j] as nat) && U64(c, chain[j] as nat) == d;
    e := chain[j] as nat;
    assert HoldsName(c, e, names, i, n);
    ElementOfChain(c, off, i, j);
    FitsHeader(c, off);
    NameBytes(c, e, d);
  }

  lemma FitsHeader(c: Image, off: nat)
    requires TableFits(c, off)
    ensures off + 4 <= |c|
  {
    hide U32;
  }

  // ---- Positions ----

  /** A docID element at e: a document id, a count, and so many positions. */
  ghost predicate PostingIs(c: Image, e: nat, d: nat, positions: seq<uint32>) {
    && e + 12 + 4 * |positions| <= |c| && Big8(c, e) == d && Big4(c, e + 8) == |positions|
    && forall k :: 0 <= k < |positions| ==> Big4(c, e + 12 + 4 * k) == positions[k] as nat
  }

  lemma PostingBytes(c: Image, e: nat)
    requires ElementFits(c, e)
    ensures PostingIs(c, e, Element(c, e).key as nat, Element(c, e).value)
  {
    hide U32, U64, Big4, Big8;
    Field8(c, e);
    Field4(c, e + 8);
    var positions := Element(c, e).value;
    forall k | 0 <= k < |positions|
      ensures Big4(c, e + 12 + 4 * k) == positions[k] as nat
    {
      Field4(c, e + 12 + 4 * k);
    }
  }

  lemma PostingOnDisk(c: Image, off: nat, d: Postings, id: uint64) returns (j: nat, e: nat)
    requires StoresPostings(c, off, d) && id in d
    ensures off + 4 <= |c| && Big4(c, off) > 0
    ensures ElementIs(c, off + 4 + 8 * (id as nat % Big4(c, off)), j, e) && PostingIs(c, e, id as nat, d[id])
  {
    hide U32, TableFits, Chain, Element, ElementFits, Big4, PostingIs, ElementIs;
    var n := NumBuckets(c, off);
    InItsChain(ElementChains(c, off), d);
    var i := id as nat % n;
    var chain := ElementChain(c, off, i);
    assert KeyValue(id, d[id]) in chain;
    j :| 0 <= j < |chain| && chain[j] == KeyValue(id, d[id]);
    e := Chain(c, off, i)[j] as nat;
    ElementOfChain(c, off, i, j);
    FitsHeader(c, off);
    PostingBytes(c, e);
  }

  // ---- Words ----

  /** A WordDocSet at e: a length, so many characters, and a table behind them. */
  ghost predicate WordIs(c: Image, e: nat, w: Image) {
    e + 6 + |w| <= |c| && Big2(c, e) == |w| && c[e + 6..e + 6 + |w|] == w
  }

  lemma WordBytes(c: Image, e: nat)
    requires WordFits(c, e)
    ensures WordIs(c, e, WordAt(c, e))
  {
    hide U16, Big2;
    Field2(c, e);
  }

  /** A word is in the bucket of its hash modulo the bucket count, with the table of its postings. */
  lemma WordOnDisk(c: Image, off: nat, words: WordIndex, w: Image) returns (j: nat, e: nat)
    requires StoresWords(c, off, words) && w in words
    ensures off + 4 <= |c| && Big4(c, off) > 0
    ensures ElementIs(c, off + 4 + 8 * (Hash(w) as nat % Big4(c, off)), j, e) && WordIs(c, e, w)
    ensures StoresPostings(c, e + 6 + |w|, words[w])
  {
    hide U16, TableFits, Chain, Big4, WordIs, ElementIs, Hash, StoresPostings, StoresWords, WordFits, WordAt, Bucket;
    j := ElementOfWord(c, off, words, w);
    var i := Bucket(Hash(w), NumBuckets(c, off));
    BucketIs(Hash(w), NumBuckets(c, off));
    e := Chain(c, off, i)[j] as nat;
    ElementOfChain(c, off, i, j);
    FitsHeader(c, off);
    WordBytes(c, e);
  }

  lemma BucketIs(key: uint64, n: nat)
    requires n > 0
    ensures Bucket(key, n) == key as nat % n
  {}

  lemma ElementOfWord(c: Image, off: nat, words: WordIndex, w: Image) returns (j: nat)
    requires StoresWords(c, off, words) && w in words
    ensures TableFits(c, off) && NumBuckets(c, off) > 0
    ensures var chain := Chain(c, off, Bucket(Hash(w), NumBuckets(c, off)));
      j < |chain| && var e := chain[j] as nat; WordFits(c, e) && WordAt(c, e) == w && StoresPostings(c, e + 6 + |w|, words[w])
  {
    hide U16, TableFits, Chain, Big4, Hash, StoresPostings;
    var n := NumBuckets(c, off);
    var i := Bucket(Hash(w), n);
    var chain := Chain(c, off, i);
    assert HasWord(c, chain, w);
    j :| 0 <= j < |chain| && WordFits(c, chain[j] as nat) && WordAt(c, chain[j] as nat) == w;
    assert HoldsWord(c, chain[j] as nat, words, i, n);
  }

  // ---- An index file ----

  /** Everything of an index file, byte by byte: the names are in a table behind the header, and the words with
      their positions in one behind that, whose place is the size of the first. */
  lemma FileOnDisk(c: Image, validate: bool, names: Names, words: WordIndex)
    requires IndexFile(c, validate, names, words)
    ensures |c| >= 16 && StoresNames(c, 16, names) && StoresWords(c, (16 + Big4(c, 8)) % 4294967296, words)
  {
    hide U32, StoresNames, StoresWords, Checksum, Octets, Body, Big4;
    Field4(c, 8);
  }
}
