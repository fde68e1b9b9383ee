/** hw3/DocIDTableReader.cc: the documents of one word, and the positions of the word in them. */
module DocIDTableReaders {
  import opened Chains
  import opened Layouts
  import opened HashTableReaders
  import opened Queries

  type Postings = map<uint64, seq<uint32>>

  /** The number of positions of each document. */
  ghost function PostingCounts(d: Postings): Table {
    map id | id in d :: |d[id]|
  }

  /** Each document of the table exactly once, with its count. */
  ghost predicate Listing(results: seq<SearchResult>, table: Table) {
    && DistinctDocs(results)
    && (forall r :: r in results ==> r.docid in table && r.rank as nat == table[r.docid])
    && (forall d :: d in table ==> table[d] < TWO32 && SearchResult(d, table[d] as uint32) in results)
  }

  /** A docid_element: its header and the positions behind it. */
  ghost predicate ElementFits(image: Image, at: nat) {
    at + 12 <= |image| && at + 12 + 4 * U32(image, at + 8) as nat <= |image|
  }

  ghost function Element(image: Image, at: nat): KeyValue<seq<uint32>>
    requires ElementFits(image, at)
  {
    KeyValue(U64(image, at), U32s(image, at + 12, U32(image, at + 8) as nat))
  }

  ghost predicate ElementsFit(image: Image, off: nat) {
    && TableFits(image, off)
    && forall i, j :: 0 <= i < NumBuckets(image, off) && 0 <= j < |Chain(image, off, i)| ==>
         ElementFits(image, Chain(image, off, i)[j] as nat)
  }

  ghost function ElementChain(image: Image, off: nat, i: nat): (c: seq<KeyValue<seq<uint32>>>)
    requires ElementsFit(image, off) && i < NumBuckets(image, off)
    ensures |c| == |Chain(image, off, i)|
  {
    seq(|Chain(image, off, i)|, j requires 0 <= j < |Chain(image, off, i)| =>
      Element(image, Chain(image, off, i)[j] as nat))
  }

  ghost function ElementChains(image: Image, off: nat): (c: seq<seq<KeyValue<seq<uint32>>>>)
    requires ElementsFit(image, off)
    ensures |c| == NumBuckets(image, off)
  {
    seq(NumBuckets(image, off), i requires 0 <= i < NumBuckets(image, off) => ElementChain(image, off, i))
  }

  /** The image has at off a well formed table for exactly these postings: every document is in
      the bucket of its id, and none occurs twice. */
  ghost predicate StoresPostings(image: Image, off: nat, d: Postings) {
    ElementsFit(image, off) && Holds(ElementChains(image, off), d)
  }

  /** docid_element_header. */
  ghost function Header(e: KeyValue<seq<uint32>>): SearchResult
    requires |e.value| < TWO32
  {
    SearchResult(e.key, |e.value| as uint32)
  }

  ghost predicate Short(s: seq<KeyValue<seq<uint32>>>) {
    forall k :: 0 <= k < |s| ==> |s[k].value| < TWO32
  }

  ghost function Headers(s: seq<KeyValue<seq<uint32>>>): (h: seq<SearchResult>)
    requires Short(s)
    ensures |h| == |s|
  {
    seq(|s|, k requires 0 <= k < |s| => Header(s[k]))
  }

  class DocIDTableReader {
    const table: HashTableReader
    ghost const postings: Postings

    ghost predicate Valid()
      reads table.file`content
    {
      table.Valid() && StoresPostings(table.file.content, table.offset, postings)
    }

    constructor (f: DiskFile, offset: nat, ghost postings: Postings)
      requires StoresPostings(f.content, offset, postings)
      modifies f`pos
      ensures Valid() && table.file == f && this.postings == postings && fresh(table)
    {
      hide Holds, TableFits;
      var t := new HashTableReader(f, offset);
      table, this.postings := t, postings;
    }

    method LookupDocID(docid: uint64) returns (found: bool, retList: seq<uint32>)
      requires Valid()
      modifies table.file`pos
      ensures found == (docid in postings)
      ensures retList == if found then postings[docid] else []
    {
      hide StoresPostings, HashTableReader.Valid, U32, U64, U32s, Chain, Bucket;
      ghost var image := table.file.content;
      BucketOf(docid);
      var elements := table.LookupElementPositions(docid);
      if |elements| == 0 {
        return false, [];
      }
      var it := 0;
      while it < |elements|
        invariant it <= |elements|
        invariant forall j :: 0 <= j < it ==> Element(image, elements[j] as nat).key != docid
      {
        var nextOffset := elements[it] as nat;
        table.file.Seek(nextOffset);
        assert ElementFits(image, nextOffset);
        var headerDocid := table.file.ReadU64();
        var numPositions := table.file.ReadU32();
        if headerDocid == docid {
          assert Element(image, nextOffset).key == docid;
          retList := table.file.ReadU32s(numPositions as nat);
          return true, retList;
        }
        it := it + 1;
      }
      return false, [];
    }

    /** The elements of the bucket where a document would be. */
    ghost predicate Bucketful(elements: seq<uint32>, docid: uint64)
      reads table.file`content
    {
      var image := table.file.content;
      && (forall j :: 0 <= j < |elements| ==> ElementFits(image, elements[j] as nat))
      && (forall j :: 0 <= j < |elements| && Element(image, elements[j] as nat).key == docid ==>
           docid in postings && Element(image, elements[j] as nat).value == postings[docid])
      && (docid in postings ==> exists j :: 0 <= j < |elements| && Element(image, elements[j] as nat).key == docid)
    }

    lemma BucketOf(docid: uint64)
      requires Valid()
      ensures table.Valid()
      ensures Bucketful(Chain(table.file.content, table.offset, Bucket(docid, table.numBuckets as nat)), docid)
    {
      hide Element, ElementFits, TableFits, Chain, Bucket;
      var image, off := table.file.content, table.offset;
      var b := Bucket(docid, table.numBuckets as nat);
      var chain := ElementChain(image, off, b);
      KeyInItsChain(ElementChains(image, off), postings, docid);
      assert forall j :: 0 <= j < |chain| ==> chain[j] == Element(image, Chain(image, off, b)[j] as nat) && chain[j] in chain;
    }

    /** Every document once, with the number of its positions. */
    method GetDocIDList() returns (docidlist: seq<SearchResult>)
      requires Valid()
      modifies table.file`pos
      ensures Listing(docidlist, PostingCounts(postings))
    {
      hide StoresPostings, HashTableReader.Valid, U32, U64, U32s, Chain, Bucket, ElementChain, ElementChains, Headers, Short;
      ghost var image, off := table.file.content, table.offset;
      ghost var chains := AllChains();
      NoChains();
      docidlist := [];
      var i := 0;
      while i < table.numBuckets as nat
        invariant i <= table.numBuckets as nat == |chains|
        invariant Short(Flatten(chains[..i])) && docidlist == Headers(Flatten(chains[..i]))
      {
        ChainOf(i);
        OneMoreChain(chains, i);
        docidlist := AppendBucket(i, docidlist);
        i := i + 1;
      }
      assert chains[..i] == chains;
      AllListed(docidlist);
    }

    /** The inner loop: one bucket. */
    method AppendBucket(i: nat, before: seq<SearchResult>) returns (docidlist: seq<SearchResult>)
      requires Valid() && i < table.numBuckets as nat
      modifies table.file`pos
      ensures ElementsFit(table.file.content, table.offset)
      ensures Short(ElementChain(table.file.content, table.offset, i))
      ensures docidlist == before + Headers(ElementChain(table.file.content, table.offset, i))
    {
      hide DocIDTableReader.Valid, StoresPostings, HashTableReader.Valid, U32, U64, U32s, Chain, ElementChain, ElementsFit, Element, ElementFits;
      ChainOf(i);
      table.BucketInside(i);
      ghost var image, off := table.file.content, table.offset;
      ghost var chain := ElementChain(image, off, i);
      docidlist := before;
      var bucketrecOffset := (table.offset + BUCKET_LIST_HEADER + i * BUCKET_REC) % TWO32;
      table.file.Seek(bucketrecOffset);
      var chainLen := table.file.ReadU32();
      var bucketPosition := table.file.ReadU32();
      var j := 0;
      while j < chainLen as nat
        invariant j <= chainLen as nat == |chain|
        invariant docidlist == before + Headers(chain[..j])
      {
        PositionOf(i, j);
        assert chain[..j + 1] == chain[..j] + [chain[j]];
        table.file.Seek(bucketPosition as nat + j * ELEMENT_POSITION_REC);
        var elementPosition := table.file.ReadU32();
        table.file.Seek(elementPosition as nat);
        var docid := table.file.ReadU64();
        var numPositions := table.file.ReadU32();
        docidlist := docidlist + [SearchResult(docid, numPositions)];
        j := j + 1;
      }
    }

    ghost function AllChains(): (c: seq<seq<KeyValue<seq<uint32>>>>)
      requires Valid()
      reads table.file`content
      ensures |c| == table.numBuckets as nat
    {
      ElementChains(table.file.content, table.offset)
    }

    lemma ChainOf(i: nat)
      requires Valid() && i < table.numBuckets as nat
      ensures table.Valid() && ElementsFit(table.file.content, table.offset)
      ensures AllChains()[i] == ElementChain(table.file.content, table.offset, i) && Short(AllChains()[i])
    {
      hide TableFits, Chain, U32s, ElementFits, U32;
    }

    lemma PositionOf(i: nat, j: nat)
      requires Valid() && table.Valid() && ElementsFit(table.file.content, table.offset)
      requires i < table.numBuckets as nat && j < |Chain(table.file.content, table.offset, i)|
      ensures var image, at := table.file.content, table.offset + BUCKET_LIST_HEADER + BUCKET_REC * i;
        && at + 8 <= |image|
        && var p := U32(image, at + 4) as nat;
           && p + 4 * j + 4 <= |image|
           && var e := U32(image, p + 4 * j) as nat;
              && e + 12 <= |image|
              && var element := ElementChain(image, table.offset, i)[j];
                 && |element.value| < TWO32
                 && Header(element) == SearchResult(U64(image, e), U32(image, e + 8))
    {
      hide U32, U64, TableFits, StoresPostings, ElementsFit, Chain;
      var image, off := table.file.content, table.offset;
      table.BucketInside(i);
      FitsAt(image, off, i, j);
    }

    lemma AllListed(docidlist: seq<SearchResult>)
      requires Valid() && Short(Flatten(AllChains())) && docidlist == Headers(Flatten(AllChains()))
      ensures Listing(docidlist, PostingCounts(postings))
    {
      hide Lists, Listing, Headers, Short, ElementsFit, ElementChains, Flatten;
      FlattenLists(ElementChains(table.file.content, table.offset), postings);
      ListedHeaders(Flatten(AllChains()), postings);
    }
  }

  lemma FitsAt(image: Image, off: nat, i: nat, j: nat)
    requires ElementsFit(image, off) && i < NumBuckets(image, off) && j < |Chain(image, off, i)|
    ensures ElementFits(image, Chain(image, off, i)[j] as nat)
  {
    hide U32, TableFits, Chain, ElementFits;
  }

  lemma NoChains()
    ensures Short(Flatten([])) && Headers(Flatten([])) == []
  {}

  lemma OneMoreChain(chains: seq<seq<KeyValue<seq<uint32>>>>, i: nat)
    requires i < |chains| && Short(Flatten(chains[..i])) && Short(chains[i])
    ensures Short(Flatten(chains[..i + 1]))
    ensures Headers(Flatten(chains[..i + 1])) == Headers(Flatten(chains[..i])) + Headers(chains[i])
  {
    assert chains[..i + 1] == chains[..i] + [chains[i]];
    FlattenAppend(chains[..i], [chains[i]]);
    assert Flatten([chains[i]]) == chains[i];
  }

  lemma ListedHeaders(items: seq<KeyValue<seq<uint32>>>, d: Postings)
    requires Lists(items, d) && Short(items)
    ensures Listing(Headers(items), PostingCounts(d))
  {
    var h, counts := Headers(items), PostingCounts(d);
    forall r | r in h
      ensures r.docid in counts && r.rank as nat == counts[r.docid]
    {
      var k :| 0 <= k < |h| && h[k] == r;
      assert items[k] in items;
    }
    forall id | id in counts
      ensures counts[id] < TWO32 && SearchResult(id, counts[id] as uint32) in h
    {
      var k :| 0 <= k < |items| && items[k] == KeyValue(id, d[id]);
      assert h[k] == SearchResult(id, counts[id] as uint32);
    }
  }

  /** The image fixes the postings. */
  lemma PostingsAreUnique(image: Image, off: nat, d: Postings, e: Postings)
    requires StoresPostings(image, off, d) && StoresPostings(image, off, e)
    ensures d == e
  {
    hide ElementsFit, ElementChains, Lists, Holds;
    var chains := ElementChains(image, off);
    FlattenLists(chains, d);
    FlattenLists(chains, e);
    ListedMap(Flatten(chains), d);
    ListedMap(Flatten(chains), e);
  }

  /** A table is well formed exactly when every element lies in the image, in the bucket of its
      document, and no bucket holds a document twice. */
  lemma WellFormedIff(image: Image, off: nat)
    ensures (exists d :: StoresPostings(image, off, d)) <==> ElementsFit(image, off) && Separated(ElementChains(image, off))
  {
    hide TableFits, Chain, ElementsFit, ElementChains, Bucket, DistinctKeys;
    if ElementsFit(image, off) && Separated(ElementChains(image, off)) {
      var chains := ElementChains(image, off);
      ChainsHold(chains);
      assert StoresPostings(image, off, MapOf(Flatten(chains)));
    }
  }

  ghost predicate Separated(chains: seq<seq<KeyValue<seq<uint32>>>>) {
    && |chains| > 0
    && (forall i, e :: 0 <= i < |chains| && e in chains[i] ==> Bucket(e.key, |chains|) == i)
    && (forall i :: 0 <= i < |chains| ==> DistinctKeys(chains[i]))
  }

  lemma ChainsHold(chains: seq<seq<KeyValue<seq<uint32>>>>)
    requires Separated(chains)
    ensures Holds(chains, MapOf(Flatten(chains)))
  {
    hide Bucket, DistinctKeys, MapOf, Flatten;
    var all := Flatten(chains);
    assert chains[0..] == chains;
    FlattenDistinct(chains, 0);
    MapOfDistinct(all);
    forall i, e | 0 <= i < |chains| && e in chains[i]
      ensures e.key in MapOf(all) && MapOf(all)[e.key] == e.value
    {
      InFlatten(chains, e);
    }
    forall k | k in MapOf(all)
      ensures KeyValue(k, MapOf(all)[k]) in chains[Bucket(k, |chains|)]
    {
      assert k in Keys(all);
      var e :| e in all && e.key == k;
      InFlatten(chains, e);
    }
  }
}
