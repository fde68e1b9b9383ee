/** hw3/DocTableReader.cc: from a document id to the name of its file. */
module DocTableReaders {
  import opened Chains
  import opened Layouts
  import opened HashTableReaders

  type Names = map<uint64, Image>

  /** A doctable_element: its header, and the file name behind it. */
  ghost predicate NameFits(image: Image, at: nat) {
    at + 10 <= |image| && at + 10 + U16(image, at + 8) <= |image|
  }

  ghost function NameAt(image: Image, at: nat): Image
    requires NameFits(image, at)
  {
    image[at + 10..at + 10 + U16(image, at + 8)]
  }

  ghost predicate HoldsName(image: Image, at: nat, names: Names, i: nat, n: nat)
    requires n > 0
  {
    && NameFits(image, at)
    && var docid := U64(image, at);
       docid in names && Bucket(docid, n) == i && NameAt(image, at) == names[docid]
  }

  ghost predicate HasDoc(image: Image, chain: seq<uint32>, docid: uint64) {
    exists j :: 0 <= j < |chain| && NameFits(image, chain[j] as nat) && U64(image, chain[j] as nat) == docid
  }

  /** The image has at off a well formed table for exactly these names. */
  ghost predicate StoresNames(image: Image, off: nat, names: Names) {
    && TableFits(image, off)
    && var n := NumBuckets(image, off);
       && (forall i, j :: 0 <= i < n && 0 <= j < |Chain(image, off, i)| ==>
            HoldsName(image, Chain(image, off, i)[j] as nat, names, i, n))
       && (forall d :: d in names ==> HasDoc(image, Chain(image, off, Bucket(d, n)), d))
  }

  class DocTableReader {
    const table: HashTableReader
    ghost const names: Names

    ghost predicate Valid()
      reads table.file`content
    {
      table.Valid() && StoresNames(table.file.content, table.offset, names)
    }

    constructor (f: DiskFile, offset: nat, ghost names: Names)
      requires StoresNames(f.content, offset, names)
      modifies f`pos
      ensures Valid() && table.file == f && this.names == names && fresh(table)
    {
      hide TableFits, HoldsName, HasDoc;
      var t := new HashTableReader(f, offset);
      table, this.names := t, names;
    }

    method LookupDocID(docid: uint64) returns (found: bool, retStr: Image)
      requires Valid()
      modifies table.file`pos
      ensures found == (docid in names)
      ensures retStr == if found then names[docid] else []
    {
      hide StoresNames, HashTableReader.Valid, ElementsAre, U16, U64, Chain, Bucket;
      BucketOf(docid);
      var elements := table.LookupElementPositions(docid);
      if |elements| == 0 {
        return false, [];
      }
      var it := 0;
      while it < |elements|
        invariant it <= |elements|
        invariant forall j :: 0 <= j < it ==> U64(table.file.content, elements[j] as nat) != docid
      {
        var nextOffset := elements[it] as nat;
        assert NameFits(table.file.content, nextOffset);
        table.file.Seek(nextOffset);
        var headerDocid := table.file.ReadU64();
        var filenameLen := table.file.ReadU16();
        if headerDocid == docid {
          var ss := table.file.ReadString(filenameLen);
          return true, ss;
        }
        it := it + 1;
      }
      return false, [];
    }

    ghost predicate Bucketful(elements: seq<uint32>, docid: uint64)
      reads table.file`content
    {
      var image := table.file.content;
      && (forall j :: 0 <= j < |elements| ==>
           && NameFits(image, elements[j] as nat)
           && (U64(image, elements[j] as nat) == docid ==>
                docid in names && NameAt(image, elements[j] as nat) == names[docid]))
      && (docid in names ==> HasDoc(image, elements, docid))
    }

    lemma BucketOf(docid: uint64)
      requires Valid()
      ensures table.Valid()
      ensures Bucketful(Chain(table.file.content, table.offset, Bucket(docid, table.numBuckets as nat)), docid)
    {
      hide TableFits, Chain, Bucket, U16, U64, NameAt, HasDoc;
    }
  }
}
