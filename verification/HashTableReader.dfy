/** hw3/HashTableReader.cc: bucket chains of a hash table inside an index file. */
module HashTableReaders {
  import opened Chains
  import opened Layouts

  /** The file after the bytes were written at a position. */
  function Overwritten(content: Image, at: nat, bytes: Image): (c: Image)
    ensures |c| == if at + |bytes| <= |content| then |content| else at + |bytes|
    ensures c[at..at + |bytes|] == bytes
    ensures forall i :: 0 <= i < |content| && !(at <= i < at + |bytes|) ==> c[i] == content[i]
  {
    var before := if at <= |content| then content[..at] else content + seq(at - |content|, _ => 0);
    before + bytes + (if at + |bytes| <= |content| then content[at + |bytes|..] else [])
  }

  ghost predicate Blank(content: Image) {
    forall k :: 0 <= k < INDEX_FILE_HEADER && k < |content| ==> content[k] == 0
  }

  lemma StaysBlank(content: Image, at: nat, bytes: Image)
    requires at >= INDEX_FILE_HEADER && Blank(content)
    ensures Blank(Overwritten(content, at, bytes))
  {}

  /** The (FILE *) of an index file. Duplicated handles share the position, so the readers of
      one index share one of these. */
  class DiskFile {
    var content: Image
    var pos: nat

    /** The contents after every write so far, and before the first. */
    ghost var history: seq<Image>

    constructor (content: Image)
      ensures this.content == content && pos == 0 && history == [content]
    {
      this.content, pos, history := content, 0, [content];
    }

    /** At no time was there anything but zeros where the header of an index file belongs. */
    ghost predicate HeaderBlank()
      reads this`content, this`history
    {
      Blank(content) && forall c :: c in history ==> Blank(c)
    }

    /** fseek from the start of the file. */
    method Seek(offset: nat)
      modifies this`pos
      ensures pos == offset
    {
      pos := offset;
    }

    /** fread of up to n bytes: short at the end of the file. */
    method Read(n: nat) returns (bytes: Image)
      modifies this`pos
      ensures old(pos) >= |content| ==> bytes == [] && pos == old(pos)
      ensures old(pos) < |content| ==>
        && pos == (if old(pos) + n <= |content| then old(pos) + n else |content|)
        && bytes == content[old(pos)..pos]
    {
      if pos >= |content| {
        return [];
      }
      var end := if pos + n <= |content| then pos + n else |content|;
      bytes := content[pos..end];
      pos := end;
    }

    /** fwrite: overwrites at the position, and fills a gap behind the end of the file with zeros. */
    method Write(bytes: Image)
      modifies this
      ensures content == Overwritten(old(content), old(pos), bytes) && pos == old(pos) + |bytes|
      ensures history == old(history) + [content]
      ensures old(pos) >= INDEX_FILE_HEADER && old(HeaderBlank()) ==> HeaderBlank()
    {
      if pos >= INDEX_FILE_HEADER && Blank(content) {
        StaysBlank(content, pos, bytes);
      }
      content := Overwritten(content, pos, bytes);
      pos := pos + |bytes|;
      history := history + [content];
    }

    /** fread of a 32-bit field with its toHostFormat. */
    method ReadU32() returns (n: uint32)
      requires pos + 4 <= |content|
      modifies this`pos
      ensures pos == old(pos) + 4 && n == U32(content, old(pos))
    {
      var bytes := Read(4);
      FourBytes();
      n := Network(bytes) as uint32;
    }

    method ReadU64() returns (n: uint64)
      requires pos + 8 <= |content|
      modifies this`pos
      ensures pos == old(pos) + 8 && n == U64(content, old(pos))
    {
      var bytes := Read(8);
      EightBytes();
      n := Network(bytes) as uint64;
    }

    method ReadU16() returns (n: nat)
      requires pos + 2 <= |content|
      modifies this`pos
      ensures pos == old(pos) + 2 && n == U16(content, old(pos))
    {
      var bytes := Read(2);
      n := Network(bytes);
    }

    /** The loops that read a run of 32-bit records. */
    method ReadU32s(n: nat) returns (s: seq<uint32>)
      requires pos + 4 * n <= |content|
      modifies this`pos
      ensures s == U32s(content, old(pos), n) && pos == old(pos) + 4 * n
    {
      hide U32;
      s := [];
      var i := 0;
      while i < n
        invariant i <= n && pos == old(pos) + 4 * i
        invariant s == U32s(content, old(pos), i)
      {
        var next := ReadU32();
        s := s + [next];
        i := i + 1;
      }
    }

    /** The loops that read a string one character at a time. */
    method ReadString(len: nat) returns (s: Image)
      requires pos + len <= |content|
      modifies this`pos
      ensures pos == old(pos) + len && s == content[old(pos)..old(pos) + len]
    {
      s := [];
      var i := 0;
      while i < len
        invariant i <= len && pos == old(pos) + i && s == content[old(pos)..old(pos) + i]
      {
        var nextc := Read(1);
        s := s + nextc;
        i := i + 1;
      }
    }
  }

  // ---- A table inside an image ----

  /** The chain of bucket i: where its elements are. */
  ghost function ChainLen(image: Image, off: nat, i: nat): nat
    requires off + 4 + 8 * i + 8 <= |image|
  {
    U32(image, off + 4 + 8 * i) as nat
  }

  ghost function ChainPos(image: Image, off: nat, i: nat): nat
    requires off + 4 + 8 * i + 8 <= |image|
  {
    U32(image, off + 4 + 8 * i + 4) as nat
  }

  /** The header, all bucket records and all element positions lie inside the image, whose
      offsets are 32-bit numbers. */
  ghost predicate TableFits(image: Image, off: nat) {
    && off + 4 <= |image| < TWO32
    && var n := U32(image, off) as nat;
       && n > 0 && off + 4 + 8 * n <= |image|
       && forall i :: 0 <= i < n ==>
            ChainLen(image, off, i) == 0 || ChainPos(image, off, i) + 4 * ChainLen(image, off, i) <= |image|
  }

  ghost function NumBuckets(image: Image, off: nat): (n: nat)
    requires TableFits(image, off)
    ensures n > 0
  {
    U32(image, off) as nat
  }

  ghost function Chain(image: Image, off: nat, i: nat): (c: seq<uint32>)
    requires TableFits(image, off) && i < NumBuckets(image, off)
    ensures |c| == ChainLen(image, off, i)
  {
    if ChainLen(image, off, i) == 0 then []
    else U32s(image, ChainPos(image, off, i), ChainLen(image, off, i))
  }

  /** The bucket with its record at the given place, byte by byte: the record has the length of the chain and
      where its element positions are. */
  ghost predicate ElementsAre(c: Image, record: nat, chain: seq<uint32>) {
    && record + 8 <= |c| && |chain| == Big4(c, record)
    && (chain != [] ==> Big4(c, record + 4) + 4 * |chain| <= |c|)
    && forall j :: 0 <= j < |chain| ==> chain[j] as nat == Big4(c, Big4(c, record + 4) + 4 * j)
  }

  lemma ChainBytes(c: Image, off: nat, i: nat)
    requires TableFits(c, off) && i < NumBuckets(c, off)
    ensures NumBuckets(c, off) == Big4(c, off)
    ensures ElementsAre(c, off + 4 + 8 * i, Chain(c, off, i))
  {
    hide U32, Big4;
    Field4(c, off);
    Field4(c, off + 4 + 8 * i);
    Field4(c, off + 4 + 8 * i + 4);
    var chain := Chain(c, off, i);
    assert ChainLen(c, off, i) == 0 || ChainPos(c, off, i) + 4 * ChainLen(c, off, i) <= |c|;
    forall j | 0 <= j < |chain|
      ensures chain[j] as nat == Big4(c, Big4(c, off + 4 + 8 * i + 4) + 4 * j)
    {
      Field4(c, ChainPos(c, off, i) + 4 * j);
    }
  }

  class HashTableReader {
    const file: DiskFile
    const offset: nat
    const numBuckets: uint32

    ghost predicate Valid()
      reads file`content
    {
      TableFits(file.content, offset) && numBuckets as nat == NumBuckets(file.content, offset)
    }

    constructor (f: DiskFile, offset: nat)
      requires TableFits(f.content, offset)
      modifies f`pos
      ensures Valid() && file == f && this.offset == offset
    {
      hide U32;
      f.Seek(offset);
      var n := f.ReadU32();
      file, this.offset, numBuckets := f, offset, n;
    }

    /** Every element position of the bucket a hash belongs to, in order. */
    method LookupElementPositions(hashKey: uint64) returns (retval: seq<uint32>)
      requires Valid()
      modifies file`pos
      ensures retval == Chain(file.content, offset, Bucket(hashKey, numBuckets as nat))
      ensures ElementsAre(file.content, offset + 4 + 8 * (hashKey as nat % numBuckets as nat), retval)
    {
      hide U32, TableFits, Chain, U32s, ElementsAre;
      ElementsAt(hashKey as nat % numBuckets as nat);
      var bucketNum := hashKey as nat % numBuckets as nat;
      BucketInside(bucketNum);
      var bucketrecOffset := (offset + BUCKET_LIST_HEADER + BUCKET_REC * bucketNum) % TWO32;
      file.Seek(bucketrecOffset);
      var chainLen := file.ReadU32();
      var bucketPosition := file.ReadU32();
      retval := [];
      if chainLen == 0 {
        return;
      }
      file.Seek(bucketPosition as nat);
      retval := file.ReadU32s(chainLen as nat);
    }

    /** A bucket, byte by byte. */
    lemma ElementsAt(i: nat)
      requires Valid() && i < numBuckets as nat
      ensures ElementsAre(file.content, offset + 4 + 8 * i, Chain(file.content, offset, i))
    {
      hide ElementsAre, U32, Chain;
      ChainBytes(file.content, offset, i);
    }

    /** No offset wraps around, and the chain is where its bucket record says. */
    lemma BucketInside(i: nat)
      requires Valid() && i < numBuckets as nat
      ensures var at := offset + BUCKET_LIST_HEADER + BUCKET_REC * i;
        && at + 8 <= |file.content| < TWO32
        && var n, p := U32(file.content, at) as nat, U32(file.content, at + 4) as nat;
           && (n > 0 ==> p + 4 * n <= |file.content|)
           && Chain(file.content, offset, i) == if n == 0 then [] else U32s(file.content, p, n)
    {
      hide U32, U32s;
      assert ChainLen(file.content, offset, i) == 0
        || ChainPos(file.content, offset, i) + 4 * ChainLen(file.content, offset, i) <= |file.content|;
    }
  }
}
