/** hw3/fileindexwriter.cc: writing an index file. The tables are given as the values of their
    bucket chains. */
module FileIndexWriters {
  import opened Chains
  import opened Layouts
  import opened HashTableReaders

  /** What one chain element stores: a document name, a position list, or a word with the chains
      of its nested table. */
  datatype Entry = Name(docid: uint64, name: Image) | Posting(docid: uint64, positions: seq<uint32>)
    | Word(word: Image, docs: seq<Slots>)

  datatype Slots = Slots(entries: seq<Entry>)

  /** What a 16-bit length keeps of a string. */
  function Kept16(s: Image): (t: Image)
    ensures |t| == |s| % 65536 && (t == s <==> |s| < 65536)
  {
    s[..|s| % 65536]
  }

  // ---- Sizes and places ----

  function EntryLen(e: Entry): nat
    decreases e
  {
    match e
    case Name(_, name) => 10 + |name| % 65536
    case Posting(_, positions) => 12 + 4 * |positions|
    case Word(word, docs) => 6 + |word| % 65536 + TableLen(docs)
  }

  function EntriesLen(s: seq<Entry>): nat
    decreases s
  {
    if s == [] then 0 else EntriesLen(s[..|s| - 1]) + EntryLen(s[|s| - 1])
  }

  function BucketLen(b: Slots): nat
    decreases b
  {
    4 * |b.entries| + EntriesLen(b.entries)
  }

  function BucketsLen(t: seq<Slots>): nat
    decreases t, 0
  {
    if t == [] then 0 else BucketsLen(t[..|t| - 1]) + BucketLen(t[|t| - 1])
  }

  function TableLen(t: seq<Slots>): nat
    decreases t, 1
  {
    4 + 8 * |t| + BucketsLen(t)
  }

  /** Where element j of a bucket at position at is. */
  function ElementPos(b: Slots, at: nat, j: nat): nat
    requires j <= |b.entries|
  {
    at + 4 * |b.entries| + EntriesLen(b.entries[..j])
  }

  /** Where bucket i of a table at position at is. */
  function BucketPos(t: seq<Slots>, at: nat, i: nat): nat
    requires i <= |t|
  {
    at + 4 + 8 * |t| + BucketsLen(t[..i])
  }

  lemma NextElement(b: Slots, at: nat, j: nat)
    requires j < |b.entries|
    ensures ElementPos(b, at, j + 1) == ElementPos(b, at, j) + EntryLen(b.entries[j])
    ensures ElementPos(b, at, |b.entries|) == at + BucketLen(b) && ElementPos(b, at, 0) == at + 4 * |b.entries|
  {
    assert b.entries[..j + 1][..j] == b.entries[..j];
    assert b.entries[..|b.entries|] == b.entries;
  }

  lemma {:induction false} ElementBelow(b: Slots, at: nat, j: nat, k: nat)
    requires j < k <= |b.entries|
    ensures ElementPos(b, at, j) + EntryLen(b.entries[j]) <= ElementPos(b, at, k)
    decreases k
  {
    hide ElementPos;
    NextElement(b, at, k - 1);
    if j < k - 1 {
      ElementBelow(b, at, j, k - 1);
    }
  }

  lemma NextBucket(t: seq<Slots>, at: nat, i: nat)
    requires i < |t|
    ensures BucketPos(t, at, i + 1) == BucketPos(t, at, i) + BucketLen(t[i])
    ensures BucketPos(t, at, |t|) == at + TableLen(t) && BucketPos(t, at, 0) == at + 4 + 8 * |t|
  {
    assert t[..i + 1][..i] == t[..i];
    assert t[..|t|] == t;
  }

  lemma {:induction false} BucketBelow(t: seq<Slots>, at: nat, i: nat, k: nat)
    requires i < k <= |t|
    ensures BucketPos(t, at, i) + BucketLen(t[i]) <= BucketPos(t, at, k)
    decreases k
  {
    hide BucketPos;
    NextBucket(t, at, k - 1);
    if i < k - 1 {
      BucketBelow(t, at, i, k - 1);
    }
  }

  // ---- What is on disk ----

  ghost predicate EntryWritten(c: Image, at: nat, e: Entry)
    decreases e
  {
    at + EntryLen(e) <= |c| &&
    match e
    case Name(docid, name) =>
      U64(c, at) == docid && U16(c, at + 8) == |name| % 65536 && c[at + 10..at + 10 + |name| % 65536] == Kept16(name)
    case Posting(docid, positions) =>
      U64(c, at) == docid && U32(c, at + 8) as nat == |positions| && U32s(c, at + 12, |positions|) == positions
    case Word(word, docs) =>
      && U16(c, at) == |word| % 65536 && U32(c, at + 2) as nat == TableLen(docs)
      && c[at + 6..at + 6 + |word| % 65536] == Kept16(word) && TableWritten(c, at + 6 + |word| % 65536, docs)
  }

  /** The element positions, and the elements there. */
  ghost predicate SlotWritten(c: Image, at: nat, b: Slots, j: nat)
    requires j < |b.entries|
    decreases b, 0
  {
    && at + 4 * j + 4 <= |c|
    && U32(c, at + 4 * j) as nat == ElementPos(b, at, j)
    && EntryWritten(c, ElementPos(b, at, j), b.entries[j])
  }

  ghost predicate BucketWritten(c: Image, at: nat, b: Slots)
    decreases b, 1
  {
    at + BucketLen(b) <= |c| && forall j :: 0 <= j < |b.entries| ==> SlotWritten(c, at, b, j)
  }

  /** One bucket record, and the bucket it points to. */
  ghost predicate RecordWritten(c: Image, at: nat, t: seq<Slots>, i: nat)
    requires i < |t|
    decreases t, 2
  {
    && at + 12 + 8 * i <= |c|
    && U32(c, at + 4 + 8 * i) as nat == |t[i].entries|
    && U32(c, at + 8 + 8 * i) as nat == BucketPos(t, at, i)
    && (t[i].entries != [] ==> BucketWritten(c, BucketPos(t, at, i), t[i]))
  }

  ghost predicate TableWritten(c: Image, at: nat, t: seq<Slots>)
    decreases t, 3
  {
    && at + TableLen(t) <= |c| && U32(c, at) as nat == |t|
    && forall i :: 0 <= i < |t| ==> RecordWritten(c, at, t, i)
  }

  /** Two images have the same bytes from lo up to hi. */
  ghost predicate Agree(c: Image, d: Image, lo: nat, hi: nat) {
    lo <= hi <= |c| && hi <= |d| && c[lo..hi] == d[lo..hi]
  }

  lemma AgreeWithin(c: Image, d: Image, lo: nat, hi: nat, i: nat, j: nat)
    requires Agree(c, d, lo, hi) && lo <= i <= j <= hi
    ensures Agree(c, d, i, j)
  {
    forall k | i <= k < j
      ensures c[k] == d[k]
    {
      assert c[k] == c[lo..hi][k - lo] && d[k] == d[lo..hi][k - lo];
    }
  }

  lemma SameFields(c: Image, d: Image, at: nat)
    ensures Agree(c, d, at, at + 2) ==> U16(c, at) == U16(d, at)
    ensures Agree(c, d, at, at + 4) ==> U32(c, at) == U32(d, at)
    ensures Agree(c, d, at, at + 8) ==> U64(c, at) == U64(d, at)
  {}

  lemma SamePositions(c: Image, d: Image, at: nat, n: nat)
    requires Agree(c, d, at, at + 4 * n)
    ensures U32s(c, at, n) == U32s(d, at, n)
  {
    hide U32;
    forall i | 0 <= i < n
      ensures U32(c, at + 4 * i) == U32(d, at + 4 * i)
    {
      AgreeWithin(c, d, at, at + 4 * n, at + 4 * i, at + 4 * i + 4);
      SameFields(c, d, at + 4 * i);
    }
  }

  lemma NameFrame(c: Image, d: Image, at: nat, docid: uint64, name: Image)
    requires EntryWritten(c, at, Name(docid, name)) && Agree(c, d, at, at + 10 + |name| % 65536)
    ensures EntryWritten(d, at, Name(docid, name))
  {
    hide U16, U64;
    SameParts(c, d, at, at + 10 + |name| % 65536, 8, 2);
    SameFields(c, d, at);
    SameFields(c, d, at + 8);
  }

  lemma PostingFrame(c: Image, d: Image, at: nat, docid: uint64, positions: seq<uint32>)
    requires EntryWritten(c, at, Posting(docid, positions)) && Agree(c, d, at, at + 12 + 4 * |positions|)
    ensures EntryWritten(d, at, Posting(docid, positions))
  {
    hide U32, U64, U32s;
    SameParts(c, d, at, at + 12 + 4 * |positions|, 8, 4);
    SameFields(c, d, at);
    SameFields(c, d, at + 8);
    SamePositions(c, d, at + 12, |positions|);
  }

  /** What is on disk does not depend on bytes outside its own region. */
  lemma {:induction false} EntryFrame(c: Image, d: Image, at: nat, e: Entry)
    requires EntryWritten(c, at, e) && Agree(c, d, at, at + EntryLen(e))
    ensures EntryWritten(d, at, e)
    decreases e
  {
    hide U16, U32, U64, U32s, TableWritten, TableLen;
    var end := at + EntryLen(e);
    match e
    case Name(docid, name) => NameFrame(c, d, at, docid, name);
    case Posting(docid, positions) => PostingFrame(c, d, at, docid, positions);
    case Word(word, docs) =>
      SameParts(c, d, at, end, 2, 4);
      SameFields(c, d, at);
      SameFields(c, d, at + 2);
      AgreeWithin(c, d, at, end, at + 6, at + 6 + |word| % 65536);
      AgreeWithin(c, d, at, end, at + 6 + |word| % 65536, end);
      TableFrame(c, d, at + 6 + |word| % 65536, docs);
  }

  lemma SameParts(c: Image, d: Image, at: nat, end: nat, k: nat, l: nat)
    requires Agree(c, d, at, end) && at + k + l <= end
    ensures Agree(c, d, at, at + k) && Agree(c, d, at + k, at + k + l) && Agree(c, d, at + k + l, end)
  {
    hide Agree;
    AgreeWithin(c, d, at, end, at, at + k);
    AgreeWithin(c, d, at, end, at + k, at + k + l);
    AgreeWithin(c, d, at, end, at + k + l, end);
  }

  lemma {:induction false} SlotFrame(c: Image, d: Image, at: nat, b: Slots, j: nat)
    requires j < |b.entries| && SlotWritten(c, at, b, j)
    requires Agree(c, d, at + 4 * j, at + 4 * j + 4)
    requires Agree(c, d, ElementPos(b, at, j), ElementPos(b, at, j) + EntryLen(b.entries[j]))
    ensures SlotWritten(d, at, b, j)
    decreases b, 0
  {
    hide U32, EntryWritten, ElementPos;
    SameFields(c, d, at + 4 * j);
    EntryFrame(c, d, ElementPos(b, at, j), b.entries[j]);
  }

  lemma SlotInside(b: Slots, at: nat, j: nat)
    requires j < |b.entries|
    ensures at + 4 * j + 4 <= at + 4 * |b.entries| <= ElementPos(b, at, j)
    ensures ElementPos(b, at, j) + EntryLen(b.entries[j]) <= at + BucketLen(b)
  {
    ElementBelow(b, at, j, |b.entries|);
    NextElement(b, at, j);
  }

  lemma {:induction false} BucketFrame(c: Image, d: Image, at: nat, b: Slots)
    requires BucketWritten(c, at, b) && Agree(c, d, at, at + BucketLen(b))
    ensures BucketWritten(d, at, b)
    decreases b, 1
  {
    hide SlotWritten, ElementPos, BucketLen;
    forall j | 0 <= j < |b.entries|
      ensures SlotWritten(d, at, b, j)
    {
      var p := ElementPos(b, at, j);
      SlotInside(b, at, j);
      AgreeWithin(c, d, at, at + BucketLen(b), at + 4 * j, at + 4 * j + 4);
      AgreeWithin(c, d, at, at + BucketLen(b), p, p + EntryLen(b.entries[j]));
      SlotFrame(c, d, at, b, j);
    }
  }

  lemma {:induction false} RecordFrame(c: Image, d: Image, at: nat, t: seq<Slots>, i: nat)
    requires i < |t| && RecordWritten(c, at, t, i)
    requires Agree(c, d, at + 4 + 8 * i, at + 4 + 8 * i + 8)
    requires t[i].entries != [] ==> Agree(c, d, BucketPos(t, at, i), BucketPos(t, at, i) + BucketLen(t[i]))
    ensures RecordWritten(d, at, t, i)
    decreases t, 2
  {
    hide U32, BucketWritten, BucketPos, BucketLen;
    var p := at + 4 + 8 * i;
    AgreeWithin(c, d, p, p + 8, p, p + 4);
    AgreeWithin(c, d, p, p + 8, p + 4, p + 8);
    SameFields(c, d, p);
    SameFields(c, d, p + 4);
    if t[i].entries != [] {
      BucketFrame(c, d, BucketPos(t, at, i), t[i]);
    }
  }

  lemma BucketInside(t: seq<Slots>, at: nat, i: nat)
    requires i < |t|
    ensures at + 4 + 8 * i + 8 <= at + 4 + 8 * |t| <= BucketPos(t, at, i)
    ensures BucketPos(t, at, i) + BucketLen(t[i]) <= at + TableLen(t)
  {
    BucketBelow(t, at, i, |t|);
    NextBucket(t, at, i);
  }

  lemma {:induction false} TableFrame(c: Image, d: Image, at: nat, t: seq<Slots>)
    requires TableWritten(c, at, t) && Agree(c, d, at, at + TableLen(t))
    ensures TableWritten(d, at, t)
    decreases t, 3
  {
    hide RecordWritten, BucketPos, U32, BucketLen;
    var end := at + TableLen(t);
    AgreeWithin(c, d, at, end, at, at + 4);
    SameFields(c, d, at);
    forall i | 0 <= i < |t|
      ensures RecordWritten(d, at, t, i)
    {
      var p := BucketPos(t, at, i);
      BucketInside(t, at, i);
      AgreeWithin(c, d, at, end, at + 4 + 8 * i, at + 4 + 8 * i + 8);
      AgreeWithin(c, d, at, end, p, p + BucketLen(t[i]));
      RecordFrame(c, d, at, t, i);
    }
  }

  // ---- Writing ----

  /** Elements at which the source does not stop. It does at a string whose 16-bit length is 0, whose
      fwrite reports failure, and at an empty position list, which has no iterator. */
  ghost predicate Writable(e: Entry)
    decreases e
  {
    match e
    case Name(_, name) => |name| % 65536 != 0
    case Posting(_, positions) => 0 < |positions| < TWO32
    case Word(word, docs) => |word| % 65536 != 0 && AllWritable(docs)
  }

  ghost predicate AllWritable(t: seq<Slots>)
    decreases t
  {
    forall i :: 0 <= i < |t| ==> BucketWritable(t[i])
  }

  ghost predicate BucketWritable(b: Slots)
    decreases b
  {
    forall j :: 0 <= j < |b.entries| ==> Writable(b.entries[j])
  }

  /** Two fields written with one fwrite. */
  lemma FieldsWritten(c: Image, at: nat, a: nat, k: nat, b: nat, l: nat)
    requires at + k + l <= |c| && c[at..at + k + l] == Bytes(a, k) + Bytes(b, l)
    requires a < Power256(k) && b < Power256(l)
    ensures Network(c[at..at + k]) == a && Network(c[at + k..at + k + l]) == b
  {
    hide Network, Bytes, Power256;
    var s := c[at..at + k + l];
    Slice(c, at, at + k + l, at, at + k);
    Slice(c, at, at + k + l, at + k, at + k + l);
    assert s[..k] == Bytes(a, k) && s[k..] == Bytes(b, l);
    DiskRoundTrip(a, k);
    DiskRoundTrip(b, l);
  }

  lemma Slice(c: Image, lo: nat, hi: nat, i: nat, j: nat)
    requires lo <= i <= j <= hi <= |c|
    ensures c[i..j] == c[lo..hi][i - lo..j - lo]
  {
    forall k | 0 <= k < j - i
      ensures c[i..j][k] == c[lo..hi][i - lo..j - lo][k]
    {
      assert c[lo..hi][i - lo + k] == c[i + k];
    }
  }

  lemma Powers()
    ensures Power256(2) == 65536 && Power256(4) == TWO32 && Power256(8) == TWO64
  {
    FourBytes();
    EightBytes();
    assert Power256(1) == 256;
  }

  /** Writing at the end of the file or behind it. */
  lemma Appended(c: Image, at: nat, bytes: Image)
    requires |c| <= at
    ensures var d := Overwritten(c, at, bytes);
      |d| == at + |bytes| && d[at..] == bytes && Agree(c, d, 0, |c|)
    ensures |c| == at ==> Overwritten(c, at, bytes) == c + bytes
  {
    var d := Overwritten(c, at, bytes);
    assert d[at..] == d[at..at + |bytes|];
    assert d[0..|c|] == c[0..|c|];
  }

  /** WriteDocidDocnameFn: the length is 16 bits wide, and so much of the name is written. */
  method WriteDocidDocname(f: DiskFile, offset: nat, docid: uint64, name: Image) returns (len: nat)
    requires |f.content| <= offset && |name| % 65536 != 0
    modifies f
    ensures offset >= INDEX_FILE_HEADER && old(f.HeaderBlank()) ==> f.HeaderBlank()
    ensures len == EntryLen(Name(docid, name)) && |f.content| == offset + len
    ensures EntryWritten(f.content, offset, Name(docid, name)) && Agree(old(f.content), f.content, 0, |old(f.content)|)
  {
    hide DiskFile.HeaderBlank, Overwritten, Bytes, Network, Power256;
    var slen := |name| % 65536;
    ghost var before, header := f.content, Bytes(docid as nat, 8) + Bytes(slen, 2);
    f.Seek(offset);
    f.Write(Bytes(docid as nat, 8) + Bytes(slen, 2));
    ghost var c := f.content;
    Appended(before, offset, header);
    f.Write(name[..slen]);
    Appended(c, offset + 10, name[..slen]);
    ghost var d := f.content;
    assert d[offset..offset + 10] == c[offset..] == header;
    Powers();
    FieldsWritten(d, offset, docid as nat, 8, slen, 2);
    AgreeOn(before, c, d, |before|);
    len := DOCTABLE_ELEMENT_HEADER + slen;
  }

  lemma AgreeOn(a: Image, b: Image, c: Image, n: nat)
    requires Agree(a, b, 0, n) && n <= |b| <= |c| && c[..|b|] == b
    ensures Agree(a, c, 0, n)
  {
    assert c[0..n] == c[..|b|][0..n];
  }

  /** WriteDocPositionListFn. */
  method WriteDocPositionList(f: DiskFile, offset: nat, docid: uint64, positions: seq<uint32>) returns (len: nat)
    requires |f.content| <= offset && 0 < |positions| < TWO32
    modifies f
    ensures offset >= INDEX_FILE_HEADER && old(f.HeaderBlank()) ==> f.HeaderBlank()
    ensures len == EntryLen(Posting(docid, positions)) && |f.content| == offset + len
    ensures EntryWritten(f.content, offset, Posting(docid, positions)) && Agree(old(f.content), f.content, 0, |old(f.content)|)
  {
    hide DiskFile.HeaderBlank, Overwritten, Bytes, Network, Power256, U32s, U32, U64;
    ghost var before, header := f.content, Bytes(docid as nat, 8) + Bytes(|positions|, 4);
    f.Seek(offset);
    f.Write(Bytes(docid as nat, 8) + Bytes(|positions|, 4));
    ghost var c := f.content;
    Appended(before, offset, header);
    Powers();
    PositionHeader(c, offset, docid, |positions|);
    NoPositionsYet(c, offset + 12);
    assert positions[..0] == [];
    var i := 0;
    while i < |positions|
      invariant offset >= INDEX_FILE_HEADER && old(f.HeaderBlank()) ==> f.HeaderBlank()
      invariant i <= |positions| && |f.content| == f.pos == offset + 12 + 4 * i && f.content[..offset + 12] == c
      invariant U32s(f.content, offset + 12, i) == positions[..i]
    {
      ghost var now := f.content;
      f.Write(Bytes(positions[i] as nat, 4));
      Appended(now, offset + 12 + 4 * i, Bytes(positions[i] as nat, 4));
      OneMorePosition(now, offset + 12, i, positions[i]);
      assert positions[..i + 1] == positions[..i] + [positions[i]];
      i := i + 1;
    }
    assert positions[..i] == positions;
    ghost var d := f.content;
    PrefixFields(c, d, offset);
    AgreeOn(before, c, d, |before|);
    len := DOCID_ELEMENT_HEADER + |positions| * DOCID_ELEMENT_POSITION;
  }

  lemma PositionHeader(c: Image, at: nat, docid: uint64, n: nat)
    requires |c| == at + 12 && c[at..] == Bytes(docid as nat, 8) + Bytes(n, 4) && n < TWO32
    ensures U64(c, at) == docid && U32(c, at + 8) as nat == n
  {
    hide Bytes, Network, Power256;
    Powers();
    assert c[at..at + 12] == c[at..];
    FieldsWritten(c, at, docid as nat, 8, n, 4);
  }

  lemma PrefixFields(c: Image, d: Image, at: nat)
    requires |c| == at + 12 && |d| >= |c| && d[..|c|] == c
    ensures U64(d, at) == U64(c, at) && U32(d, at + 8) == U32(c, at + 8)
  {
    hide Network, Power256;
    assert d[at..at + 8] == d[..|c|][at..at + 8] && d[at + 8..at + 12] == d[..|c|][at + 8..at + 12];
  }

  lemma NoPositionsYet(c: Image, at: nat)
    requires at <= |c|
    ensures U32s(c, at, 0) == []
  {}

  lemma OneMorePosition(c: Image, at: nat, n: nat, p: uint32)
    requires |c| == at + 4 * n
    ensures U32s(c + Bytes(p as nat, 4), at, n + 1) == U32s(c, at, n) + [p]
  {
    hide Network, Bytes, Power256;
    var d := c + Bytes(p as nat, 4);
    Powers();
    DiskRoundTrip(p as nat, 4);
    assert d[at + 4 * n..at + 4 * n + 4] == Bytes(p as nat, 4);
    forall i | 0 <= i < n
      ensures U32(d, at + 4 * i) == U32(c, at + 4 * i)
    {
      assert d[at + 4 * i..at + 4 * i + 4] == c[at + 4 * i..at + 4 * i + 4];
    }
  }

  lemma Overwrites(c: Image, at: nat, bytes: Image, lo: nat, hi: nat)
    requires lo <= hi <= |c| && (hi <= at || at + |bytes| <= lo)
    ensures Agree(c, Overwritten(c, at, bytes), lo, hi)
  {}

  lemma BytesThere(c: Image, at: nat, bytes: Image)
    ensures var d := Overwritten(c, at, bytes);
      |d| == (if at + |bytes| <= |c| then |c| else at + |bytes|) && d[at..at + |bytes|] == bytes
  {}

  lemma NumberWritten(c: Image, at: nat, n: nat)
    requires n < TWO32
    ensures U32(Overwritten(c, at, Bytes(n, 4)), at) as nat == n
  {
    hide Network, Bytes, Power256;
    Powers();
    DiskRoundTrip(n, 4);
  }

  /** The write_element_fn of a table. */
  method WriteElement(f: DiskFile, offset: nat, e: Entry) returns (len: nat)
    requires |f.content| <= offset && Writable(e) && offset + EntryLen(e) < TWO32
    modifies f
    ensures offset >= INDEX_FILE_HEADER && old(f.HeaderBlank()) ==> f.HeaderBlank()
    ensures len == EntryLen(e) > 0 && |f.content| == offset + len
    ensures EntryWritten(f.content, offset, e) && Agree(old(f.content), f.content, 0, |old(f.content)|)
    decreases e, 0
  {
    hide DiskFile.HeaderBlank, EntryWritten;
    match e
    case Name(docid, name) => len := WriteDocidDocname(f, offset, docid, name);
    case Posting(docid, positions) => len := WriteDocPositionList(f, offset, docid, positions);
    case Word(word, docs) => len := WriteWordDocSet(f, offset, word, docs);
  }

  /** WriteWordDocSetFn: the nested table first, then the header and the word in front of it. */
  method WriteWordDocSet(f: DiskFile, offset: nat, word: Image, docs: seq<Slots>) returns (len: nat)
    requires |f.content| <= offset && Writable(Word(word, docs)) && offset + EntryLen(Word(word, docs)) < TWO32
    modifies f
    ensures offset >= INDEX_FILE_HEADER && old(f.HeaderBlank()) ==> f.HeaderBlank()
    ensures len == EntryLen(Word(word, docs)) && |f.content| == offset + len
    ensures EntryWritten(f.content, offset, Word(word, docs)) && Agree(old(f.content), f.content, 0, |old(f.content)|)
    decreases docs, 4
  {
    hide DiskFile.HeaderBlank, Overwritten, Bytes, Network, Power256, TableWritten, AllWritable, TableLen;
    ghost var before := f.content;
    var wordlen := |word| % 65536;
    var htlen := WriteHashTable(f, docs, offset + WORDDOCSET_HEADER + wordlen);
    ghost var c := f.content;
    f.Seek(offset);
    f.Write(Bytes(wordlen, 2) + Bytes(htlen, 4));
    ghost var d := f.content;
    f.Write(word[..wordlen]);
    WordInFront(before, c, d, f.content, offset, word, docs);
    len := WORDDOCSET_HEADER + wordlen + htlen;
  }

  lemma WordInFront(before: Image, c: Image, d: Image, e: Image, at: nat, word: Image, docs: seq<Slots>)
    requires |before| <= at && TableLen(docs) < TWO32
    requires TableWritten(c, at + 6 + |word| % 65536, docs) && Agree(before, c, 0, |before|)
    requires |c| == at + 6 + |word| % 65536 + TableLen(docs)
    requires d == Overwritten(c, at, Bytes(|word| % 65536, 2) + Bytes(TableLen(docs), 4)) && e == Overwritten(d, at + 6, Kept16(word))
    ensures EntryWritten(e, at, Word(word, docs)) && |e| == |c| && Agree(before, e, 0, |before|)
  {
    hide Overwritten, Bytes, Network, Power256, TableWritten, TableLen, EntryWritten, U16, U32;
    var header, kept := Bytes(|word| % 65536, 2) + Bytes(TableLen(docs), 4), Kept16(word);
    HeaderLength(|kept|, TableLen(docs));
    BytesThere(c, at, header);
    BytesThere(d, at + 6, kept);
    TableStays(c, d, e, at, header, kept, docs);
    WordHeader(d, e, at, kept, TableLen(docs));
    WordThere(e, at, word, docs);
    Overwrites(c, at, header, 0, |before|);
    Overwrites(d, at + 6, kept, 0, |before|);
  }

  lemma WordThere(e: Image, at: nat, word: Image, docs: seq<Slots>)
    requires TableWritten(e, at + 6 + |word| % 65536, docs)
    requires U16(e, at) == |word| % 65536 && U32(e, at + 2) as nat == TableLen(docs)
    requires e[at + 6..at + 6 + |word| % 65536] == Kept16(word)
    ensures EntryWritten(e, at, Word(word, docs))
  {
    hide U16, U32, RecordWritten;
  }

  lemma TableStays(c: Image, d: Image, e: Image, at: nat, header: Image, word: Image, docs: seq<Slots>)
    requires |header| == 6 && TableWritten(c, at + 6 + |word|, docs) && |c| == at + 6 + |word| + TableLen(docs)
    requires d == Overwritten(c, at, header) && e == Overwritten(d, at + 6, word)
    ensures TableWritten(e, at + 6 + |word|, docs) && |e| == |c|
  {
    hide Overwritten, TableWritten, TableLen;
    var start := at + 6 + |word|;
    BytesThere(c, at, header);
    BytesThere(d, at + 6, word);
    Overwrites(c, at, header, start, |c|);
    Overwrites(d, at + 6, word, start, |c|);
    TableFrame(c, d, start, docs);
    TableFrame(d, e, start, docs);
  }

  lemma HeaderLength(a: nat, b: nat)
    ensures |Bytes(a, 2) + Bytes(b, 4)| == 6 && |Bytes(a, 4) + Bytes(b, 4)| == 8 && |Bytes(a, 4)| == 4
  {}

  lemma WordHeader(d: Image, e: Image, at: nat, word: Image, len: nat)
    requires |word| < 65536 && len < TWO32 && at + 6 <= |d| && d[at..at + 6] == Bytes(|word|, 2) + Bytes(len, 4)
    requires e == Overwritten(d, at + 6, word)
    ensures |e| >= at + 6 && U16(e, at) == |word| && U32(e, at + 2) as nat == len
  {
    hide Overwritten, Bytes, Network, Power256;
    BytesThere(d, at + 6, word);
    Powers();
    FieldsWritten(d, at, |word|, 2, len, 4);
    Overwrites(d, at + 6, word, at, at + 6);
    AgreeWithin(d, e, at, at + 6, at, at + 2);
    AgreeWithin(d, e, at, at + 6, at + 2, at + 6);
  }

  /** WriteBucket. */
  method WriteBucket(f: DiskFile, b: Slots, offset: nat) returns (bucketlen: nat)
    requires |f.content| <= offset && b.entries != [] && BucketWritable(b) && offset + BucketLen(b) < TWO32
    modifies f
    ensures offset >= INDEX_FILE_HEADER && old(f.HeaderBlank()) ==> f.HeaderBlank()
    ensures bucketlen == BucketLen(b) > 0 && |f.content| == offset + bucketlen
    ensures BucketWritten(f.content, offset, b) && Agree(old(f.content), f.content, 0, |old(f.content)|)
    decreases b, 1
  {
    hide DiskFile.HeaderBlank, SlotWritten, ElementPos, BucketLen;
    ghost var before := f.content;
    NextElement(b, offset, 0);
    bucketlen := ELEMENT_POSITION_REC * |b.entries|;
    var nextelpos := offset + bucketlen;
    var j := 0;
    while j < |b.entries|
      invariant offset >= INDEX_FILE_HEADER && old(f.HeaderBlank()) ==> f.HeaderBlank()
      invariant j <= |b.entries| && nextelpos == ElementPos(b, offset, j) == offset + bucketlen
      invariant bucketlen >= 4 * |b.entries|
      invariant if j == 0 then |f.content| <= offset else |f.content| == nextelpos
      invariant Agree(before, f.content, 0, |before|)
      invariant forall k :: 0 <= k < j ==> SlotWritten(f.content, offset, b, k)
    {
      SlotInside(b, offset, j);
      NextElement(b, offset, j);
      var ellen := WriteSlot(f, b, offset, j, nextelpos);
      bucketlen := bucketlen + ellen;
      nextelpos := nextelpos + ellen;
      j := j + 1;
    }
    NextElement(b, offset, j - 1);
  }

  /** The loop body: the element position, and the element behind everything written so far. */
  method WriteSlot(f: DiskFile, b: Slots, offset: nat, j: nat, nextelpos: nat) returns (ellen: nat)
    requires j < |b.entries| && nextelpos == ElementPos(b, offset, j) && BucketWritable(b) && offset + BucketLen(b) < TWO32
    requires if j == 0 then |f.content| <= offset else |f.content| == nextelpos
    requires forall k :: 0 <= k < j ==> SlotWritten(f.content, offset, b, k)
    modifies f
    ensures offset >= INDEX_FILE_HEADER && old(f.HeaderBlank()) ==> f.HeaderBlank()
    ensures ellen == EntryLen(b.entries[j]) && |f.content| == nextelpos + ellen
    ensures Agree(old(f.content), f.content, 0, if j == 0 then |old(f.content)| else offset)
    ensures forall k :: 0 <= k <= j ==> SlotWritten(f.content, offset, b, k)
    decreases b, 0
  {
    hide DiskFile.HeaderBlank, SlotWritten, ElementPos, BucketLen, Bytes, Overwritten;
    SlotInside(b, offset, j);
    ghost var c := f.content;
    f.Seek(offset + j * ELEMENT_POSITION_REC);
    f.Write(Bytes(nextelpos, 4));
    ghost var d := f.content;
    ellen := WriteElement(f, nextelpos, b.entries[j]);
    SlotsKept(c, d, f.content, offset, b, j);
  }

  lemma SlotsKept(c: Image, d: Image, e: Image, at: nat, b: Slots, j: nat)
    requires j < |b.entries| && ElementPos(b, at, j) < TWO32
    requires if j == 0 then |c| <= at else |c| == ElementPos(b, at, j)
    requires forall k :: 0 <= k < j ==> SlotWritten(c, at, b, k)
    requires d == Overwritten(c, at + 4 * j, Bytes(ElementPos(b, at, j), 4)) && Agree(d, e, 0, |d|)
    requires EntryWritten(e, ElementPos(b, at, j), b.entries[j])
    ensures Agree(c, e, 0, if j == 0 then |c| else at)
    ensures forall k :: 0 <= k <= j ==> SlotWritten(e, at, b, k)
  {
    hide SlotWritten, ElementPos, BucketLen, Bytes, Overwritten, EntryWritten;
    SlotAdded(c, d, e, at, b, j);
    forall k | 0 <= k < j
      ensures SlotWritten(e, at, b, k)
    {
      SlotStays(c, d, e, at, b, j, k);
    }
  }

  lemma SlotAdded(c: Image, d: Image, e: Image, at: nat, b: Slots, j: nat)
    requires j < |b.entries| && ElementPos(b, at, j) < TWO32
    requires if j == 0 then |c| <= at else |c| == ElementPos(b, at, j)
    requires d == Overwritten(c, at + 4 * j, Bytes(ElementPos(b, at, j), 4)) && Agree(d, e, 0, |d|)
    requires EntryWritten(e, ElementPos(b, at, j), b.entries[j])
    ensures Agree(c, e, 0, if j == 0 then |c| else at) && SlotWritten(e, at, b, j)
  {
    hide SlotWritten, ElementPos, BucketLen, Bytes, Overwritten, EntryWritten, U32;
    var bytes, m := Bytes(ElementPos(b, at, j), 4), if j == 0 then |c| else at;
    HeaderLength(ElementPos(b, at, j), 0);
    SlotInside(b, at, j);
    BytesThere(c, at + 4 * j, bytes);
    Overwrites(c, at + 4 * j, bytes, 0, m);
    AgreeWithin(d, e, 0, |d|, 0, m);
    NumberWritten(c, at + 4 * j, ElementPos(b, at, j));
    AgreeWithin(d, e, 0, |d|, at + 4 * j, at + 4 * j + 4);
    SameFields(d, e, at + 4 * j);
    NewSlot(e, at, b, j);
  }

  lemma SlotStays(c: Image, d: Image, e: Image, at: nat, b: Slots, j: nat, k: nat)
    requires k < j < |b.entries| && |c| == ElementPos(b, at, j) && SlotWritten(c, at, b, k)
    requires d == Overwritten(c, at + 4 * j, Bytes(ElementPos(b, at, j), 4)) && Agree(d, e, 0, |d|)
    ensures SlotWritten(e, at, b, k)
  {
    hide SlotWritten, ElementPos, BucketLen, Bytes, Overwritten, EntryWritten;
    var bytes, p := Bytes(ElementPos(b, at, j), 4), ElementPos(b, at, k);
    HeaderLength(ElementPos(b, at, j), 0);
    SlotInside(b, at, j);
    SlotInside(b, at, k);
    ElementBelow(b, at, k, j);
    BytesThere(c, at + 4 * j, bytes);
    Overwrites(c, at + 4 * j, bytes, at + 4 * k, at + 4 * k + 4);
    Overwrites(c, at + 4 * j, bytes, p, p + EntryLen(b.entries[k]));
    SlotFrame(c, d, at, b, k);
    AgreeWithin(d, e, 0, |d|, at + 4 * k, at + 4 * k + 4);
    AgreeWithin(d, e, 0, |d|, p, p + EntryLen(b.entries[k]));
    SlotFrame(d, e, at, b, k);
  }

  lemma NewSlot(c: Image, at: nat, b: Slots, j: nat)
    requires j < |b.entries| && at + 4 * j + 4 <= |c| && U32(c, at + 4 * j) as nat == ElementPos(b, at, j)
    requires EntryWritten(c, ElementPos(b, at, j), b.entries[j])
    ensures SlotWritten(c, at, b, j)
  {}

  /** WriteHashTable. */
  method WriteHashTable(f: DiskFile, t: seq<Slots>, offset: nat) returns (size: nat)
    requires |f.content| <= offset && AllWritable(t) && offset + TableLen(t) < TWO32
    modifies f
    ensures offset >= INDEX_FILE_HEADER && old(f.HeaderBlank()) ==> f.HeaderBlank()
    ensures size == TableLen(t) && |f.content| == offset + size
    ensures TableWritten(f.content, offset, t) && Agree(old(f.content), f.content, 0, |old(f.content)|)
    decreases t, 3
  {
    hide DiskFile.HeaderBlank, RecordWritten, BucketPos, Bytes, Overwritten, U32;
    ghost var before := f.content;
    f.Seek(offset);
    f.Write(Bytes(|t|, 4));
    Appended(before, offset, Bytes(|t|, 4));
    NumberWritten(before, offset, |t|);
    var nextBucketRecOffset := offset + BUCKET_LIST_HEADER;
    var nextBucketOffset := nextBucketRecOffset + |t| * BUCKET_REC;
    NoBucketsYet(t, offset);
    var i := 0;
    while i < |t|
      invariant offset >= INDEX_FILE_HEADER && old(f.HeaderBlank()) ==> f.HeaderBlank()
      invariant i <= |t| && nextBucketRecOffset == offset + 4 + 8 * i && nextBucketOffset == BucketPos(t, offset, i)
      invariant |f.content| == if nextBucketOffset == offset + 4 + 8 * |t| then nextBucketRecOffset else nextBucketOffset
      invariant Agree(before, f.content, 0, |before|)
      invariant offset + 4 <= |f.content| && U32(f.content, offset) as nat == |t|
      invariant forall k :: 0 <= k < i ==> RecordWritten(f.content, offset, t, k)
    {
      ghost var now := f.content;
      NextBucket(t, offset, i);
      BucketInside(t, offset, i);
      var res := WriteRecord(f, t, offset, i, nextBucketOffset);
      AgreeWithin(now, f.content, 0, offset + 4, offset, offset + 4);
      SameFields(now, f.content, offset);
      nextBucketRecOffset := nextBucketRecOffset + BUCKET_REC;
      nextBucketOffset := nextBucketOffset + res;
      i := i + 1;
    }
    TableEnd(t, offset);
    size := nextBucketOffset - offset;
  }

  lemma NoBucketsYet(t: seq<Slots>, at: nat)
    ensures BucketPos(t, at, 0) == at + 4 + 8 * |t|
  {}

  lemma TableEnd(t: seq<Slots>, at: nat)
    ensures BucketPos(t, at, |t|) == at + TableLen(t)
  {
    assert t[..|t|] == t;
  }

  /** The loop body: WriteBucketRecord, and the bucket unless it is empty. */
  method WriteRecord(f: DiskFile, t: seq<Slots>, offset: nat, i: nat, nextBucketOffset: nat) returns (bucketlen: nat)
    requires i < |t| && nextBucketOffset == BucketPos(t, offset, i) && AllWritable(t) && offset + TableLen(t) < TWO32
    requires |f.content| == if nextBucketOffset == offset + 4 + 8 * |t| then offset + 4 + 8 * i else nextBucketOffset
    requires forall k :: 0 <= k < i ==> RecordWritten(f.content, offset, t, k)
    modifies f
    ensures offset >= INDEX_FILE_HEADER && old(f.HeaderBlank()) ==> f.HeaderBlank()
    ensures bucketlen == BucketLen(t[i])
    ensures |f.content| == if nextBucketOffset + bucketlen == offset + 4 + 8 * |t| then offset + 12 + 8 * i else nextBucketOffset + bucketlen
    ensures Agree(old(f.content), f.content, 0, offset + 4)
    ensures forall k :: 0 <= k <= i ==> RecordWritten(f.content, offset, t, k)
    decreases t, 2
  {
    hide DiskFile.HeaderBlank, RecordWritten, BucketPos, BucketWritten, Bytes, Overwritten, U32;
    BucketInside(t, offset, i);
    ghost var c := f.content;
    f.Seek(offset + BUCKET_LIST_HEADER + BUCKET_REC * i);
    f.Write(Bytes(|t[i].entries|, 4) + Bytes(nextBucketOffset, 4));
    ghost var d := f.content;
    if |t[i].entries| > 0 {
      bucketlen := WriteBucket(f, t[i], nextBucketOffset);
    } else {
      bucketlen := 0;
    }
    RecordsKept(c, d, f.content, offset, t, i);
  }

  /** How far the file reaches when the first i buckets are written. */
  ghost function Reach(t: seq<Slots>, at: nat, i: nat): nat
    requires i <= |t|
  {
    if BucketPos(t, at, i) == at + 4 + 8 * |t| then at + 4 + 8 * i else BucketPos(t, at, i)
  }

  lemma ReachInside(t: seq<Slots>, at: nat, i: nat)
    requires i < |t|
    ensures at + 4 + 8 * i <= Reach(t, at, i)
  {
    BucketInside(t, at, i);
  }

  lemma RecordsKept(c: Image, d: Image, e: Image, at: nat, t: seq<Slots>, i: nat)
    requires i < |t| && at + TableLen(t) < TWO32
    requires |c| == Reach(t, at, i)
    requires forall k :: 0 <= k < i ==> RecordWritten(c, at, t, k)
    requires d == Overwritten(c, at + 4 + 8 * i, Bytes(|t[i].entries|, 4) + Bytes(BucketPos(t, at, i), 4)) && Agree(d, e, 0, |d|)
    requires t[i].entries != [] ==> BucketWritten(e, BucketPos(t, at, i), t[i])
    ensures Agree(c, e, 0, at + 4)
    ensures forall k :: 0 <= k <= i ==> RecordWritten(e, at, t, k)
  {
    hide RecordWritten, BucketPos, BucketWritten, Bytes, Overwritten, U32, BucketLen, Reach, TableLen;
    ReachInside(t, at, i);
    var p, bytes := at + 4 + 8 * i, Bytes(|t[i].entries|, 4) + Bytes(BucketPos(t, at, i), 4);
    HeaderLength(|t[i].entries|, BucketPos(t, at, i));
    BucketInside(t, at, i);
    BytesThere(c, p, bytes);
    Overwrites(c, p, bytes, 0, at + 4);
    AgreeWithin(d, e, 0, |d|, 0, at + 4);
    RecordFields(d, e, at, t, i);
    forall k | 0 <= k < i
      ensures RecordWritten(e, at, t, k)
    {
      RecordStays(c, d, e, at, t, i, k);
    }
  }

  lemma RecordStays(c: Image, d: Image, e: Image, at: nat, t: seq<Slots>, i: nat, k: nat)
    requires k < i < |t| && RecordWritten(c, at, t, k)
    requires |c| == Reach(t, at, i)
    requires d == Overwritten(c, at + 4 + 8 * i, Bytes(|t[i].entries|, 4) + Bytes(BucketPos(t, at, i), 4)) && Agree(d, e, 0, |d|)
    ensures RecordWritten(e, at, t, k)
  {
    hide RecordWritten, BucketPos, BucketWritten, Bytes, Overwritten, U32;
    var p, bytes := at + 4 + 8 * i, Bytes(|t[i].entries|, 4) + Bytes(BucketPos(t, at, i), 4);
    var q, r := at + 4 + 8 * k, BucketPos(t, at, k);
    HeaderLength(|t[i].entries|, BucketPos(t, at, i));
    BucketInside(t, at, i);
    BucketInside(t, at, k);
    BucketBelow(t, at, k, i);
    BytesThere(c, p, bytes);
    Overwrites(c, p, bytes, q, q + 8);
    AgreeWithin(d, e, 0, |d|, q, q + 8);
    if t[k].entries != [] {
      Overwrites(c, p, bytes, r, r + BucketLen(t[k]));
      AgreeWithin(d, e, 0, |d|, r, r + BucketLen(t[k]));
    }
    RecordFrame(c, d, at, t, k);
    RecordFrame(d, e, at, t, k);
  }

  lemma RecordFields(d: Image, e: Image, at: nat, t: seq<Slots>, i: nat)
    requires i < |t| && at + TableLen(t) < TWO32 && at + 12 + 8 * i <= |d| && Agree(d, e, 0, |d|)
    requires d[at + 4 + 8 * i..at + 12 + 8 * i] == Bytes(|t[i].entries|, 4) + Bytes(BucketPos(t, at, i), 4)
    requires t[i].entries != [] ==> BucketWritten(e, BucketPos(t, at, i), t[i])
    ensures RecordWritten(e, at, t, i)
  {
    hide BucketPos, BucketWritten, Bytes, Network, Power256;
    var p := at + 4 + 8 * i;
    BucketInside(t, at, i);
    Powers();
    FieldsWritten(d, p, |t[i].entries|, 4, BucketPos(t, at, i), 4);
    AgreeWithin(d, e, 0, |d|, p, p + 4);
    AgreeWithin(d, e, 0, |d|, p + 4, p + 8);
  }
}
