/** hw3/FileIndexReader.cc: opening an index file. */
module FileIndexReaders {
  import opened Chains
  import opened Fnv
  import opened Layouts
  import opened Crc32
  import opened CrcProperties
  import opened HashTableReaders
  import opened DocTableReaders
  import opened IndexTableReaders

  const MAGIC_NUMBER: uint32 := 0xCAFEF00D

  /** A byte of the file as the CRC takes it. */
  function AsOctet(b: byte): bv8 {
    var n := b as nat;
    Flags(n % 2 == 1, n / 2 % 2 == 1, n / 4 % 2 == 1, n / 8 % 2 == 1, n / 16 % 2 == 1, n / 32 % 2 == 1, n / 64 % 2 == 1, n / 128 % 2 == 1)
  }

  function Flags(b0: bool, b1: bool, b2: bool, b3: bool, b4: bool, b5: bool, b6: bool, b7: bool): bv8 {
    Flag(b0, 1) | Flag(b1, 2) | Flag(b2, 4) | Flag(b3, 8) | Flag(b4, 16) | Flag(b5, 32) | Flag(b6, 64) | Flag(b7, 128)
  }

  function Flag(on: bool, bit: bv8): bv8 {
    if on then bit else 0
  }

  function Octets(image: Image): (s: seq<bv8>)
    ensures |s| == |image|
  {
    seq(|image|, i requires 0 <= i < |image| => AsOctet(image[i]))
  }

  /** How many of the n bytes behind the header the checksum loop reads: it counts down a
      32-bit number 512 at a time. */
  function Covered(n: nat): (k: nat)
    ensures k <= n && (n < TWO32 ==> k == n)
  {
    if n % 512 == 0 then n % TWO32 else n
  }

  /** The header agrees with the length of the file. */
  ghost predicate HeaderFits(image: Image) {
    && |image| >= 16 && U32(image, 0) == MAGIC_NUMBER
    && |image| % TWO32 == (16 + U32(image, 8) as nat + U32(image, 12) as nat) % TWO32
  }

  ghost function Body(image: Image): Image
    requires |image| >= 16
  {
    image[16..16 + Covered(|image| - 16)]
  }

  /** The constructor's checks. */
  ghost predicate Accepts(image: Image, validate: bool) {
    && HeaderFits(image)
    && (validate ==> Checksum(Octets(Body(image))) as int == U32(image, 4) as int)
  }

  class FileIndexReader {
    const file: DiskFile
    const doctableSize: uint32
    const indexSize: uint32

    constructor (f: DiskFile, doctableSize: uint32, indexSize: uint32)
      ensures file == f && this.doctableSize == doctableSize && this.indexSize == indexSize
    {
      file, this.doctableSize, this.indexSize := f, doctableSize, indexSize;
    }

    method GetDocTableReader(ghost names: Names) returns (r: DocTableReader)
      requires StoresNames(file.content, INDEX_FILE_HEADER, names)
      modifies file`pos
      ensures fresh(r) && r.Valid() && r.names == names && r.table.file == file && fresh(r.table)
    {
      hide StoresNames;
      r := new DocTableReader(file, INDEX_FILE_HEADER, names);
    }

    method GetIndexTableReader(ghost words: WordIndex) returns (r: IndexTableReader)
      requires StoresWords(file.content, (INDEX_FILE_HEADER + doctableSize as nat) % TWO32, words)
      modifies file`pos
      ensures fresh(r) && r.Valid() && r.words == words && r.table.file == file && fresh(r.table)
    {
      hide StoresWords;
      r := new IndexTableReader(file, (INDEX_FILE_HEADER + doctableSize as nat) % TWO32, words);
    }
  }

  /** The constructor of FileIndexReader on a file just opened; null when it stops the program. */
  method Open(f: DiskFile, validate: bool) returns (fir: FileIndexReader?)
    modifies f`pos
    ensures (fir != null) == Accepts(f.content, validate)
    ensures fir != null ==> fresh(fir) && fir.file == f && fir.doctableSize == U32(f.content, 8)
  {
    hide U32, Checksum, Octets;
    f.Seek(0);
    if |f.content| < INDEX_FILE_HEADER {
      return null;
    }
    var magicNumber := f.ReadU32();
    var checksum := f.ReadU32();
    var doctableSize := f.ReadU32();
    var indexSize := f.ReadU32();
    if magicNumber != MAGIC_NUMBER {
      return null;
    }
    if |f.content| % TWO32 != (INDEX_FILE_HEADER + doctableSize as nat + indexSize as nat) % TWO32 {
      return null;
    }
    if validate {
      LengthLeft(|f.content|, doctableSize as nat + indexSize as nat);
      var crc := ChecksumBody(f, (doctableSize as nat + indexSize as nat) % TWO32);
      if crc as int != checksum as int {
        return null;
      }
    }
    fir := new FileIndexReader(f, doctableSize, indexSize);
  }

  lemma LengthLeft(length: nat, body: nat)
    requires length >= 16 && length % TWO32 == (16 + body) % TWO32
    ensures body % TWO32 == (length - 16) % TWO32
  {}

  /** The checksum loop. */
  method ChecksumBody(f: DiskFile, length: nat) returns (crc: bv32)
    requires |f.content| >= 16 && f.pos == 16 && length == (|f.content| - 16) % TWO32
    modifies f`pos
    ensures crc == Checksum(Octets(Body(f.content)))
  {
    hide Checksum, Octets, CRC32.Valid;
    ghost var n := |f.content| - 16;
    var crcobj := new CRC32();
    var leftToRead := length;
    NothingRead(f.content);
    while leftToRead > 0
      invariant 16 <= f.pos <= |f.content| && f.content == old(f.content)
      invariant crcobj.Valid() && !crcobj.finalized && fresh(crcobj) && fresh(crcobj.table)
      invariant crcobj.fed == Octets(f.content[16..f.pos])
      invariant f.pos >= 16 && leftToRead >= 0 && Progress(n, f.pos - 16, leftToRead)
      decreases |f.content| - f.pos
    {
      ghost var before := f.pos;
      MoreToCome(n, f.pos - 16, leftToRead);
      var buf := f.Read(512);
      FoldBuffer(crcobj, buf);
      OctetsAppend(f.content, before, f.pos);
      leftToRead := (leftToRead - |buf|) % TWO32;
    }
    AllCovered(n, f.pos - 16);
    crc := crcobj.GetFinalCRC();
  }

  /** After k of n bytes: the counter is what is left modulo 2^32, and it has not missed zero. */
  ghost predicate Progress(n: nat, k: nat, left: nat) {
    && k <= Covered(n) && left == (n - k) % TWO32
    && (k % 512 == 0 || k == n)
  }

  lemma LeftOver(n: nat, k: nat)
    requires k <= n % TWO32
    ensures (n - k) % TWO32 == n % TWO32 - k
  {}

  lemma LessLeft(n: nat, d: nat)
    ensures (n % TWO32 - d) % TWO32 == (n - d) % TWO32
  {}

  lemma LowMultiple(n: nat)
    requires n % 512 == 0
    ensures n % TWO32 % 512 == 0
  {}

  lemma NextMultiple(a: nat, b: nat)
    requires a % 512 == 0 && b % 512 == 0 && a < b
    ensures a + 512 <= b && (a + 512) % 512 == 0
  {}

  /** Where the next read ends. */
  function NextRead(n: nat, k: nat): nat {
    if k + 512 <= n then k + 512 else n
  }

  lemma NextCovered(n: nat, k: nat)
    requires k <= Covered(n) && k % 512 == 0 && (n - k) % TWO32 > 0
    ensures k < n && k <= NextRead(n, k) <= Covered(n) && (NextRead(n, k) % 512 == 0 || NextRead(n, k) == n)
  {
    if n % 512 == 0 {
      LeftOver(n, k);
      LowMultiple(n);
      NextMultiple(k, n % TWO32);
    } else if k + 512 <= n {
      NextMultiple(k, k + 512);
    }
  }

  lemma MoreToCome(n: nat, k: nat, left: nat)
    requires Progress(n, k, left) && left > 0
    ensures k < n && k <= NextRead(n, k) && Progress(n, NextRead(n, k), (left - (NextRead(n, k) - k)) % TWO32)
  {
    hide Covered, NextRead;
    if k < n {
      NextCovered(n, k);
      LessLeft(n - k, NextRead(n, k) - k);
    }
  }

  lemma AllCovered(n: nat, k: nat)
    requires Progress(n, k, 0)
    ensures k == Covered(n)
  {
    if n % 512 == 0 {
      LeftOver(n, k);
    } else if k != n {
      BothMultiples(n - k);
      DifferenceOf(n, k);
    }
  }

  lemma BothMultiples(d: nat)
    requires d % TWO32 == 0
    ensures d % 512 == 0
  {}

  lemma DifferenceOf(n: nat, k: nat)
    requires k <= n && k % 512 == 0 && (n - k) % 512 == 0
    ensures n % 512 == 0
  {}

  lemma NothingRead(image: Image)
    requires |image| >= 16
    ensures Octets(image[16..16]) == []
    ensures Progress(|image| - 16, 0, (|image| - 16) % TWO32)
  {}

  lemma OctetsAppend(image: Image, i: nat, j: nat)
    requires 16 <= i <= j <= |image|
    ensures Octets(image[16..j]) == Octets(image[16..i]) + Octets(image[i..j])
  {}

  /** The inner loop. */
  method FoldBuffer(crcobj: CRC32, buf: Image)
    requires crcobj.Valid() && !crcobj.finalized
    modifies crcobj
    ensures crcobj.Valid() && !crcobj.finalized && crcobj.fed == old(crcobj.fed) + Octets(buf)
  {
    hide CRC32.Valid;
    var i := 0;
    while i < |buf|
      invariant i <= |buf| && crcobj.Valid() && !crcobj.finalized
      invariant crcobj.fed == old(crcobj.fed) + Octets(buf[..i])
    {
      assert Octets(buf[..i + 1]) == Octets(buf[..i]) + [AsOctet(buf[i])];
      crcobj.FoldByteIntoCRC(AsOctet(buf[i]));
      i := i + 1;
    }
    assert buf[..i] == buf;
  }

  function Digit(on: bool, value: nat): nat {
    if on then value else 0
  }

  lemma FlagsValue(b0: bool, b1: bool, b2: bool, b3: bool, b4: bool, b5: bool, b6: bool, b7: bool)
    ensures Flags(b0, b1, b2, b3, b4, b5, b6, b7) as nat ==
      Digit(b0, 1) + Digit(b1, 2) + Digit(b2, 4) + Digit(b3, 8) + Digit(b4, 16) + Digit(b5, 32) + Digit(b6, 64) + Digit(b7, 128)
  {}

  lemma DigitSum(n: nat)
    requires n < 256
    ensures n == n % 2 + 2 * (n / 2 % 2) + 4 * (n / 4 % 2) + 8 * (n / 8 % 2)
      + 16 * (n / 16 % 2) + 32 * (n / 32 % 2) + 64 * (n / 64 % 2) + 128 * (n / 128 % 2)
  {
    Halved(n);
  }

  lemma FlagsNumber(d0: nat, d1: nat, d2: nat, d3: nat, d4: nat, d5: nat, d6: nat, d7: nat)
    requires d0 < 2 && d1 < 2 && d2 < 2 && d3 < 2 && d4 < 2 && d5 < 2 && d6 < 2 && d7 < 2
    ensures Flags(d0 == 1, d1 == 1, d2 == 1, d3 == 1, d4 == 1, d5 == 1, d6 == 1, d7 == 1) as nat ==
      d0 + 2 * d1 + 4 * d2 + 8 * d3 + 16 * d4 + 32 * d5 + 64 * d6 + 128 * d7
  {
    hide Flags;
    FlagsValue(d0 == 1, d1 == 1, d2 == 1, d3 == 1, d4 == 1, d5 == 1, d6 == 1, d7 == 1);
  }

  /** The CRC takes a byte as the number that it is. */
  lemma OctetValue(b: byte)
    ensures AsOctet(b) as int == b as int
  {
    hide Flags;
    var n := b as nat;
    DigitSum(n);
    FlagsNumber(n % 2, n / 2 % 2, n / 4 % 2, n / 8 % 2, n / 16 % 2, n / 32 % 2, n / 64 % 2, n / 128 % 2);
  }

  lemma Halved(n: nat)
    requires n < 256
    ensures n / 2 / 2 == n / 4 && n / 4 / 2 == n / 8 && n / 8 / 2 == n / 16 && n / 16 / 2 == n / 32
    ensures n / 32 / 2 == n / 64 && n / 64 / 2 == n / 128 && n / 128 / 2 == 0
  {}

  lemma OctetInjective(a: byte, b: byte)
    requires AsOctet(a) == AsOctet(b)
    ensures a == b
  {
    hide AsOctet;
    OctetValue(a);
    OctetValue(b);
  }

  lemma OctetsInjective(a: Image, b: Image)
    requires |a| == |b| && Octets(a) == Octets(b)
    ensures a == b
  {
    forall i | 0 <= i < |a|
      ensures a[i] == b[i]
    {
      assert Octets(a)[i] == Octets(b)[i];
      OctetInjective(a[i], b[i]);
    }
  }

  lemma OctetsSplit(a: Image, b: Image, c: Image)
    ensures Octets(a + b + c) == Octets(a) + Octets(b) + Octets(c)
  {}

  /** What of a piece lies before position c, where the piece starts at position at. */
  function Clip(piece: Image, at: nat, c: nat): Image {
    if c <= at then [] else if c >= at + |piece| then piece else piece[..c - at]
  }

  lemma ClippedParts(pre: Image, x: Image, post: Image, c: nat)
    requires c <= |pre| + |x| + |post|
    ensures (pre + x + post)[..c] == Clip(pre, 0, c) + Clip(x, |pre|, c) + Clip(post, |pre| + |x|, c)
  {}

  /** Equal covered parts come from equal windows. */
  lemma WindowsDiffer(a: Image, x: Image, y: Image, b: Image)
    requires |x| == |y|
    ensures a + x + b == a + y + b <==> x == y
  {
    if a + x + b == a + y + b {
      assert x == (a + x + b)[|a|..|a| + |x|] && y == (a + y + b)[|a|..|a| + |y|];
    }
  }

  lemma BodyOf(header: Image, body: Image)
    requires |header| == 16
    ensures Body(header + body) == body[..Covered(|body|)]
  {
    hide Covered;
    var c, all := Covered(|body|), header + body;
    assert all[16..16 + c] == body[..c];
  }

  lemma ClipLength(x: Image, y: Image, at: nat, c: nat)
    requires |x| == |y|
    ensures |Clip(x, at, c)| == |Clip(y, at, c)| <= |x|
  {}

  lemma ChecksumWindow(a: Image, x: Image, y: Image, b: Image)
    requires |x| == |y| <= 4
    ensures Checksum(Octets(a + x + b)) as int == Checksum(Octets(a + y + b)) as int <==> x == y
  {
    hide Checksum, Octets;
    if x != y {
      OctetsSplit(a, x, b);
      OctetsSplit(a, y, b);
      if Octets(x) == Octets(y) {
        OctetsInjective(x, y);
      }
      FourByteWindow(Octets(a), Octets(x), Octets(y), Octets(b));
      AsNumbers(Checksum(Octets(a + x + b)), Checksum(Octets(a + y + b)));
    }
  }

  /** Up to four consecutive bytes behind the header were changed. A file that was valid is opened
      with validation exactly when the change spares the part that the checksum loop reads. */
  lemma DamageIsDetected(header: Image, pre: Image, x: Image, y: Image, post: Image)
    requires |header| == 16 && |x| == |y| <= 4
    requires Accepts(header + (pre + x + post), true)
    ensures var c := Covered(|pre| + |x| + |post|);
      Accepts(header + (pre + y + post), true) <==> (pre + x + post)[..c] == (pre + y + post)[..c]
  {
    hide Checksum, U32, Octets, HeaderFits, Body, Covered, Clip;
    var good, bad, c := header + (pre + x + post), header + (pre + y + post), Covered(|pre| + |x| + |post|);
    BodyOf(header, pre + x + post);
    BodyOf(header, pre + y + post);
    assert forall i :: 0 <= i < 16 ==> good[i] == header[i] == bad[i];
    SameHeader(good, bad);
    ClippedParts(pre, x, post, c);
    ClippedParts(pre, y, post, c);
    ClipLength(x, y, |pre|, c);
    var a, b := Clip(pre, 0, c), Clip(post, |pre| + |x|, c);
    WindowsDiffer(a, Clip(x, |pre|, c), Clip(y, |pre|, c), b);
    ChecksumWindow(a, Clip(x, |pre|, c), Clip(y, |pre|, c), b);
  }

  /** Below 4 GiB the whole file is read, and every such change is found. */
  lemma ShortFilesAreCovered(header: Image, pre: Image, x: Image, y: Image, post: Image)
    requires |header| == 16 && |x| == |y| <= 4 && x != y && |pre| + |x| + |post| < TWO32
    requires Accepts(header + (pre + x + post), true)
    ensures !Accepts(header + (pre + y + post), true)
  {
    hide Accepts, Checksum, U32, Octets;
    DamageIsDetected(header, pre, x, y, post);
    assert (pre + x + post)[..|pre| + |x| + |post|] == pre + x + post;
    assert (pre + y + post)[..|pre| + |x| + |post|] == pre + y + post;
    WindowsDiffer(pre, x, y, post);
  }

  /** The header of an index file with two tables of length zero. */
  const EMPTY_HEADER: Image := [0xCA, 0xFE, 0xF0, 0x0D] + [0, 0, 0, 0] + [0, 0, 0, 0] + [0, 0, 0, 0]

  lemma EmptyHeader(image: Image)
    requires |image| >= 16 && image[..16] == EMPTY_HEADER && |image| % TWO32 == 16
    ensures HeaderFits(image) && U32(image, 4) == 0
  {
    assert image[0..4] == image[..16][0..4] == [0xCA, 0xFE, 0xF0, 0x0D];
    assert forall k :: 4 <= k < 16 ==> image[k] == image[..16][k] == 0;
    assert image[4..8] == image[8..12] == image[12..16] == [0, 0, 0, 0];
    Numbers();
  }

  lemma Numbers()
    ensures Network([0xCA, 0xFE, 0xF0, 0x0D]) == MAGIC_NUMBER as nat && Network([0, 0, 0, 0]) == 0
  {
    NetworkOfFour(0xCA, 0xFE, 0xF0, 0x0D);
    NetworkOfFour(0, 0, 0, 0);
  }

  /** Behind this header 4 GiB can hold anything: none of it is read, and the file is opened. */
  lemma LongFilesGoUnread(body: Image)
    requires |body| == TWO32
    ensures Accepts(EMPTY_HEADER + body, true)
  {
    hide Checksum, HeaderFits, U32;
    var image := EMPTY_HEADER + body;
    assert image[..16] == EMPTY_HEADER;
    EmptyHeader(image);
    BodyOf(EMPTY_HEADER, body);
    assert Octets([]) == [];
    ChecksumOfNothing();
  }

  lemma ChecksumOfNothing()
    ensures Checksum([]) == 0
  {}

  /** Damage that is not detected: two files that differ in one byte are both opened. */
  lemma UndetectedDamage() returns (good: Image, bad: Image)
    ensures |good| == |bad| == 16 + TWO32 && good[16] == 0 && bad[16] == 1 && good[17..] == bad[17..]
    ensures Accepts(good, true) && Accepts(bad, true)
  {
    hide Accepts;
    var rest := seq(TWO32 - 1, _ => 0 as byte);
    good, bad := EMPTY_HEADER + ([0] + rest), EMPTY_HEADER + ([1] + rest);
    LongFilesGoUnread([0] + rest);
    LongFilesGoUnread([1] + rest);
    assert good[17..] == rest == bad[17..];
  }

  lemma AsNumbers(a: bv32, b: bv32)
    requires a != b
    ensures a as int != b as int
  {
    assert (a as int) as bv32 == a && (b as int) as bv32 == b;
  }

  lemma SameHeader(a: Image, b: Image)
    requires |a| == |b| >= 16 && a[..16] == b[..16]
    ensures U32(a, 4) == U32(b, 4) && (HeaderFits(a) <==> HeaderFits(b))
  {
    hide Network;
    assert forall i :: 0 <= i < 16 ==> a[i] == a[..16][i] == b[..16][i] == b[i];
    assert a[0..4] == b[0..4] && a[4..8] == b[4..8] && a[8..12] == b[8..12] && a[12..16] == b[12..16];
  }
}
