/** hw3/filelayout.h and the byte-order macro of hw3/fileindexutil.h: numbers in an index file. */
module Layouts {
  import opened Chains
  import opened Fnv

  type Image = seq<byte>

  const INDEX_FILE_HEADER: nat := 16
  const BUCKET_LIST_HEADER: nat := 4
  const BUCKET_REC: nat := 8
  const ELEMENT_POSITION_REC: nat := 4
  const DOCTABLE_ELEMENT_HEADER: nat := 10
  const WORDDOCSET_HEADER: nat := 6
  const DOCID_ELEMENT_HEADER: nat := 12
  const DOCID_ELEMENT_POSITION: nat := 4

  function Power256(n: nat): (p: nat)
    ensures p > 0
  {
    if n == 0 then 1 else 256 * Power256(n - 1)
  }

  /** The number in network order, most significant byte first. */
  function Network(bytes: Image): (n: nat)
    ensures n < Power256(|bytes|)
  {
    if bytes == [] then 0 else 256 * Network(bytes[..|bytes| - 1]) + bytes[|bytes| - 1] as nat
  }

  /** The k bytes of a number in network order. */
  function Bytes(n: nat, k: nat): (bytes: Image)
    ensures |bytes| == k
  {
    if k == 0 then [] else Bytes(n / 256, k - 1) + [(n % 256) as byte]
  }

  lemma FitsIff(n: nat, p: nat)
    ensures n < 256 * p <==> n / 256 < p
  {}

  /** toHostFormat undoes toDiskFormat: what is written in k bytes is read back if it fits. */
  lemma {:induction false} DiskRoundTrip(n: nat, k: nat)
    ensures Network(Bytes(n, k)) == n <==> n < Power256(k)
  {
    if k > 0 {
      DiskRoundTrip(n / 256, k - 1);
      FitsIff(n, Power256(k - 1));
      ReadLast(Bytes(n / 256, k - 1), (n % 256) as byte);
    }
  }

  lemma ReadLast(bytes: Image, b: byte)
    ensures Network(bytes + [b]) == 256 * Network(bytes) + b as nat
  {
    assert (bytes + [b])[..|bytes|] == bytes;
  }

  lemma WriteLast(n: nat, b: byte, k: nat)
    ensures Bytes(256 * n + b as nat, k + 1) == Bytes(n, k) + [b]
  {}

  lemma {:induction false} HostRoundTrip(bytes: Image)
    ensures Bytes(Network(bytes), |bytes|) == bytes
  {
    if bytes != [] {
      var init, last := bytes[..|bytes| - 1], bytes[|bytes| - 1];
      assert bytes == init + [last];
      HostRoundTrip(init);
      WriteLast(Network(init), last, |init|);
    }
  }

  // ---- Byte order of the host ----

  /** The number in the order of a little-endian host, least significant byte first. */
  function LittleEndian(bytes: Image): (n: nat)
    ensures n < Power256(|bytes|)
  {
    if bytes == [] then 0 else bytes[0] as nat + 256 * LittleEndian(bytes[1..])
  }

  function LittleBytes(n: nat, k: nat): (bytes: Image)
    ensures |bytes| == k
  {
    if k == 0 then [] else [(n % 256) as byte] + LittleBytes(n / 256, k - 1)
  }

  /** What a host finds in a field after fread. */
  function Loaded(bytes: Image, littleEndian: bool): nat {
    if littleEndian then LittleEndian(bytes) else Network(bytes)
  }

  /** ntohl and htonl, on a number of up to 32 bits. */
  function Ntohl(x: nat, littleEndian: bool): nat {
    if littleEndian then Network(LittleBytes(x, 4)) else x
  }

  /** The ntohll macro: each 32-bit half is converted and the halves change places. */
  function Ntohll(x: nat, littleEndian: bool): nat {
    Ntohl(x % TWO32, littleEndian) * TWO32 + Ntohl(x / TWO32, littleEndian)
  }

  lemma DivBack(b: nat, n: nat)
    requires b < 256
    ensures (b + 256 * n) % 256 == b && (b + 256 * n) / 256 == n
  {}

  lemma {:induction false} LittleRoundTrip(bytes: Image)
    ensures LittleBytes(LittleEndian(bytes), |bytes|) == bytes
  {
    if bytes != [] {
      LittleRoundTrip(bytes[1..]);
      DivBack(bytes[0] as nat, LittleEndian(bytes[1..]));
    }
  }

  lemma NtohlLoads(bytes: Image, littleEndian: bool)
    requires |bytes| == 4
    ensures Ntohl(Loaded(bytes, littleEndian), littleEndian) == Network(bytes)
  {
    LittleRoundTrip(bytes);
  }

  lemma Scale(a: nat, p: nat)
    ensures 256 * (a * p) == a * (256 * p) == (256 * p) * a == 256 * (p * a)
  {}

  lemma NetworkLast(init: Image, c: byte)
    ensures Network(init + [c]) == 256 * Network(init) + c as nat
  {}

  lemma {:induction false} NetworkAppend(a: Image, b: Image)
    ensures Network(a + b) == Network(a) * Power256(|b|) + Network(b)
    decreases |b|
  {
    hide Network;
    if b == [] {
      assert a + b == a;
      NothingLoaded();
    } else {
      var init, c := b[..|b| - 1], b[|b| - 1];
      assert a + b == a + init + [c] && b == init + [c];
      NetworkAppend(a, init);
      NetworkLast(a + init, c);
      NetworkLast(init, c);
      Scale(Network(a), Power256(|init|));
    }
  }

  lemma NothingLoaded()
    ensures Network([]) == 0 == LittleEndian([])
  {}

  lemma LittleFirst(c: byte, rest: Image)
    ensures LittleEndian([c] + rest) == c as nat + 256 * LittleEndian(rest)
  {}

  lemma {:induction false} LittleAppend(a: Image, b: Image)
    ensures LittleEndian(a + b) == LittleEndian(a) + Power256(|a|) * LittleEndian(b)
    decreases |a|
  {
    hide LittleEndian;
    if a == [] {
      assert a + b == b;
      NothingLoaded();
    } else {
      var c, rest := a[0], a[1..];
      assert a + b == [c] + (rest + b) && a == [c] + rest;
      LittleAppend(rest, b);
      LittleFirst(c, rest + b);
      LittleFirst(c, rest);
      Scale(LittleEndian(b), Power256(|rest|));
    }
  }

  lemma FourBytes()
    ensures Power256(4) == TWO32
  {
    assert Power256(2) == 65536;
  }

  lemma Halves(hi: nat, lo: nat)
    requires lo < TWO32
    ensures (hi * TWO32 + lo) % TWO32 == lo && (hi * TWO32 + lo) / TWO32 == hi
  {}

  /** A 64-bit field is read correctly on every little-endian host; on a big-endian host, where
      the macro is documented to have no effect, only when its two halves are equal. */
  lemma NtohllLoadsIff(bytes: Image, littleEndian: bool)
    requires |bytes| == 8
    ensures Ntohll(Loaded(bytes, littleEndian), littleEndian) == Network(bytes)
       <==> littleEndian || bytes[..4] == bytes[4..]
  {
    hide Network, LittleEndian, LittleBytes, Power256;
    var a, b := bytes[..4], bytes[4..];
    assert bytes == a + b;
    FourBytes();
    NetworkAppend(a, b);
    if littleEndian {
      LittleAppend(a, b);
      NtohlLoads(a, true);
      NtohlLoads(b, true);
      Halves(LittleEndian(b), LittleEndian(a));
    } else {
      Halves(Network(a), Network(b));
      Halves(Network(b), Network(a));
      HostRoundTrip(a);
      HostRoundTrip(b);
    }
  }

  // ---- Fields of an image ----

  function U16(image: Image, at: nat): (n: nat)
    requires at + 2 <= |image|
    ensures n < 65536
  {
    assert Power256(2) == 65536;
    Network(image[at..at + 2])
  }

  function U32(image: Image, at: nat): uint32
    requires at + 4 <= |image|
  {
    FourBytes();
    Network(image[at..at + 4]) as uint32
  }

  function U64(image: Image, at: nat): uint64
    requires at + 8 <= |image|
  {
    EightBytes();
    Network(image[at..at + 8]) as uint64
  }

  lemma EightBytes()
    ensures Power256(8) == TWO64
  {
    FourBytes();
    assert Power256(8) == 256 * (256 * (256 * (256 * Power256(4))));
  }

  // ---- Fields, byte by byte ----

  /** Fields of two, four and eight bytes, the most significant first. */
  function Big2(image: Image, at: nat): nat
    requires at + 2 <= |image|
  {
    256 * image[at] as nat + image[at + 1] as nat
  }

  function Big4(image: Image, at: nat): nat
    requires at + 4 <= |image|
  {
    16777216 * image[at] as nat + 65536 * image[at + 1] as nat + 256 * image[at + 2] as nat + image[at + 3] as nat
  }

  function Big8(image: Image, at: nat): nat
    requires at + 8 <= |image|
  {
    4294967296 * Big4(image, at) + Big4(image, at + 4)
  }

  lemma NetworkOfFour(a: byte, b: byte, c: byte, d: byte)
    ensures Network([a, b]) == 256 * a as nat + b as nat
    ensures Network([a, b, c, d]) == 16777216 * a as nat + 65536 * b as nat + 256 * c as nat + d as nat
  {
    assert [a, b, c, d][..3] == [a, b, c] && [a, b, c][..2] == [a, b] && [a, b][..1] == [a] && [a][..0] == [];
    assert Network([a]) == a as nat;
    assert Network([a, b]) == 256 * a as nat + b as nat;
    assert Network([a, b, c]) == 256 * (256 * a as nat + b as nat) + c as nat;
  }

  lemma LittleOfFour(a: byte, b: byte, c: byte, d: byte)
    ensures LittleEndian([a, b, c, d]) == a as nat + 256 * b as nat + 65536 * c as nat + 16777216 * d as nat
  {
    assert [a, b, c, d][1..] == [b, c, d] && [b, c, d][1..] == [c, d] && [c, d][1..] == [d] && [d][1..] == [];
    assert LittleEndian([d]) == d as nat;
    assert LittleEndian([c, d]) == c as nat + 256 * d as nat;
    assert LittleEndian([b, c, d]) == b as nat + 256 * (c as nat + 256 * d as nat);
  }

  lemma Field2(image: Image, at: nat)
    requires at + 2 <= |image|
    ensures U16(image, at) == Big2(image, at)
  {
    hide Network;
    NetworkOfFour(image[at], image[at + 1], 0, 0);
    assert image[at..at + 2] == [image[at], image[at + 1]];
  }

  lemma Field4(image: Image, at: nat)
    requires at + 4 <= |image|
    ensures U32(image, at) as nat == Big4(image, at) == Network(image[at..at + 4])
  {
    hide Network;
    NetworkOfFour(image[at], image[at + 1], image[at + 2], image[at + 3]);
    assert image[at..at + 4] == [image[at], image[at + 1], image[at + 2], image[at + 3]];
    FourBytes();
  }

  lemma Field8(image: Image, at: nat)
    requires at + 8 <= |image|
    ensures U64(image, at) as nat == Big8(image, at)
  {
    hide Network;
    Field4(image, at);
    Field4(image, at + 4);
    assert image[at..at + 8] == image[at..at + 4] + image[at + 4..at + 8];
    NetworkAppend(image[at..at + 4], image[at + 4..at + 8]);
    FourBytes();
    EightBytes();
  }

  /** Consecutive 32-bit fields. */
  function U32s(image: Image, at: nat, n: nat): (s: seq<uint32>)
    requires at + 4 * n <= |image|
    ensures |s| == n
  {
    seq(n, i requires 0 <= i < n => U32(image, at + 4 * i))
  }
}
