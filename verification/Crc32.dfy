/** CRC32 of hw3/fileindexutil.cc: a table-driven checksum, and the bit-at-a-time one it equals. */
module Crc32 {
  import opened Registers

  const POLYNOMIAL: bv32 := 0x04C11DB7
  const REVERSED_POLYNOMIAL: bv32 := 0xEDB88320
  const ALL_ONES: bv32 := 0xFFFFFFFF

  // ---- The table ----

  /** The loop body of Initialize: one step of dividing by the polynomial, highest power first. */
  function DivStep(s: bv32): bv32 {
    (s << 1) ^ (if s & 0x80000000 != 0 then POLYNOMIAL else 0)
  }

  function DivSteps(s: bv32, n: nat): bv32 {
    if n == 0 then s else DivStep(DivSteps(s, n - 1))
  }

  /** The same step, lowest bit first: the inner loop of the code in section 8 of RFC 1952. */
  function BitStep(s: bv32): bv32 {
    if Odd(s) then Xor(Half(s), REVERSED_POLYNOMIAL) else Half(s)
  }

  function BitSteps(s: bv32, n: nat): bv32 {
    if n == 0 then s else BitStep(BitSteps(s, n - 1))
  }

  lemma ReversedPolynomial()
    ensures Reverse(POLYNOMIAL) == REVERSED_POLYNOMIAL
  {}

  lemma StepsMirror(s: bv32)
    ensures Reverse(DivStep(s)) == BitStep(Reverse(s))
  {
    hide DivStep, Reverse, Xor, TopSet, Odd, Half, Double;
    DivStepCases(s);
    ReverseShift(s);
    if TopSet(s) {
      ReversedPolynomial();
      ReverseXor(Double(s), POLYNOMIAL);
    }
  }

  lemma {:induction false} ManyStepsMirror(s: bv32, n: nat)
    ensures Reverse(DivSteps(s, n)) == BitSteps(Reverse(s), n)
  {
    hide Reverse, BitStep, DivStep;
    if n > 0 {
      ManyStepsMirror(s, n - 1);
      StepsMirror(DivSteps(s, n - 1));
    }
  }

  /** An entry as Initialize computes it is eight bitwise steps. */
  lemma EntryIsEightSteps(codes: nat)
    requires codes < 256
    ensures Mirror(DivSteps(Mirror(codes as bv32, 8) << 24, 8), 32) == Entry(codes)
  {
    hide Mirror, DivSteps, BitSteps, Halved;
    SmallCode(codes);
    var code := codes as bv32;
    MirrorIsReverse(code, 8);
    HalvedBytes(Reverse(code));
    OneOctet(code);
    var s := Reverse(code);
    ManyStepsMirror(s, 8);
    MirrorIsReverse(DivSteps(s, 8), 32);
    HalvedBytes(Reverse(DivSteps(s, 8)));
    ReverseTwice(code);
  }

  lemma OneOctet(code: bv32)
    requires code <= 0xFF
    ensures (Reverse(code) >> 24) << 24 == Reverse(code)
  {}

  /** Entry i of the table: eight bitwise steps on the octet i. */
  function Entry(i: nat): bv32
    requires i < 256
  {
    BitSteps(i as bv32, 8)
  }

  method Initialize() returns (table: array<bv32>)
    ensures fresh(table) && table.Length == 256 && forall i :: 0 <= i < 256 ==> table[i] == Entry(i)
  {
    hide Entry;
    table := new bv32[256];
    var codes := 0;
    while codes <= 0xFF
      invariant codes <= 256 && forall i :: 0 <= i < codes ==> table[i] == Entry(i)
    {
      FillEntry(table, codes);
      codes := codes + 1;
    }
  }

  method FillEntry(table: array<bv32>, codes: nat)
    requires table.Length == 256 && codes < 256
    modifies table
    ensures table[..] == old(table[..])[codes := Entry(codes)]
  {
    hide *;
    table[codes] := CRC32Reflect(codes as bv32, 8);
    table[codes] := table[codes] << 24;
    DivideEntry(table, codes);
    EntryIsEightSteps(codes);
    table[codes] := CRC32Reflect(table[codes], 32);
  }

  /** The inner loop. */
  method DivideEntry(table: array<bv32>, codes: nat)
    requires table.Length == 256 && codes < 256
    modifies table
    ensures table[..] == old(table[..])[codes := DivSteps(old(table[codes]), 8)]
  {
    hide DivStep;
    var position := 0;
    while position < 8
      invariant position <= 8 && table[..] == old(table[..])[codes := DivSteps(old(table[codes]), position)]
    {
      table[codes] := DivStep(table[codes]);
      position := position + 1;
    }
  }

  lemma DivStepCases(s: bv32)
    ensures DivStep(s) == if TopSet(s) then Xor(Double(s), POLYNOMIAL) else Double(s)
  {
    hide Xor;
    if s & 0x80000000 != 0 {
      XorIs(s << 1, POLYNOMIAL);
    } else {
      XorIs(s << 1, 0);
      XorZero(s << 1);
    }
  }

  lemma SmallCode(i: nat)
    requires i < 256
    ensures i as bv32 <= 0xFF
  {}

  lemma IndexRoundTrips(x: bv32)
    requires x <= 0xFF
    ensures x as nat < 256 && (x as nat) as bv32 == x
  {}

  // ---- The checksum ----

  /** Feeding bits into the register, lowest bit first. */
  function Feed(s: bv32, bits: seq<bool>): bv32
    decreases |bits|
  {
    if bits == [] then s else Feed(BitStep(WithBit(s, bits[0])), bits[1..])
  }

  /** The bits of an octet, lowest first. */
  function Octet(b: bv8): (bits: seq<bool>)
    ensures |bits| == 8
  {
    [b & 1 != 0, b & 2 != 0, b & 4 != 0, b & 8 != 0, b & 16 != 0, b & 32 != 0, b & 64 != 0, b & 128 != 0]
  }

  function Bits(bytes: seq<bv8>): (bits: seq<bool>)
    ensures |bits| == 8 * |bytes|
  {
    if bytes == [] then [] else Bits(bytes[..|bytes| - 1]) + Octet(bytes[|bytes| - 1])
  }

  /** The checksum of a byte string, one bit at a time. */
  function Checksum(bytes: seq<bv8>): bv32 {
    Xor(Feed(ALL_ONES, Bits(bytes)), ALL_ONES)
  }

  /** Where FoldByteIntoCRC looks in the table. */
  function Index(s: bv32, b: bv8): (i: nat)
    ensures i < 256
  {
    SmallIndex(s, b);
    IndexRoundTrips((s & 0xFF) ^ (b as bv32));
    ((s & 0xFF) ^ (b as bv32)) as int
  }

  /** The object keeps what it was fed, for the specification. */
  class CRC32 {
    const table: array<bv32>
    var crcState: bv32
    var finalized: bool
    ghost var fed: seq<bv8>

    ghost predicate Valid()
      reads this, table
    {
      && table.Length == 256 && (forall i :: 0 <= i < 256 ==> table[i] == Entry(i))
      && crcState == if finalized then Checksum(fed) else Feed(ALL_ONES, Bits(fed))
    }

    constructor ()
      ensures Valid() && fresh(table) && fed == [] && !finalized
    {
      hide Entry;
      var t := Initialize();
      table := t;
      finalized := false;
      crcState := 0xFFFFFFFF;
      fed := [];
    }

    method FoldByteIntoCRC(nextbyte: bv8)
      requires Valid() && !finalized
      modifies this
      ensures Valid() && !finalized && fed == old(fed) + [nextbyte]
    {
      hide Entry, Feed, Octet, Index, Bits, Checksum;
      FeedOctet(fed, nextbyte);
      var entry := table[Index(crcState, nextbyte)];
      FoldIsEightSteps(crcState, nextbyte, entry);
      crcState := (crcState >> 8) ^ entry;
      fed := fed + [nextbyte];
    }

    method GetFinalCRC() returns (crc: bv32)
      requires Valid()
      modifies this
      ensures Valid() && finalized && fed == old(fed) && crc == Checksum(fed)
    {
      hide Entry, Feed, Bits, Xor;
      XorIs(crcState, ALL_ONES);
      if !finalized {
        finalized := true;
        crcState := crcState ^ 0xffffffff;
      }
      crc := crcState;
    }
  }

  lemma {:induction false} FeedAppend(s: bv32, a: seq<bool>, b: seq<bool>)
    ensures Feed(s, a + b) == Feed(Feed(s, a), b)
    decreases |a|
  {
    hide BitStep, WithBit;
    if a == [] {
      assert a + b == b;
    } else {
      assert (a + b)[1..] == a[1..] + b;
      FeedAppend(BitStep(WithBit(s, a[0])), a[1..], b);
    }
  }

  lemma FeedOctet(fed: seq<bv8>, b: bv8)
    ensures Feed(ALL_ONES, Bits(fed + [b])) == Feed(Feed(ALL_ONES, Bits(fed)), Octet(b))
  {
    hide Feed, Octet;
    var all := fed + [b];
    assert all[..|all| - 1] == fed;
    FeedAppend(ALL_ONES, Bits(fed), Octet(b));
  }

  // ---- One fold is eight steps ----

  lemma FoldIsEightSteps(s: bv32, b: bv8, entry: bv32)
    requires entry == Entry(Index(s, b))
    ensures (s >> 8) ^ entry == Feed(s, Octet(b))
  {
    hide Feed, BitSteps, Octet, Xor, Down8, Low8;
    SmallIndex(s, b);
    FoldTerms(s, b as bv32, entry);
    IndexRoundTrips((s & 0xFF) ^ (b as bv32));
    TableStep(s, b as bv32);
    OctetSteps(s, b);
  }

  lemma FoldTerms(s: bv32, b: bv32, entry: bv32)
    ensures (s >> 8) ^ entry == Xor(Down8(s), entry) && (s & 0xFF) ^ b == Xor(Low8(s), b)
  {}

  lemma SmallIndex(s: bv32, b: bv8)
    ensures ((s & 0xFF) ^ (b as bv32)) <= 0xFF && b as bv32 <= 0xFF
  {}

  /** A step is additive, and an even number is only halved. */
  lemma StepAdds(a: bv32, b: bv32)
    ensures BitStep(Xor(a, b)) == Xor(BitStep(a), BitStep(b))
    ensures !Odd(b) ==> BitStep(b) == Half(b)
  {
    hide Xor, Odd, Half;
    var h, k, p := Half(a), Half(b), REVERSED_POLYNOMIAL;
    XorHalf(a, b);
    XorOdd(a, b);
    XorSame(h, k, p);
    XorAssociates(h, k, p);
    XorAssociates(h, p, k);
    XorCommutes(p, k);
  }

  lemma TableStep(s: bv32, b: bv32)
    requires b <= 0xFF
    ensures Xor(Down8(s), BitSteps(Xor(Low8(s), b), 8)) == BitSteps(Xor(s, b), 8)
  {
    hide Xor, BitSteps, Halved, Down8, Low8, High24;
    HighAndLow(s, b);
    HighPart(s);
    StepsPast(Xor(Low8(s), b), High24(s), 8);
    HalvedBytes(High24(s));
    XorCommutes(Down8(s), BitSteps(Xor(Low8(s), b), 8));
  }

  lemma HighAndLow(s: bv32, b: bv32)
    ensures Xor(Xor(Low8(s), b), High24(s)) == Xor(s, b)
  {
    hide Xor, Low8, High24;
    var lo, hi := Low8(s), High24(s);
    XorAssociates(lo, b, hi);
    XorCommutes(b, hi);
    XorAssociates(lo, hi, b);
    LowAndHigh(s);
  }

  lemma LowAndHigh(s: bv32)
    ensures Xor(Low8(s), High24(s)) == s
  {}

  lemma HighPart(s: bv32)
    ensures Down8(High24(s)) == Down8(s) && Low8(High24(s)) == 0
  {}

  /** Bits above the ones consumed only move down. */
  lemma {:induction false} StepsPast(lo: bv32, hi: bv32, n: nat)
    requires Low8(hi) == 0 && n <= 8
    ensures BitSteps(Xor(lo, hi), n) == Xor(BitSteps(lo, n), Halved(hi, n))
  {
    hide Low8, BitStep, Xor, Odd, Half;
    if n > 0 {
      StepsPast(lo, hi, n - 1);
      StepAdds(BitSteps(lo, n - 1), Halved(hi, n - 1));
      EvenHalves(hi, n - 1);
    }
  }

  lemma EvenHalves(hi: bv32, n: nat)
    requires Low8(hi) == 0 && n < 8
    ensures !Odd(Halved(hi, n))
  {
    hide Low8, Odd, Half;
    LowHalves(hi);
    assert Halved(hi, 1) == Half(hi);
    assert Halved(hi, 2) == Half(Half(hi));
    assert Halved(hi, 4) == Half(Half(Halved(hi, 2)));
    assert Halved(hi, 6) == Half(Half(Halved(hi, 4)));
  }

  lemma LowHalves(x: bv32)
    requires Low8(x) == 0
    ensures !Odd(x) && !Odd(Half(x)) && !Odd(Half(Half(x))) && !Odd(Half(Half(Half(x))))
    ensures !Odd(Half(Half(Half(Half(x))))) && !Odd(Half(Half(Half(Half(Half(x))))))
    ensures !Odd(Half(Half(Half(Half(Half(Half(x))))))) && !Odd(Half(Half(Half(Half(Half(Half(Half(x))))))))
  {}

  // ---- Up to 32 bits at once ----

  /** Bits as a number, lowest first. */
  function Pack(bits: seq<bool>): bv32
    decreases |bits|
  {
    if bits == [] then 0 else WithBit(Double(Pack(bits[1..])), bits[0])
  }

  lemma {:induction false} PackBound(bits: seq<bool>)
    requires |bits| < 32
    ensures Below(Pack(bits), Place(|bits|))
  {
    hide Place, Double, Half, Xor, Below, Odd;
    if bits != [] {
      var p, q := Pack(bits[1..]), Place(|bits|);
      PackBound(bits[1..]);
      PlaceHalves(|bits|);
      EvenBelow(p, q);
      OddBelow(p, q);
    } else {
      FirstPlace();
    }
  }

  lemma FirstPlace()
    ensures Below(0, Place(0))
  {}

  lemma SmallPack(bits: seq<bool>)
    requires |bits| < 32
    ensures Pack(bits) < 0x80000000
  {
    PackBound(bits);
    PlaceAtMost(|bits|);
  }

  lemma PackStep(s: bv32, p: bv32, bit: bool)
    requires p < 0x80000000
    ensures BitStep(Xor(s, WithBit(Double(p), bit))) == Xor(BitStep(WithBit(s, bit)), p)
  {
    hide BitStep, Xor, Double, Half, Odd;
    DoubleBack(p);
    StepAdds(WithBit(s, bit), Double(p));
    XorAssociates(s, 1, Double(p));
    XorCommutes(1, Double(p));
  }

  lemma {:induction false} StepsFromFront(s: bv32, n: nat)
    requires n > 0
    ensures BitSteps(s, n) == BitSteps(BitStep(s), n - 1)
  {
    hide BitStep;
    if n > 1 {
      StepsFromFront(s, n - 1);
    }
  }

  /** Up to 32 bits can be added first and stepped over afterwards. */
  lemma {:induction false} FeedPacked(s: bv32, bits: seq<bool>)
    requires |bits| <= 32
    ensures Feed(s, bits) == BitSteps(Xor(s, Pack(bits)), |bits|)
    decreases |bits|
  {
    hide BitStep, WithBit, Xor, Double;
    if bits == [] {
      XorZero(s);
    } else {
      var p := Pack(bits[1..]);
      FeedPacked(BitStep(WithBit(s, bits[0])), bits[1..]);
      SmallPack(bits[1..]);
      PackStep(s, p, bits[0]);
      StepsFromFront(Xor(s, Pack(bits)), |bits|);
    }
  }

  lemma OctetSteps(s: bv32, b: bv8)
    ensures Feed(s, Octet(b)) == BitSteps(Xor(s, b as bv32), 8)
  {
    hide Feed, BitSteps, Xor;
    FeedPacked(s, Octet(b));
    PackOctet(b);
  }

  lemma PackOctet(b: bv8)
    ensures Pack(Octet(b)) == b as bv32
  {
    hide Pack, Octet, WithBit, Double;
    var bits := Octet(b);
    PackFrom(bits, 0);
    PackFrom(bits, 1);
    PackFrom(bits, 2);
    PackFrom(bits, 3);
    PackFrom(bits, 4);
    PackFrom(bits, 5);
    PackFrom(bits, 6);
    PackFrom(bits, 7);
    PackedOctet(b);
  }

  lemma PackFrom(bits: seq<bool>, k: nat)
    requires k < |bits|
    ensures Pack(bits[k..]) == WithBit(Double(Pack(bits[k + 1..])), bits[k])
    ensures bits[0..] == bits && Pack(bits[|bits|..]) == 0
  {
    hide WithBit, Double;
    assert bits[k..][1..] == bits[k + 1..];
  }

  lemma PackedOctet(b: bv8)
    ensures var o := Octet(b);
      WithBit(Double(WithBit(Double(WithBit(Double(WithBit(Double(WithBit(Double(WithBit(Double(WithBit(Double(
        WithBit(Double(0), o[7])), o[6])), o[5])), o[4])), o[3])), o[2])), o[1])), o[0]) == b as bv32
  {}
}
