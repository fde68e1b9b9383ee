/** A checksum that every implementation of this CRC-32 computes, and what it means for the opening of an
    index file, said about bytes. */
module CheckValues {
  import opened Fnv
  import opened Layouts
  import opened Registers
  import opened Crc32
  import opened CrcProperties
  import opened FileIndexReaders

  /** The ASCII digits 1 to 9. */
  const DIGITS: Image := [0x31, 0x32, 0x33, 0x34, 0x35, 0x36, 0x37, 0x38, 0x39]
  const DIGIT_OCTETS: seq<bv8> := [0x31, 0x32, 0x33, 0x34, 0x35, 0x36, 0x37, 0x38, 0x39]

  function Eight(s: bv32): bv32 {
    BitStep(BitStep(BitStep(BitStep(BitStep(BitStep(BitStep(BitStep(s))))))))
  }

  lemma EightAre(s: bv32)
    ensures BitSteps(s, 8) == Eight(s)
  {
    hide BitStep, BitSteps;
    EightSteps(s);
  }

  /** One octet more: x is the register with the octet in it. */
  lemma NextOctet(bytes: seq<bv8>, k: nat, before: bv32, x: bv32, after: bv32)
    requires k < |bytes| && Feed(ALL_ONES, Bits(bytes[..k])) == before
    requires x == Registers.Xor(before, bytes[k] as bv32) && after == Eight(x)
    ensures Feed(ALL_ONES, Bits(bytes[..k + 1])) == after
  {
    hide Feed, Bits, Octet, Eight, BitSteps, Registers.Xor;
    var b := bytes[k];
    assert bytes[..k + 1] == bytes[..k] + [b];
    FeedOctet(bytes[..k], b);
    OctetSteps(before, b);
    EightAre(x);
  }

  lemma FirstDigits(bytes: seq<bv8>)
    requires bytes == DIGIT_OCTETS
    ensures Feed(ALL_ONES, Bits(bytes[..3])) == 0x77B79C2D
  {
    hide Feed, Bits;
    NothingFed();
    assert bytes[..0] == [];
    NextOctet(bytes, 0, 0xFFFFFFFF, 0xFFFFFFCE, 0x7C231048);
    NextOctet(bytes, 1, 0x7C231048, 0x7C23107A, 0xB0ACBB32);
    NextOctet(bytes, 2, 0xB0ACBB32, 0xB0ACBB01, 0x77B79C2D);
  }

  lemma MoreDigits(bytes: seq<bv8>)
    requires bytes == DIGIT_OCTETS && Feed(ALL_ONES, Bits(bytes[..3])) == 0x77B79C2D
    ensures Feed(ALL_ONES, Bits(bytes[..6])) == 0xF68D2C9E
  {
    hide Feed, Bits;
    NextOctet(bytes, 3, 0x77B79C2D, 0x77B79C19, 0x641C1F5C);
    NextOctet(bytes, 4, 0x641C1F5C, 0x641C1F69, 0x340AC5E3);
    NextOctet(bytes, 5, 0x340AC5E3, 0x340AC5D5, 0xF68D2C9E);
  }

  lemma LastDigits(bytes: seq<bv8>)
    requires bytes == DIGIT_OCTETS && Feed(ALL_ONES, Bits(bytes[..6])) == 0xF68D2C9E
    ensures Feed(ALL_ONES, Bits(bytes[..9])) == 0x340BC6D9
  {
    hide Feed, Bits;
    NextOctet(bytes, 6, 0xF68D2C9E, 0xF68D2CA9, 0xAFFC9660);
    NextOctet(bytes, 7, 0xAFFC9660, 0xAFFC9658, 0x651F2550);
    NextOctet(bytes, 8, 0x651F2550, 0x651F2569, 0x340BC6D9);
  }

  /** The check value of CRC-32: the checksum of the digits is 0xCBF43926. */
  lemma CheckValue()
    ensures Checksum(DIGIT_OCTETS) == 0xCBF43926
  {
    hide Feed, Bits;
    var bytes := DIGIT_OCTETS;
    FirstDigits(bytes);
    MoreDigits(bytes);
    LastDigits(bytes);
    assert bytes[..9] == bytes;
    XorIs(0x340BC6D9, ALL_ONES);
  }

  lemma OctetIs(b: byte, v: bv8)
    requires v as int == b as int
    ensures AsOctet(b) == v
  {
    hide AsOctet;
    OctetValue(b);
    assert (v as int) as bv8 == v && (AsOctet(b) as int) as bv8 == AsOctet(b);
  }

  lemma DigitOctets()
    ensures Octets(DIGITS) == DIGIT_OCTETS
  {
    hide AsOctet;
    OctetIs(0x31, 0x31);
    OctetIs(0x32, 0x32);
    OctetIs(0x33, 0x33);
    OctetIs(0x34, 0x34);
    OctetIs(0x35, 0x35);
    OctetIs(0x36, 0x36);
    OctetIs(0x37, 0x37);
    OctetIs(0x38, 0x38);
    OctetIs(0x39, 0x39);
  }

  /** The constructor of FileIndexReader, byte by byte: the magic number, the two sizes against the length
      of the file, and the checksum of the bytes that the loop reads. */
  lemma AcceptsIff(image: Image, validate: bool)
    ensures Accepts(image, validate) <==>
      && |image| >= 16 && image[0] == 0xCA && image[1] == 0xFE && image[2] == 0xF0 && image[3] == 0x0D
      && |image| % 4294967296 == (16 + Big4(image, 8) + Big4(image, 12)) % 4294967296
      && (validate ==>
           var n := |image| - 16;
           var read := image[16..16 + if n % 512 == 0 then n % 4294967296 else n];
           Checksum(Octets(read)) as int == Big4(image, 4))
  {
    hide Checksum, Octets, U32;
    if |image| >= 16 {
      Field4(image, 0);
      Field4(image, 4);
      Field4(image, 8);
      Field4(image, 12);
    }
  }

  /** A header with the given checksum in front of the digits is accepted exactly if it is the check value. */
  lemma DigitsAccepted(checksum: Image)
    requires |checksum| == 4
    ensures Accepts([0xCA, 0xFE, 0xF0, 0x0D] + checksum + [0, 0, 0, 4] + [0, 0, 0, 5] + DIGITS, true) <==>
      checksum == [0xCB, 0xF4, 0x39, 0x26]
  {
    hide Checksum, Octets, Accepts;
    var image := [0xCA, 0xFE, 0xF0, 0x0D] + checksum + [0, 0, 0, 4] + [0, 0, 0, 5] + DIGITS;
    AcceptsIff(image, true);
    assert image[16..25] == DIGITS;
    DigitOctets();
    CheckValue();
    assert Big4(image, 8) == 4 && Big4(image, 12) == 5;
    assert image[4] == checksum[0] && image[5] == checksum[1] && image[6] == checksum[2] && image[7] == checksum[3];
    FourAre(checksum, image);
  }

  lemma FourAre(checksum: Image, image: Image)
    requires |checksum| == 4 && |image| >= 8
    requires image[4] == checksum[0] && image[5] == checksum[1] && image[6] == checksum[2] && image[7] == checksum[3]
    ensures Big4(image, 4) == 0xCBF43926 <==> checksum == [0xCB, 0xF4, 0x39, 0x26]
  {}
}
