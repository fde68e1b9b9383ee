/** What the checksum of hw3/fileindexutil.cc means as polynomial division, and which errors it detects. */
module CrcProperties {
  import opened Registers
  import opened Crc32

  // ---- Polynomials ----

  /** Coefficients over GF(2), highest power first; addition is exclusive or. */
  ghost function Add(a: seq<bool>, b: seq<bool>): seq<bool>
    requires |a| == |b|
  {
    seq(|a|, i requires 0 <= i < |a| => a[i] != b[i])
  }

  ghost function Constant(n: nat, bit: bool): seq<bool> {
    seq(n, _ => bit)
  }

  /** The n top bits of a register, highest first. */
  ghost function Coefficients(s: bv32, n: nat): (p: seq<bool>)
    ensures |p| == n
    decreases n
  {
    if n == 0 then [] else [TopSet(s)] + Coefficients(Double(s), n - 1)
  }

  /** Schoolbook division by x^32 + POLYNOMIAL: what is left below degree 32. */
  ghost function Remainder(p: seq<bool>): (r: seq<bool>)
    requires |p| >= 32
    ensures |r| == 32
    decreases |p|
  {
    if |p| == 32 then p
    else if p[0] then Remainder(Add(p[1..], Coefficients(POLYNOMIAL, 32) + Constant(|p| - 33, false)))
    else Remainder(p[1..])
  }

  /** The register of the unreflected algorithm: message bits enter at the top. */
  ghost function Shift(s: bv32, bits: seq<bool>): bv32
    decreases |bits|
  {
    if bits == [] then s else Shift(DivStep(WithTop(s, bits[0])), bits[1..])
  }

  function WithTop(s: bv32, bit: bool): bv32 {
    if bit then Xor(s, 0x80000000) else s
  }

  /** The dividend for a register s and message bits: s lined up with the first of them. */
  ghost function Dividend(s: bv32, bits: seq<bool>): (p: seq<bool>)
    ensures |p| == |bits| + 32
  {
    Add(Coefficients(s, 32) + Constant(|bits|, false), bits + Constant(32, false))
  }

  lemma {:induction false} CoefficientsAdd(a: bv32, b: bv32, n: nat)
    ensures Coefficients(Xor(a, b), n) == Add(Coefficients(a, n), Coefficients(b, n))
    decreases n
  {
    hide Xor, TopSet, Double;
    if n > 0 {
      XorTop(a, b);
      XorDouble(a, b);
      CoefficientsAdd(Double(a), Double(b), n - 1);
    }
  }

  lemma {:induction false} LastCoefficient(s: bv32, n: nat)
    ensures Coefficients(s, n + 1) == Coefficients(s, n) + [TopSet(Doubled(s, n))]
    decreases n
  {
    hide TopSet, Double;
    if n > 0 {
      LastCoefficient(Double(s), n - 1);
    }
  }

  lemma ZeroTop()
    ensures !TopSet(0)
  {}

  lemma CoefficientsTail(s: bv32)
    ensures Coefficients(s, 33)[1..] == Coefficients(Double(s), 32)
  {}

  lemma CoefficientsDouble(s: bv32)
    ensures Coefficients(Double(s), 32) == Coefficients(s, 32)[1..] + [false]
  {
    hide Double, Doubled, TopSet, Coefficients;
    LastCoefficient(s, 32);
    AllShiftedOut(s);
    ZeroTop();
    CoefficientsTail(s);
  }

  lemma TopStep(s: bv32, bit: bool)
    ensures DivStep(WithTop(s, bit)) == if TopSet(s) != bit then Xor(Double(s), POLYNOMIAL) else Double(s)
  {
    hide Xor, Double, TopSet, DivStep;
    DivStepCases(WithTop(s, bit));
    if bit {
      XorTop(s, 0x80000000);
      TopFallsOff(s);
      ReverseOne();
    }
  }

  lemma DividendOfNothing(s: bv32)
    ensures Dividend(s, []) == Coefficients(s, 32)
  {}

  lemma DividendStep(s: bv32, bits: seq<bool>)
    requires bits != []
    ensures Dividend(s, bits)[0] == (TopSet(s) != bits[0])
    ensures Dividend(s, bits)[1..] == Dividend(Double(s), bits[1..])
  {
    hide Double, TopSet, Coefficients, Add;
    CoefficientsDouble(s);
    FirstCoefficient(s);
    var n, zeros := |bits|, Constant(32, false);
    var c := Coefficients(s, 32) + Constant(n, false);
    AddTail(c, bits + zeros);
    assert (bits + zeros)[1..] == bits[1..] + zeros;
    assert c[1..] == Coefficients(Double(s), 32) + Constant(n - 1, false);
  }

  lemma FirstCoefficient(s: bv32)
    ensures Coefficients(s, 32)[0] == TopSet(s)
  {}

  lemma AddTail(a: seq<bool>, b: seq<bool>)
    requires |a| == |b| > 0
    ensures |Add(a, b)| == |a|
    ensures Add(a, b)[0] == (a[0] != b[0]) && Add(a, b)[1..] == Add(a[1..], b[1..])
  {}

  lemma DividendXor(s: bv32, bits: seq<bool>)
    ensures Dividend(Xor(s, POLYNOMIAL), bits) == Add(Dividend(s, bits), Coefficients(POLYNOMIAL, 32) + Constant(|bits|, false))
  {
    hide Xor, Coefficients;
    CoefficientsAdd(s, POLYNOMIAL, 32);
  }

  /** Shifting a message through the register is long division. */
  lemma {:induction false} ShiftDivides(s: bv32, bits: seq<bool>)
    ensures Coefficients(Shift(s, bits), 32) == Remainder(Dividend(s, bits))
    decreases |bits|
  {
    hide DivStep, WithTop, TopSet, Double, Xor, Coefficients, Dividend;
    if bits == [] {
      DividendOfNothing(s);
    } else {
      DividendStep(s, bits);
      TopStep(s, bits[0]);
      ShiftDivides(DivStep(WithTop(s, bits[0])), bits[1..]);
      if |bits| > 0 && TopSet(s) != bits[0] {
        DividendXor(Double(s), bits[1..]);
      }
    }
  }

  lemma WithTopMirrors(s: bv32, bit: bool)
    ensures Reverse(WithTop(s, bit)) == WithBit(Reverse(s), bit)
  {
    hide Xor, Reverse;
    ReverseXor(s, 0x80000000);
    ReverseOne();
  }

  lemma {:induction false} FeedMirrorsShift(s: bv32, bits: seq<bool>)
    ensures Reverse(Shift(s, bits)) == Feed(Reverse(s), bits)
    decreases |bits|
  {
    hide Reverse, DivStep, BitStep, WithTop, WithBit;
    if bits != [] {
      WithTopMirrors(s, bits[0]);
      StepsMirror(WithTop(s, bits[0]));
      FeedMirrorsShift(DivStep(WithTop(s, bits[0])), bits[1..]);
    }
  }

  /** The CRC-32 of ISO 3309: complement the first 32 bits of the message, append 32 zero bits,
      divide, and complement the remainder. The object's answer holds it in reflected order. */
  lemma ChecksumIsRemainder(bytes: seq<bv8>)
    ensures var bits := Bits(bytes);
      var p := Add(Constant(32, true) + Constant(|bits|, false), bits + Constant(32, false));
      Coefficients(Reverse(Checksum(bytes)), 32) == Add(Remainder(p), Constant(32, true))
  {
    hide Reverse, Xor, Shift, Feed, Remainder, Bits, Coefficients;
    var bits := Bits(bytes);
    FeedMirrorsShift(ALL_ONES, bits);
    ShiftDivides(ALL_ONES, bits);
    AllOnes();
    ReverseTwice(Shift(ALL_ONES, bits));
    ReverseXor(Feed(ALL_ONES, bits), ALL_ONES);
    CoefficientsAdd(Shift(ALL_ONES, bits), ALL_ONES, 32);
  }

  lemma AllOnes()
    ensures Reverse(ALL_ONES) == ALL_ONES && Coefficients(ALL_ONES, 32) == Constant(32, true)
  {
    hide Coefficients, Up8;
    Shifted();
    EightOnes(ALL_ONES, 32);
    EightOnes(0xFFFFFF00, 24);
    EightOnes(0xFFFF0000, 16);
    EightOnes(0xFF000000, 8);
  }

  lemma Shifted()
    ensures Up8(ALL_ONES) == 0xFFFFFF00 && Up8(0xFFFFFF00) == 0xFFFF0000 && Up8(0xFFFF0000) == 0xFF000000
  {}

  lemma EightOnes(s: bv32, n: nat)
    requires s >= 0xFF000000 && n >= 8
    ensures Coefficients(s, n) == Constant(8, true) + Coefficients(Up8(s), n - 8)
  {
    hide Double, TopSet, Up8, Coefficients;
    var s2 := Double(Double(s));
    var s4 := Double(Double(s2));
    var s6 := Double(Double(s4));
    TopEight(s);
    DoubleEight(s);
    TwoOnes(s, n);
    TwoOnes(s2, n - 2);
    TwoOnes(s4, n - 4);
    TwoOnes(s6, n - 6);
  }

  lemma TwoOnes(s: bv32, n: nat)
    requires n >= 2 && TopSet(s) && TopSet(Double(s))
    ensures Coefficients(s, n) == [true, true] + Coefficients(Double(Double(s)), n - 2)
  {
    hide Double, TopSet;
  }

  lemma TopEight(s: bv32)
    requires s >= 0xFF000000
    ensures TopSet(s) && TopSet(Double(s)) && TopSet(Double(Double(s))) && TopSet(Double(Double(Double(s))))
    ensures TopSet(Double(Double(Double(Double(s))))) && TopSet(Double(Double(Double(Double(Double(s))))))
    ensures TopSet(Double(Double(Double(Double(Double(Double(s)))))))
    ensures TopSet(Double(Double(Double(Double(Double(Double(Double(s))))))))
  {}

  // ---- A known value ----

  lemma EightSteps(s: bv32)
    ensures BitSteps(s, 8) == BitStep(BitStep(BitStep(BitStep(BitStep(BitStep(BitStep(BitStep(s))))))))
  {
    hide BitStep;
    assert BitSteps(s, 1) == BitStep(s);
    assert BitSteps(s, 2) == BitStep(BitSteps(s, 1));
    assert BitSteps(s, 4) == BitStep(BitStep(BitSteps(s, 2)));
    assert BitSteps(s, 6) == BitStep(BitStep(BitSteps(s, 4)));
  }

  lemma KnownSteps()
    ensures BitSteps(0xFFFFFFFE, 8) == 0x5AFA20E4 && BitSteps(0x5AFA20E6, 8) == 0x4933BD6D
    ensures BitSteps(0x4933BD6E, 8) == 0xAA437FE2 && BitSteps(0xAA437FE6, 8) == 0x49C30432
  {
    hide BitSteps;
    EightSteps(0xFFFFFFFE);
    EightSteps(0x5AFA20E6);
    EightSteps(0x4933BD6E);
    EightSteps(0xAA437FE6);
  }

  lemma NothingFed()
    ensures Feed(ALL_ONES, Bits([])) == ALL_ONES
  {}

  /** The value hw3/test_fileindexutil.cc expects for the bytes 1, 2, 3, 4. */
  lemma UnitTestValue()
    ensures Checksum([1, 2, 3, 4]) == 0xB63CFBCD
  {
    hide Feed, Octet, BitSteps, Xor;
    var bytes: seq<bv8> := [1, 2, 3, 4];
    NothingFed();
    assert [] + [1] == [1 as bv8];
    FeedOctet([], 1);
    FeedOctet([1], 2);
    FeedOctet([1, 2], 3);
    FeedOctet([1, 2, 3], 4);
    assert [1] + [2] == bytes[..2] && [1, 2] + [3] == bytes[..3];
    assert bytes == [1, 2, 3] + [4];
    OctetSteps(ALL_ONES, 1);
    OctetSteps(0x5AFA20E4, 2);
    OctetSteps(0x4933BD6D, 3);
    OctetSteps(0xAA437FE2, 4);
    KnownSteps();
    XorIs(ALL_ONES, 1);
    XorIs(0x5AFA20E4, 2);
    XorIs(0x4933BD6D, 3);
    XorIs(0xAA437FE2, 4);
    XorIs(0x49C30432, ALL_ONES);
  }

  // ---- Detection ----

  lemma StepTop(a: bv32)
    ensures TopSet(BitStep(a)) == Odd(a)
  {}

  /** A step loses nothing. */
  lemma StepInjective(a: bv32, b: bv32)
    requires BitStep(a) == BitStep(b)
    ensures a == b
  {
    hide Half, Odd, Xor, TopSet;
    StepTop(a);
    StepTop(b);
    XorUndo(Half(a), Half(b), REVERSED_POLYNOMIAL);
    HalfAndOdd(a, b);
  }

  lemma {:induction false} StepsInjective(a: bv32, b: bv32, n: nat)
    requires BitSteps(a, n) == BitSteps(b, n)
    ensures a == b
  {
    hide BitStep;
    if n > 0 {
      StepInjective(BitSteps(a, n - 1), BitSteps(b, n - 1));
      StepsInjective(a, b, n - 1);
    }
  }

  lemma {:induction false} FeedInjective(s: bv32, t: bv32, bits: seq<bool>)
    requires Feed(s, bits) == Feed(t, bits)
    ensures s == t
    decreases |bits|
  {
    hide BitStep, WithBit, Xor;
    if bits != [] {
      FeedInjective(BitStep(WithBit(s, bits[0])), BitStep(WithBit(t, bits[0])), bits[1..]);
      StepInjective(WithBit(s, bits[0]), WithBit(t, bits[0]));
      WithBitUndo(s, t, bits[0]);
    }
  }

  lemma {:induction false} PackInjective(x: seq<bool>, y: seq<bool>)
    requires |x| == |y| <= 32 && Pack(x) == Pack(y)
    ensures x == y
    decreases |x|
  {
    hide WithBit, Double;
    if x != [] {
      SmallPack(x[1..]);
      SmallPack(y[1..]);
      BitBack(Pack(x[1..]), x[0]);
      BitBack(Pack(y[1..]), y[0]);
      PackInjective(x[1..], y[1..]);
      assert x == [x[0]] + x[1..] && y == [y[0]] + y[1..];
    }
  }

  /** From one state, different runs of up to 32 bits lead to different states. */
  lemma ShortRunsDiffer(s: bv32, x: seq<bool>, y: seq<bool>)
    requires |x| == |y| <= 32 && Feed(s, x) == Feed(s, y)
    ensures x == y
  {
    hide Feed, BitSteps, Pack, Xor;
    FeedPacked(s, x);
    FeedPacked(s, y);
    StepsInjective(Xor(s, Pack(x)), Xor(s, Pack(y)), |x|);
    XorUndo(Pack(x), Pack(y), s);
    PackInjective(x, y);
  }

  /** Every error burst of up to 32 bits, anywhere in the message, changes the checksum. */
  lemma BurstsAreDetected(a: seq<bv8>, b: seq<bv8>, pre: seq<bool>, x: seq<bool>, y: seq<bool>, post: seq<bool>)
    requires Bits(a) == pre + x + post && Bits(b) == pre + y + post
    requires |x| == |y| <= 32 && x != y
    ensures Checksum(a) != Checksum(b)
  {
    hide Feed, Bits, Xor;
    var s := Feed(ALL_ONES, pre);
    FeedAppend(ALL_ONES, pre + x, post);
    FeedAppend(ALL_ONES, pre, x);
    FeedAppend(ALL_ONES, pre + y, post);
    FeedAppend(ALL_ONES, pre, y);
    if Checksum(a) == Checksum(b) {
      XorUndo(Feed(ALL_ONES, Bits(a)), Feed(ALL_ONES, Bits(b)), ALL_ONES);
      FeedInjective(Feed(s, x), Feed(s, y), post);
      ShortRunsDiffer(s, x, y);
    }
  }

  lemma {:induction false} BitsAppend(a: seq<bv8>, b: seq<bv8>)
    ensures Bits(a + b) == Bits(a) + Bits(b)
    decreases |b|
  {
    hide Octet;
    if b == [] {
      assert a + b == a;
    } else {
      var init := b[..|b| - 1];
      assert (a + b)[..|a + b| - 1] == a + init;
      BitsAppend(a, init);
    }
  }

  lemma OctetInjective(b: bv8, c: bv8)
    requires Octet(b) == Octet(c)
    ensures b == c
  {
    assert Octet(b)[0] == Octet(c)[0];
  }

  lemma {:induction false} BitsInjective(a: seq<bv8>, b: seq<bv8>)
    requires |a| == |b| && Bits(a) == Bits(b)
    ensures a == b
    decreases |a|
  {
    hide Octet;
    if a != [] {
      var n := |a| - 1;
      assert Bits(a)[..8 * n] == Bits(a[..n]) && Bits(a)[8 * n..] == Octet(a[n]);
      assert Bits(b)[..8 * n] == Bits(b[..n]) && Bits(b)[8 * n..] == Octet(b[n]);
      BitsInjective(a[..n], b[..n]);
      OctetInjective(a[n], b[n]);
      assert a == a[..n] + [a[n]] && b == b[..n] + [b[n]];
    }
  }

  /** Byte strings that differ only inside four consecutive bytes never have the same checksum. */
  lemma FourByteWindow(pre: seq<bv8>, x: seq<bv8>, y: seq<bv8>, post: seq<bv8>)
    requires |x| == |y| <= 4 && x != y
    ensures Checksum(pre + x + post) != Checksum(pre + y + post)
  {
    hide Bits, Checksum;
    BitsAppend(pre + x, post);
    BitsAppend(pre, x);
    BitsAppend(pre + y, post);
    BitsAppend(pre, y);
    if Bits(x) == Bits(y) {
      BitsInjective(x, y);
    }
    BurstsAreDetected(pre + x + post, pre + y + post, Bits(pre), Bits(x), Bits(y), Bits(post));
  }
}
