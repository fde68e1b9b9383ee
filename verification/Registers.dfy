/** 32-bit registers: the laws of exclusive or, shifts by one place, and bit reversal with
    the loop of hw3/fileindexutil.cc that computes it. Every operation is a small named function,
    so that proofs can combine them without expanding bits. */
module Registers {

  predicate Odd(x: bv32) { x & 1 == 1 }

  predicate TopSet(x: bv32) { x & 0x80000000 != 0 }

  function Half(x: bv32): bv32 { x >> 1 }

  function Double(x: bv32): bv32 { x << 1 }

  function Or(a: bv32, b: bv32): bv32 { a | b }

  function Xor(a: bv32, b: bv32): bv32 { a ^ b }

  function With(on: bool, place: bv32, val: bv32): bv32 {
    if on then Or(val, place) else val
  }

  function WithBit(s: bv32, bit: bool): bv32 {
    if bit then Xor(s, 1) else s
  }

  // ---- Laws of exclusive or ----

  lemma XorIs(a: bv32, b: bv32)
    ensures Xor(a, b) == a ^ b
  {}

  lemma XorZero(s: bv32)
    ensures Xor(s, 0) == s
  {}

  lemma XorSelf(a: bv32)
    ensures Xor(a, a) == 0
  {}

  lemma XorCommutes(a: bv32, b: bv32)
    ensures Xor(a, b) == Xor(b, a)
  {}

  lemma XorAssociates(a: bv32, b: bv32, p: bv32)
    ensures Xor(Xor(a, b), p) == Xor(a, Xor(b, p))
  {}

  lemma XorSame(a: bv32, b: bv32, p: bv32)
    ensures Xor(Xor(a, p), Xor(b, p)) == Xor(a, b)
  {
    hide Xor;
    XorAssociates(a, p, Xor(b, p));
    XorCommutes(p, Xor(b, p));
    XorAssociates(b, p, p);
    XorSelf(p);
    XorZero(b);
  }

  lemma XorUndo(a: bv32, b: bv32, p: bv32)
    ensures Xor(a, p) == Xor(b, p) ==> a == b
    ensures Xor(p, a) == Xor(p, b) ==> a == b
  {}

  lemma WithBitUndo(a: bv32, b: bv32, bit: bool)
    requires WithBit(a, bit) == WithBit(b, bit)
    ensures a == b
  {
    hide Xor;
    XorUndo(a, b, 1);
  }

  lemma XorOdd(a: bv32, b: bv32)
    ensures Odd(Xor(a, b)) == (Odd(a) != Odd(b))
  {}

  lemma XorTop(a: bv32, b: bv32)
    ensures TopSet(Xor(a, b)) == (TopSet(a) != TopSet(b))
  {}

  lemma XorHalf(a: bv32, b: bv32)
    ensures Half(Xor(a, b)) == Xor(Half(a), Half(b))
  {}

  lemma XorDouble(a: bv32, b: bv32)
    ensures Double(Xor(a, b)) == Xor(Double(a), Double(b))
  {}

  // ---- Doubling and halving ----

  lemma HalfAndOdd(a: bv32, b: bv32)
    requires Half(a) == Half(b) && Odd(a) == Odd(b)
    ensures a == b
  {}

  lemma DoubleBack(p: bv32)
    requires p < 0x80000000
    ensures Half(Double(p)) == p && !Odd(Double(p))
  {}

  lemma OddBack(p: bv32)
    requires p < 0x80000000
    ensures Half(Xor(Double(p), 1)) == p && Odd(Xor(Double(p), 1))
  {}

  lemma BitBack(p: bv32, bit: bool)
    requires p < 0x80000000
    ensures Half(WithBit(Double(p), bit)) == p && Odd(WithBit(Double(p), bit)) == bit
  {
    hide Half, Odd, Double, Xor;
    DoubleBack(p);
    OddBack(p);
  }

  lemma TopBack(x: bv32)
    ensures With(TopSet(x), 0x80000000, Half(Double(x))) == x
  {
    hide Or;
    OrIs(Half(Double(x)), 0x80000000);
    if TopSet(x) {
      assert x >= 0x80000000;
    } else {
      assert x & 0x80000000 == 0;
    }
  }

  lemma TopFallsOff(s: bv32)
    ensures Double(Xor(s, 0x80000000)) == Double(s)
  {}

  function Down8(s: bv32): bv32 { s >> 8 }

  function Low8(s: bv32): bv32 { s & 0xFF }

  function High24(s: bv32): bv32 { s & 0xFFFFFF00 }

  function Halved(x: bv32, k: nat): bv32 {
    if k == 0 then x else Half(Halved(x, k - 1))
  }

  lemma HalvedEight(x: bv32, k: nat)
    ensures Halved(x, k + 8) == Down8(Halved(x, k))
  {
    hide Half, Down8;
    EightHalves(Halved(x, k));
    assert Halved(x, k + 2) == Half(Half(Halved(x, k)));
    assert Halved(x, k + 4) == Half(Half(Halved(x, k + 2)));
    assert Halved(x, k + 6) == Half(Half(Halved(x, k + 4)));
  }

  lemma EightHalves(x: bv32)
    ensures Half(Half(Half(Half(Half(Half(Half(Half(x)))))))) == Down8(x)
  {}

  lemma HalvedBytes(x: bv32)
    ensures Halved(x, 0) == x && Halved(x, 8) == Down8(x) && Halved(x, 24) == x >> 24 && Halved(x, 32) == 0
  {
    hide Half, Down8;
    HalvedEight(x, 0);
    HalvedEight(x, 8);
    HalvedEight(x, 16);
    HalvedEight(x, 24);
    DownAll(x);
  }

  lemma DownAll(x: bv32)
    ensures Down8(Down8(Down8(x))) == x >> 24 && Down8(Down8(Down8(Down8(x)))) == 0
  {}

  function Doubled(s: bv32, n: nat): bv32
    decreases n
  {
    if n == 0 then s else Doubled(Double(s), n - 1)
  }

  function Up8(s: bv32): bv32 { s << 8 }

  lemma EightDoubles(s: bv32, n: nat)
    requires n >= 8
    ensures Doubled(s, n) == Doubled(Up8(s), n - 8)
  {
    hide Double;
    var s2 := Double(Double(s));
    var s4 := Double(Double(s2));
    var s6 := Double(Double(s4));
    assert Doubled(s, n) == Doubled(s2, n - 2) == Doubled(s4, n - 4) == Doubled(s6, n - 6);
    assert Doubled(s6, n - 6) == Doubled(Double(Double(s6)), n - 8);
    DoubleEight(s);
  }

  lemma DoubleEight(s: bv32)
    ensures Double(Double(Double(Double(Double(Double(Double(Double(s)))))))) == Up8(s)
  {}

  lemma AllShiftedOut(s: bv32)
    ensures Doubled(s, 32) == 0
  {
    hide Double, Doubled, Up8;
    EightDoubles(s, 32);
    EightDoubles(Up8(s), 24);
    EightDoubles(Up8(Up8(s)), 16);
    EightDoubles(Up8(Up8(Up8(s))), 8);
    NothingLeft(s);
    NotDoubled(0);
  }

  lemma NotDoubled(s: bv32)
    ensures Doubled(s, 0) == s
  {}

  lemma NothingLeft(s: bv32)
    ensures Up8(Up8(Up8(Up8(s)))) == 0
  {
    hide Up8;
    LowClear(s);
    LowClear(Up8(s));
    LowClear(Up8(Up8(s)));
    LowClear(Up8(Up8(Up8(s))));
  }

  lemma LowClear(s: bv32)
    ensures Up8(s) & 0xFF == 0
    ensures s & 0xFF == 0 ==> Up8(s) & 0xFFFF == 0
    ensures s & 0xFFFF == 0 ==> Up8(s) & 0xFFFFFF == 0
    ensures s & 0xFFFFFF == 0 ==> Up8(s) == 0
  {}

  // ---- Places ----

  function Place(k: nat): bv32
    requires k < 32
  {
    1 << k
  }

  lemma PlaceHalves(k: nat)
    requires 0 < k < 32
    ensures Place(k - 1) == Half(Place(k)) && !Odd(Place(k)) && Place(31) == 0x80000000
  {
    if k < 8 {
    } else if k < 16 {
    } else if k < 24 {
    } else {
    }
  }

  lemma {:induction false} PlaceAtMost(k: nat)
    requires k < 32
    ensures Place(k) <= 0x80000000
    decreases 32 - k
  {
    hide Place;
    if k < 31 {
      PlaceAtMost(k + 1);
      PlaceHalves(k + 1);
    } else {
      PlaceHalves(k);
    }
  }

  predicate Below(a: bv32, b: bv32) { a < b }

  lemma EvenBelow(p: bv32, q: bv32)
    requires Below(p, Half(q)) && !Odd(q)
    ensures Below(Double(p), q)
  {}

  lemma OddBelow(p: bv32, q: bv32)
    requires Below(p, Half(q)) && !Odd(q)
    ensures Below(Xor(Double(p), 1), q)
  {}

  // ---- Reflection ----

  /** The n low bits of x in reverse order: what CRC32Reflect computes. */
  function Mirror(x: bv32, n: nat): bv32
    requires n <= 32
  {
    if n == 0 then 0 else With(Odd(x), Place(n - 1), Mirror(Half(x), n - 1))
  }

  method CRC32Reflect(reflectme: bv32, c: nat) returns (val: bv32)
    requires c <= 32
    ensures val == Mirror(reflectme, c)
  {
    hide Or, With, Half, Odd, Place, Mirror;
    NoBits(reflectme);
    var rest := reflectme;
    val := 0;
    OrZero(Mirror(reflectme, c));
    var position := 1;
    while position < c + 1
      invariant 1 <= position <= c + 1
      invariant Or(val, Mirror(rest, c + 1 - position)) == Mirror(reflectme, c)
    {
      NextBit(rest, val, c - position);
      val, rest := ReflectBit(rest, val, Place(c - position));
      position := position + 1;
    }
    NoBits(rest);
    OrZero(val);
  }

  /** The loop body. */
  method ReflectBit(rest: bv32, val: bv32, place: bv32) returns (v: bv32, r: bv32)
    ensures v == With(Odd(rest), place, val) && r == Half(rest)
  {
    LoopBody(rest, val, place);
    v := val;
    if rest & 1 == 1 {
      v := val | place;
    }
    r := rest >> 1;
  }

  lemma NoBits(x: bv32)
    ensures Mirror(x, 0) == 0
  {}

  lemma NextBit(rest: bv32, val: bv32, n: nat)
    requires n < 32
    ensures Or(With(Odd(rest), Place(n), val), Mirror(Half(rest), n)) == Or(val, Mirror(rest, n + 1))
  {
    hide Or, With, Odd, Half, Place;
    OrWith(Odd(rest), Place(n), val, Mirror(Half(rest), n));
  }

  lemma LoopBody(rest: bv32, val: bv32, place: bv32)
    ensures With(Odd(rest), place, val) == if rest & 1 == 1 then val | place else val
    ensures Half(rest) == rest >> 1
  {
    hide Or;
    OrIs(val, place);
  }

  lemma OrIs(a: bv32, b: bv32)
    ensures Or(a, b) == a | b
  {}

  lemma OrZero(val: bv32)
    ensures Or(val, 0) == val && Or(0, val) == val
  {}

  lemma OrCommutes(a: bv32, b: bv32)
    ensures Or(a, b) == Or(b, a)
  {}

  lemma OrAssociates(a: bv32, b: bv32, c: bv32)
    ensures Or(Or(a, b), c) == Or(a, Or(b, c))
  {}

  lemma OrWith(on: bool, place: bv32, val: bv32, rest: bv32)
    ensures Or(val, With(on, place, rest)) == Or(With(on, place, val), rest)
  {
    hide Or;
    OrCommutes(rest, place);
    OrAssociates(val, place, rest);
  }

  /** All 32 bits in reverse order, by exchanging halves of ever larger blocks. */
  function Reverse(x: bv32): bv32 {
    var a := ((x >> 1) & 0x55555555) | ((x & 0x55555555) << 1);
    var b := ((a >> 2) & 0x33333333) | ((a & 0x33333333) << 2);
    var c := ((b >> 4) & 0x0F0F0F0F) | ((b & 0x0F0F0F0F) << 4);
    var d := ((c >> 8) & 0x00FF00FF) | ((c & 0x00FF00FF) << 8);
    (d >> 16) | (d << 16)
  }

  lemma ReverseTwice(x: bv32)
    ensures Reverse(Reverse(x)) == x
  {}

  lemma ReverseXor(a: bv32, b: bv32)
    ensures Reverse(Xor(a, b)) == Xor(Reverse(a), Reverse(b))
  {}

  lemma ReverseOne()
    ensures Reverse(0x80000000) == 1 && TopSet(0x80000000)
  {}

  lemma ReverseShift(x: bv32)
    ensures Reverse(Half(x)) == Double(Reverse(x)) && Reverse(Double(x)) == Half(Reverse(x))
    ensures TopSet(Reverse(x)) == Odd(x) && Odd(Reverse(x)) == TopSet(x)
  {}

  lemma HalfWith(on: bool, place: bv32, val: bv32)
    ensures Half(With(on, place, val)) == With(on, Half(place), Half(val))
  {
    hide Or, Half;
    HalfOr(val, place);
  }

  lemma HalfOr(a: bv32, b: bv32)
    ensures Half(Or(a, b)) == Or(Half(a), Half(b))
  {}

  /** The top bit and the rest, shifted down. */
  lemma {:induction false} HalvedTop(x: bv32, m: nat)
    requires m < 32
    ensures Halved(x, m) == With(TopSet(x), Place(31 - m), Halved(Double(x), m + 1))
  {
    hide TopSet, Double, With, Half, Place;
    PlaceHalves(if m == 0 then 31 else 32 - m);
    if m > 0 {
      HalvedTop(x, m - 1);
      HalfWith(TopSet(x), Place(32 - m), Halved(Double(x), m));
    } else {
      TopBack(x);
    }
  }

  /** The loop reverses: its result on n bits is the top n bits of the full reversal. */
  lemma {:induction false} MirrorIsReverse(x: bv32, n: nat)
    requires n <= 32
    ensures Mirror(x, n) == Halved(Reverse(x), 32 - n)
    decreases n
  {
    hide TopSet, Double, With, Half, Odd, Place, Reverse;
    if n == 0 {
      HalvedBytes(Reverse(x));
    } else {
      MirrorIsReverse(Half(x), n - 1);
      HalvedTop(Reverse(x), 32 - n);
      ReverseShift(x);
    }
  }
}
