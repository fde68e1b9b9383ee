/** Two file names with the same hash, and what the document table does with them. */
module Collisions {
  import opened Chains
  import opened Fnv
  import D = DocTables

  /** The ASCII codes of "7mohtcOFVz" and of "c1E51sSEyx". */
  const FIRST_NAME: seq<byte> := [0x37, 0x6d, 0x6f, 0x68, 0x74, 0x63, 0x4f, 0x46, 0x56, 0x7a]
  const SECOND_NAME: seq<byte> := [0x63, 0x31, 0x45, 0x35, 0x31, 0x73, 0x53, 0x45, 0x79, 0x78]

  lemma {:induction false} XorZero(q: nat, n: nat)
    requires q < Pow2(n)
    ensures Xor(q, 0, n) == q
  {
    if n > 0 {
      XorZero(q / 2, n - 1);
    }
  }

  /** Halving a number of which q is the part above the k + 1 lowest bits. */
  lemma HalfOf(q: nat, l: nat, p: nat)
    requires l < 2 * p
    ensures (2 * p * q + l) / 2 == p * q + l / 2 && (2 * p * q + l) % 2 == l % 2
  {
    assert 2 * p * q == 2 * (p * q);
  }

  /** An exclusive or with k bits changes only the k lowest bits. */
  lemma {:induction false} XorLow(q: nat, l: nat, c: nat, n: nat, k: nat)
    requires q < Pow2(n) && l < Pow2(k) && c < Pow2(k)
    ensures Xor(Pow2(k) * q + l, c, n + k) == Pow2(k) * q + Xor(l, c, k)
    decreases k
  {
    if k == 0 {
      XorZero(q, n);
    } else {
      HalfOf(q, l, Pow2(k - 1));
      XorLow(q, l / 2, c / 2, n, k - 1);
    }
  }

  function Half(a: bv8): bv8 {
    a >> 1
  }

  function XorBits(a: bv8, b: bv8): bv8 {
    a ^ b
  }

  function AsNat(a: bv8): nat {
    a as nat
  }

  lemma HalfOfOctet(a: bv8)
    ensures AsNat(Half(a)) == AsNat(a) / 2
  {}

  /** The lowest bit of an exclusive or, and the bits above it. */
  lemma XorParts(a: bv8, b: bv8)
    ensures AsNat(XorBits(a, b)) % 2 == if AsNat(a) % 2 == AsNat(b) % 2 then 0 else 1
    ensures Half(XorBits(a, b)) == XorBits(Half(a), Half(b))
  {
    LowBit(a);
    LowBit(b);
    LowBit(XorBits(a, b));
  }

  lemma LowBit(a: bv8)
    ensures AsNat(a) % 2 == if a & 1 == 1 then 1 else 0
  {}

  lemma {:induction false} OctetXor(a: bv8, b: bv8, n: nat)
    requires AsNat(a) < Pow2(n) && AsNat(b) < Pow2(n)
    ensures Xor(AsNat(a), AsNat(b), n) == AsNat(XorBits(a, b))
    decreases n
  {
    hide Half, XorBits, AsNat;
    if n == 0 {
      NothingXor(a, b);
    } else {
      HalfOfOctet(a);
      HalfOfOctet(b);
      HalfOfOctet(XorBits(a, b));
      XorParts(a, b);
      OctetXor(Half(a), Half(b), n - 1);
    }
  }

  lemma NothingXor(a: bv8, b: bv8)
    requires AsNat(a) == AsNat(b) == 0
    ensures AsNat(XorBits(a, b)) == 0
  {}

  lemma SmallPowers()
    ensures Pow2(8) == 256 && Pow2(56) * 256 == TWO64
  {
    SixtyFourBits();
    Pow2Add(56, 8);
    assert Pow2(4) == 16;
  }

  lemma OneOctet(a: bv8)
    ensures AsNat(a) < 256
  {}

  /** The loop body of FNVHash64, where l is the lowest octet of the state and q what the
      multiplication overflows by. */
  lemma Step(h: uint64, octet: byte, l: bv8, c: bv8, q: nat, next: uint64)
    requires h as nat % 256 == AsNat(l) && octet as nat == AsNat(c)
    requires (h as nat - AsNat(l) + AsNat(XorBits(l, c))) * FNV_PRIME == TWO64 * q + next as nat
    ensures FnvStep(h, octet) == next
  {
    hide Xor, Pow2, XorBits, AsNat;
    OneOctet(l);
    OneOctet(c);
    SmallPowers();
    OctetXor(l, c, 8);
    XorLow(h as nat / 256, AsNat(l), AsNat(c), 56, 8);
  }

  lemma Turn(h: uint64, s: seq<byte>, i: nat, l: bv8, c: bv8, q: nat, next: uint64)
    requires i < |s| && h as nat % 256 == AsNat(l) && s[i] as nat == AsNat(c)
    requires (h as nat - AsNat(l) + AsNat(XorBits(l, c))) * 0x100000001b3 == 0x1_0000_0000_0000_0000 * q + next as nat
    ensures FnvFold(h, s[i..]) == FnvFold(next, s[i + 1..])
  {
    hide FnvStep, XorBits, AsNat;
    Step(h, s[i], l, c, q, next);
    assert s[i..][1..] == s[i + 1..];
  }

  lemma WholeFold(s: seq<byte>)
    ensures Hash(s) == FnvFold(FNV_INIT, s[0..]) && forall h :: FnvFold(h, s[|s|..]) == h
  {
    hide FnvStep;
    assert s[0..] == s;
  }

  lemma FirstHalf(s: seq<byte>)
    requires s == FIRST_NAME
    ensures FnvFold(FNV_INIT, s[0..]) == FnvFold(0xc06eedfdf1150096, s[5..])
  {
    hide FnvFold;
    Turn(0xcbf29ce484222325, s, 0, 0x25, 0x37, 0xcbf29ce5de, 0xaf63aa4c86019796);
    Turn(0xaf63aa4c86019796, s, 1, 0x96, 0x6d, 0xaf63aa4db0, 0x07f25b07b4b53f81);
    Turn(0x07f25b07b4b53f81, s, 2, 0x81, 0x6f, 0x07f25b07c2, 0x36109c180ffba16a);
    Turn(0x36109c180ffba16a, s, 3, 0x6a, 0x68, 0x36109c186b, 0xd9da3ee328929666);
    Turn(0xd9da3ee328929666, s, 4, 0x66, 0x74, 0xd9da3ee49a, 0xc06eedfdf1150096);
  }

  lemma FirstHash()
    ensures Hash(FIRST_NAME) == 0x184ade9a961953a2
  {
    hide Hash, FnvFold;
    var s := FIRST_NAME;
    WholeFold(s);
    FirstHalf(s);
    Turn(0xc06eedfdf1150096, s, 5, 0x96, 0x63, 0xc06eedff38, 0x117f5b80a6b0a04f);
    Turn(0x117f5b80a6b0a04f, s, 6, 0x4f, 0x4f, 0x117f5b80c4, 0x6c087b9b3e1fe000);
    Turn(0x6c087b9b3e1fe000, s, 7, 0x00, 0x46, 0x6c087b9bf5, 0xb24a4eca902a16f2);
    Turn(0xb24a4eca902a16f2, s, 8, 0xf2, 0x56, 0xb24a4ecbbf, 0x1e5a8632f78478ac);
    Turn(0x1e5a8632f78478ac, s, 9, 0xac, 0x7a, 0x1e5a86332b, 0x184ade9a961953a2);
  }

  lemma SecondHalf(s: seq<byte>)
    requires s == SECOND_NAME
    ensures FnvFold(FNV_INIT, s[0..]) == FnvFold(0x180bf0ca4d68f546, s[5..])
  {
    hide FnvFold;
    Turn(0xcbf29ce484222325, s, 0, 0x25, 0x63, 0xcbf29ce5de, 0xaf63de4c8601eff2);
    Turn(0xaf63de4c8601eff2, s, 1, 0xf2, 0x31, 0xaf63de4db0, 0x08a27f07b54a6859);
    Turn(0x08a27f07b54a6859, s, 2, 0x59, 0x45, 0x08a27f07c3, 0xf685f6190d6ee794);
    Turn(0xf685f6190d6ee794, s, 3, 0x94, 0x35, 0xf685f61ab0, 0x5488cd91d3739693);
    Turn(0x5488cd91d3739693, s, 4, 0x93, 0x31, 0x5488cd9263, 0x180bf0ca4d68f546);
  }

  lemma SecondHash()
    ensures Hash(SECOND_NAME) == 0x184ade9a961953a2
  {
    hide Hash, FnvFold;
    var s := SECOND_NAME;
    WholeFold(s);
    SecondHalf(s);
    Turn(0x180bf0ca4d68f546, s, 5, 0x46, 0x73, 0x180bf0ca76, 0x453f5cc18958a90f);
    Turn(0x453f5cc18958a90f, s, 6, 0x0f, 0x53, 0x453f5cc1ff, 0x0353f8dc61a7c754);
    Turn(0x0353f8dc61a7c754, s, 7, 0x54, 0x45, 0x0353f8dc67, 0x4f76ef79f01741e3);
    Turn(0x4f76ef79f01741e3, s, 8, 0xe3, 0x79, 0x4f76ef7a77, 0x1e5a8632f78478ae);
    Turn(0x1e5a8632f78478ae, s, 9, 0xae, 0x78, 0x1e5a86332b, 0x184ade9a961953a2);
  }

  /** Both file names get the id of the one registered first, and looking that id up gives the
      first name. */
  lemma SecondNameIsLost()
    ensures FIRST_NAME != SECOND_NAME && Hash(FIRST_NAME) == Hash(SECOND_NAME)
    ensures var names := D.RegisterAll([FIRST_NAME, SECOND_NAME]);
      && names == [FIRST_NAME] && D.IdOf(names, Hash(SECOND_NAME)) == 1 && SECOND_NAME !in names
  {
    hide Hash;
    FirstHash();
    SecondHash();
    assert FIRST_NAME[0] != SECOND_NAME[0];
    var both := [FIRST_NAME, SECOND_NAME];
    assert both[..1] == [FIRST_NAME] && [FIRST_NAME][..0] == [];
    assert D.RegisterAll([FIRST_NAME]) == [FIRST_NAME];
    assert D.IdOf([FIRST_NAME], Hash(SECOND_NAME)) == 1;
  }
}
