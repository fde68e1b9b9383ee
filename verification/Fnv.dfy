/** FNVHash64 of hw1/HashTable.c: 64-bit FNV-1a. */
module Fnv {
  import opened Chains

  newtype byte = x: int | 0 <= x < 256

  const FNV_INIT: uint64 := 0xcbf29ce484222325
  const FNV_PRIME: int := 0x100000001b3
  const FNV_PRIME_INVERSE: int := 0xce965057aff6957b

  function Pow2(n: nat): (p: nat)
    ensures p > 0
  {
    if n == 0 then 1 else 2 * Pow2(n - 1)
  }

  /** Exclusive or of the bottom n bits. */
  function Xor(a: nat, b: nat, n: nat): (r: nat)
    ensures r < Pow2(n)
  {
    if n == 0 then 0 else (if a % 2 == b % 2 then 0 else 1) + 2 * Xor(a / 2, b / 2, n - 1)
  }

  /** The loop body: xor the next octet into hval, then multiply modulo 2^64. */
  function FnvStep(hval: uint64, octet: byte): uint64 {
    (Xor(hval as nat, octet as nat, 64) * FNV_PRIME % TWO64) as uint64
  }

  function FnvFold(hval: uint64, buffer: seq<byte>): uint64
    decreases |buffer|
  {
    if buffer == [] then hval else FnvFold(FnvStep(hval, buffer[0]), buffer[1..])
  }

  /** The hash of a buffer, as a specification. */
  function Hash(buffer: seq<byte>): uint64 {
    FnvFold(FNV_INIT, buffer)
  }

  method FNVHash64(buffer: seq<byte>) returns (hval: uint64)
    ensures hval == Hash(buffer)
  {
    hide FnvStep;
    hval := FNV_INIT;
    var bp := 0;
    while bp < |buffer|
      invariant bp <= |buffer| && FnvFold(hval, buffer[bp..]) == Hash(buffer)
    {
      assert buffer[bp..][1..] == buffer[bp + 1..];
      hval := FnvStep(hval, buffer[bp]);
      bp := bp + 1;
    }
  }

  /** Exclusive or can be undone from either side. */
  lemma {:induction false} XorInjective(a: nat, b: nat, x: nat, y: nat, n: nat)
    requires a < Pow2(n) && b < Pow2(n) && x < Pow2(n) && y < Pow2(n)
    requires Xor(a, x, n) == Xor(b, y, n) && (a == b || x == y)
    ensures a == b && x == y
  {
    if n > 0 {
      XorInjective(a / 2, b / 2, x / 2, y / 2, n - 1);
    }
  }

  lemma {:induction false} Pow2Add(a: nat, b: nat)
    ensures Pow2(a + b) == Pow2(a) * Pow2(b)
  {
    if a > 0 {
      Pow2Add(a - 1, b);
    }
  }

  lemma SixtyFourBits()
    ensures Pow2(64) == TWO64
  {
    assert Pow2(4) == 2 * Pow2(3) == 4 * Pow2(2) == 8 * Pow2(1) == 16;
    Pow2Add(4, 4);
    Pow2Add(8, 8);
    Pow2Add(16, 16);
    Pow2Add(32, 32);
  }

  /** Multiplication by the odd prime loses nothing modulo 2^64: it has an inverse. */
  lemma MulByPrimeInjective(a: int, b: int)
    requires 0 <= a < TWO64 && 0 <= b < TWO64
    requires a * FNV_PRIME % TWO64 == b * FNV_PRIME % TWO64
    ensures a == b
  {
    var q := a * FNV_PRIME / TWO64 - b * FNV_PRIME / TWO64;
    var c := FNV_PRIME * FNV_PRIME_INVERSE / TWO64;
    assert FNV_PRIME * FNV_PRIME_INVERSE == 1 + c * TWO64;
    assert (a - b) * (FNV_PRIME * FNV_PRIME_INVERSE) == (q * FNV_PRIME_INVERSE) * TWO64;
    assert a - b == (q * FNV_PRIME_INVERSE - (a - b) * c) * TWO64;
  }

  /** One step can be undone from the state or from the octet. */
  lemma StepLosesNothing(a: uint64, b: uint64, x: byte, y: byte)
    requires FnvStep(a, x) == FnvStep(b, y)
    requires a == b || x == y
    ensures a == b && x == y
  {
    hide Xor;
    SixtyFourBits();
    MulByPrimeInjective(Xor(a as nat, x as nat, 64), Xor(b as nat, y as nat, 64));
    XorInjective(a as nat, b as nat, x as nat, y as nat, 64);
  }

  lemma {:induction false} FoldInjectiveInState(a: uint64, b: uint64, s: seq<byte>)
    requires FnvFold(a, s) == FnvFold(b, s)
    ensures a == b
    decreases |s|
  {
    hide FnvStep;
    if s != [] {
      FoldInjectiveInState(FnvStep(a, s[0]), FnvStep(b, s[0]), s[1..]);
      StepLosesNothing(a, b, s[0], s[0]);
    }
  }

  lemma {:induction false} FoldAppend(h: uint64, s: seq<byte>, t: seq<byte>)
    ensures FnvFold(h, s + t) == FnvFold(FnvFold(h, s), t)
    decreases |s|
  {
    hide FnvStep;
    if s == [] {
      assert s + t == t;
    } else {
      assert (s + t)[1..] == s[1..] + t;
      FoldAppend(FnvStep(h, s[0]), s[1..], t);
    }
  }

  /** Buffers of equal length that differ in exactly one octet never collide. */
  lemma OneOctetChangesHash(pre: seq<byte>, x: byte, y: byte, post: seq<byte>)
    requires x != y
    ensures Hash(pre + [x] + post) != Hash(pre + [y] + post)
  {
    hide FnvStep;
    var h := FnvFold(FNV_INIT, pre);
    FoldAppend(FNV_INIT, pre, [x] + post);
    FoldAppend(FNV_INIT, pre, [y] + post);
    assert pre + [x] + post == pre + ([x] + post) && pre + [y] + post == pre + ([y] + post);
    assert ([x] + post)[1..] == post && ([y] + post)[1..] == post;
    if FnvFold(FnvStep(h, x), post) == FnvFold(FnvStep(h, y), post) {
      FoldInjectiveInState(FnvStep(h, x), FnvStep(h, y), post);
      StepLosesNothing(h, h, x, y);
    }
  }
}
