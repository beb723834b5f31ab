/** 32-bit FNV-1a, and what it detects. */
module Checksum {
  import opened Keys

  // The checksum of a log record: draft-eastlake-fnv, section 2.

  const FNV_OFFSET: nat := 0x811c_9dc5
  const FNV_PRIME: nat := 0x0100_0193
  const FNV_PRIME_INVERSE: nat := 0x359C_449B
  const WORD: nat := 0x1_0000_0000

  /** Bitwise exclusive or. */
  function Xor(a: nat, b: nat): nat {
    if a == 0 && b == 0 then 0 else (a % 2 + b % 2) % 2 + 2 * Xor(a / 2, b / 2)
  }

  function Pow2(bits: nat): (p: nat)
    ensures p > 0
  {
    if bits == 0 then 1 else 2 * Pow2(bits - 1)
  }

  lemma {:induction false} XorBound(a: nat, b: nat, bits: nat)
    requires a < Pow2(bits) && b < Pow2(bits)
    ensures Xor(a, b) < Pow2(bits)
  {
    if bits > 0 && (a > 0 || b > 0) { XorBound(a / 2, b / 2, bits - 1); }
  }

  /** Exclusive or with the same number twice gives the first number back. */
  lemma {:induction false} XorTwice(a: nat, b: nat)
    ensures Xor(Xor(a, b), b) == a
  {
    if a > 0 || b > 0 {
      var x := Xor(a, b);
      XorTwice(a / 2, b / 2);
      XorParts(a, b);
      XorParts(x, b);
      ParityTwice(a % 2, b % 2);
      SameHalves(Xor(x, b), a);
    }
  }

  lemma ParityTwice(p: nat, q: nat)
    requires p < 2 && q < 2
    ensures ((p + q) % 2 + q) % 2 == p
  {
    assert p == 0 || p == 1;
    assert q == 0 || q == 1;
  }

  lemma SameHalves(m: nat, n: nat)
    requires m / 2 == n / 2 && m % 2 == n % 2
    ensures m == n
  {
    assert m == m / 2 * 2 + m % 2;
  }

  lemma XorParts(a: nat, b: nat)
    ensures Xor(a, b) / 2 == Xor(a / 2, b / 2)
    ensures Xor(a, b) % 2 == (a % 2 + b % 2) % 2
  {
  }

  lemma {:induction false} XorSymmetric(a: nat, b: nat)
    ensures Xor(a, b) == Xor(b, a)
  {
    if a > 0 || b > 0 { XorSymmetric(a / 2, b / 2); }
  }

  lemma WordWidth()
    ensures Pow2(32) == WORD
  {
    assert Pow2(8) == 256;
    assert Pow2(16) == 0x1_0000;
    assert Pow2(24) == 0x100_0000;
  }

  /** One round: exclusive or with the byte, then multiply modulo 2^32. */
  function Step(hash: nat, b: byte): (r: nat)
    ensures r < WORD
  {
    Xor(hash, b as nat) * FNV_PRIME % WORD
  }

  function ChecksumFrom(hash: nat, bytes: Bytes): (r: nat)
    requires hash < WORD
    ensures r < WORD
    decreases |bytes|
  {
    if bytes == [] then hash else ChecksumFrom(Step(hash, bytes[0]), bytes[1..])
  }

  function ChecksumOf(bytes: Bytes): (r: nat)
    ensures r < WORD
  {
    ChecksumFrom(FNV_OFFSET, bytes)
  }

  /** The checksum without its definition: of nothing it is the offset basis; one more byte is mixed in before the
      multiplication. */
  lemma ChecksumIs(bytes: Bytes, b: byte)
    ensures ChecksumOf([]) == 0x811C_9DC5
    ensures ChecksumOf(bytes + [b]) == Xor(ChecksumOf(bytes), b as nat) * 0x0100_0193 % 0x1_0000_0000
  {
    ChecksumSnoc(FNV_OFFSET, bytes, b);
  }

  lemma {:induction false} ChecksumSnoc(hash: nat, bytes: Bytes, b: byte)
    requires hash < WORD
    ensures ChecksumFrom(hash, bytes + [b]) == Step(ChecksumFrom(hash, bytes), b)
    decreases |bytes|
  {
    if bytes == [] {
      assert ([b])[1..] == [];
    } else {
      assert (bytes + [b])[1..] == bytes[1..] + [b];
      ChecksumSnoc(Step(hash, bytes[0]), bytes[1..], b);
    }
  }

  /** The bits of an exclusive or: each is set when exactly one of the two is. */
  lemma {:induction false} XorBits(a: nat, b: nat, i: nat)
    ensures Bit(Xor(a, b), i) == (Bit(a, i) + Bit(b, i)) % 2
  {
    hide Xor, Bit;
    XorParts(a, b);
    if i == 0 {
      LowBit(a);
      LowBit(b);
      LowBit(Xor(a, b));
    } else {
      XorBits(a / 2, b / 2, i - 1);
      BitAbove(a, i);
      BitAbove(b, i);
      BitAbove(Xor(a, b), i);
    }
  }

  lemma LowBit(a: nat)
    ensures Bit(a, 0) == a % 2
  {
  }

  function Bit(a: nat, i: nat): nat {
    a / Pow2(i) % 2
  }

  lemma BitAbove(a: nat, i: nat)
    requires i > 0
    ensures Bit(a, i) == Bit(a / 2, i - 1)
  {
    hide Pow2;
    DivideTwice(a, i);
  }

  lemma DivideTwice(a: nat, i: nat)
    requires i > 0
    ensures a / 2 / Pow2(i - 1) == a / Pow2(i)
  {
    var p, q := Pow2(i - 1), a / 2 / Pow2(i - 1);
    assert a == 2 * (a / 2) + a % 2 && a / 2 == q * p + a / 2 % p;
    assert a == q * (2 * p) + (2 * (a / 2 % p) + a % 2);
    QuotientIs(a, 2 * p, q, 2 * (a / 2 % p) + a % 2);
  }

  lemma QuotientIs(a: nat, d: nat, q: nat, r: nat)
    requires d > 0 && a == q * d + r && r < d
    ensures a / d == q
  {
    var k: int := a / d - q;
    assert k * d == r - a % d;
    Multiples(k, d);
  }

  lemma Multiples(k: int, d: nat)
    ensures k >= 1 ==> k * d >= d
    ensures k <= -1 ==> k * d <= 0 - d
  {
  }

  lemma {:induction false} XorZero(a: nat)
    ensures Xor(a, 0) == a
  {
    if a > 0 { XorZero(a / 2); }
  }

  lemma XorUp(a: nat, b: nat, half: nat)
    requires Xor(a / 2, b / 2) == half
    ensures Xor(a, b) == 2 * half + (a % 2 + b % 2) % 2
  {
  }

  /** A published value of 32-bit FNV-1a. */
  lemma PublishedValue()
    ensures ChecksumOf([0x61]) == 0xE40C_292C
  {
    hide *;
    ChecksumIs([], 0x61);
    MixedA();
    assert [] + [0x61] == [0x61];
  }

  lemma MixedA()
    ensures Xor(0x811C_9DC5, 0x61) == 0x811C_9DA4
  {
    hide Xor;
    XorZero(0x102393B);
    XorUp(0x2047277, 0x1, 0x102393B);
    XorUp(0x408E4EE, 0x3, 0x2047276);
    XorUp(0x811C9DC, 0x6, 0x408E4ED);
    XorUp(0x102393B8, 0xC, 0x811C9DA);
    XorUp(0x20472771, 0x18, 0x102393B4);
    XorUp(0x408E4EE2, 0x30, 0x20472769);
    XorUp(0x811C9DC5, 0x61, 0x408E4ED2);
  }

  /** The fold as a loop. */
  method Compute(bytes: Bytes) returns (hash: nat)
    ensures hash == ChecksumOf(bytes)
  {
    hash := FNV_OFFSET;
    var i := 0;
    while i < |bytes|
      invariant i <= |bytes| && hash < WORD
      invariant ChecksumFrom(hash, bytes[i..]) == ChecksumOf(bytes)
    {
      hash := Step(hash, bytes[i]);
      i := i + 1;
    }
  }

  /** The prime has an inverse modulo 2^32, so multiplying by it loses nothing. */
  lemma MultiplyInjective(x: nat, y: nat)
    requires x < WORD && y < WORD
    requires x * FNV_PRIME % WORD == y * FNV_PRIME % WORD
    ensures x == y
  {
    var d: int := x - y;
    var k: int := x * FNV_PRIME / WORD - y * FNV_PRIME / WORD;
    assert d * FNV_PRIME == WORD * k;
    InverseUndoes(d, k);
    var m: int := k * FNV_PRIME_INVERSE - d * INVERSE_QUOTIENT;
    assert d == WORD * m;
  }

  /** FNV_PRIME * FNV_PRIME_INVERSE == 1 + INVERSE_QUOTIENT * WORD */
  const INVERSE_QUOTIENT: nat := 0x35_9C99

  lemma InverseUndoes(d: int, k: int)
    requires d * 0x0100_0193 == 0x1_0000_0000 * k
    ensures d == 0x1_0000_0000 * (k * 0x359C_449B - d * 0x35_9C99)
  {
    assert d * 0x0100_0193 * 0x359C_449B == 0x1_0000_0000 * k * 0x359C_449B;
    assert 0x0100_0193 * 0x359C_449B == 1 + 0x1_0000_0000 * 0x35_9C99;
  }

  lemma MixBound(hash: nat, b: byte)
    requires hash < WORD
    ensures Xor(hash, b as nat) < WORD
  {
    WordWidth();
    XorBound(hash, b as nat, 32);
  }

  /** Different hashes stay different. */
  lemma StepInjectiveInHash(h1: nat, h2: nat, b: byte)
    requires h1 < WORD && h2 < WORD && Step(h1, b) == Step(h2, b)
    ensures h1 == h2
  {
    MixBound(h1, b);
    MixBound(h2, b);
    MultiplyInjective(Xor(h1, b as nat), Xor(h2, b as nat));
    XorTwice(h1, b as nat);
    XorTwice(h2, b as nat);
  }

  /** Different bytes give different hashes. */
  lemma StepInjectiveInByte(hash: nat, b1: byte, b2: byte)
    requires hash < WORD && Step(hash, b1) == Step(hash, b2)
    ensures b1 == b2
  {
    MixBound(hash, b1);
    MixBound(hash, b2);
    MultiplyInjective(Xor(hash, b1 as nat), Xor(hash, b2 as nat));
    XorSymmetric(hash, b1 as nat);
    XorSymmetric(hash, b2 as nat);
    XorTwice(b1 as nat, hash);
    XorTwice(b2 as nat, hash);
  }

  lemma {:induction false} TailKeepsDifference(h1: nat, h2: nat, bytes: Bytes)
    requires h1 < WORD && h2 < WORD && ChecksumFrom(h1, bytes) == ChecksumFrom(h2, bytes)
    ensures h1 == h2
    decreases |bytes|
  {
    if bytes != [] {
      TailKeepsDifference(Step(h1, bytes[0]), Step(h2, bytes[0]), bytes[1..]);
      StepInjectiveInHash(h1, h2, bytes[0]);
    }
  }

  lemma {:induction false} OneByteFrom(hash: nat, bytes: Bytes, i: nat, b: byte)
    requires hash < WORD && i < |bytes| && bytes[i] != b
    ensures ChecksumFrom(hash, bytes[i := b]) != ChecksumFrom(hash, bytes)
    decreases |bytes|
  {
    var bytes' := bytes[i := b];
    if i == 0 {
      assert bytes'[1..] == bytes[1..];
      if ChecksumFrom(hash, bytes') == ChecksumFrom(hash, bytes) {
        TailKeepsDifference(Step(hash, b), Step(hash, bytes[0]), bytes[1..]);
        StepInjectiveInByte(hash, b, bytes[0]);
      }
    } else {
      assert bytes'[1..] == bytes[1..][i - 1 := b];
      OneByteFrom(Step(hash, bytes[0]), bytes[1..], i - 1, b);
    }
  }

  /** Changing any one byte, in bytes of any length, changes the checksum. */
  lemma OneByteDetected(bytes: Bytes, i: nat, b: byte)
    requires i < |bytes| && bytes[i] != b
    ensures ChecksumOf(bytes[i := b]) != ChecksumOf(bytes)
  {
    OneByteFrom(FNV_OFFSET, bytes, i, b);
  }
}
