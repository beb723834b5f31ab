/** Fixed-width little-endian numbers.

    Page numbers, lengths, offsets and transaction ids are stored with the lowest byte first, in two,
    four or eight bytes. Writing a number in a width that can hold it and reading it back gives the number. */
module LittleEndian {
  import opened Keys

  function Pow256(w: nat): (p: nat)
    ensures p > 0
  {
    if w == 0 then 1 else 256 * Pow256(w - 1)
  }

  /** The low w bytes of n, least significant first. */
  function ToLE(n: nat, w: nat): (b: Bytes)
    ensures |b| == w
  {
    if w == 0 then [] else [n % 256] + ToLE(n / 256, w - 1)
  }

  function FromLE(b: Bytes): nat {
    if b == [] then 0 else (b[0] as nat) + 256 * FromLE(b[1..])
  }

  /** Writing and reading back. */
  lemma {:induction false} FromToLE(n: nat, w: nat)
    requires n < Pow256(w)
    ensures FromLE(ToLE(n, w)) == n
  {
    if w > 0 {
      FromToLE(n / 256, w - 1);
      assert ToLE(n, w)[1..] == ToLE(n / 256, w - 1);
    }
  }

  lemma {:induction false} FromLEBound(b: Bytes)
    ensures FromLE(b) < Pow256(|b|)
  {
    if b != [] { FromLEBound(b[1..]); }
  }

  /** Different bytes are different numbers. */
  lemma {:induction false} FromLEInjective(a: Bytes, b: Bytes)
    requires |a| == |b| && FromLE(a) == FromLE(b)
    ensures a == b
  {
    if a != [] {
      assert FromLE(a) % 256 == a[0] && FromLE(b) % 256 == b[0];
      FromLEInjective(a[1..], b[1..]);
      assert a == [a[0]] + a[1..] && b == [b[0]] + b[1..];
    }
  }

  /** Reading and writing again. */
  lemma ToFromLE(b: Bytes)
    ensures ToLE(FromLE(b), |b|) == b
  {
    FromLEBound(b);
    FromToLE(FromLE(b), |b|);
    FromLEInjective(b, ToLE(FromLE(b), |b|));
  }

  // The widths that are used, byte by byte.

  lemma TwoBytes(n: nat)
    ensures ToLE(n, 2) == [n % 0x100, n / 0x100 % 0x100]
  {
    assert ToLE(n / 256, 1) == [n / 256 % 256] + ToLE(n / 256 / 256, 0);
  }

  lemma FourBytes(n: nat)
    ensures ToLE(n, 4) == [n % 0x100, n / 0x100 % 0x100, n / 0x1_0000 % 0x100, n / 0x100_0000 % 0x100]
  {
    FirstBytes(n, 4);
    assert ToLE(n / 0x1_0000_0000, 0) == [];
  }

  /** The four lowest bytes, and the rest. */
  lemma FirstBytes(n: nat, w: nat)
    requires w >= 4
    ensures ToLE(n, w) == [n % 0x100, n / 0x100 % 0x100, n / 0x1_0000 % 0x100, n / 0x100_0000 % 0x100] + ToLE(n / 0x1_0000_0000, w - 4)
  {
    var a, b, c := n / 256, n / 0x1_0000, n / 0x100_0000;
    Lowest(n, w);
    Lowest(a, w - 1);
    Lowest(b, w - 2);
    Lowest(c, w - 3);
    hide ToLE;
    assert a / 256 == b && b / 256 == c && c / 256 == n / 0x1_0000_0000;
    OneByOne(n % 256, a % 256, b % 256, c % 256, ToLE(n / 0x1_0000_0000, w - 4));
  }

  lemma Lowest(n: nat, w: nat)
    requires w > 0
    ensures ToLE(n, w) == [n % 256] + ToLE(n / 256, w - 1)
  {
  }

  lemma OneByOne(a: byte, b: byte, c: byte, d: byte, rest: Bytes)
    ensures [a] + ([b] + ([c] + ([d] + rest))) == [a, b, c, d] + rest
  {
  }

  lemma EightBytes(n: nat)
    ensures ToLE(n, 8) == [n % 0x100, n / 0x100 % 0x100, n / 0x1_0000 % 0x100, n / 0x100_0000 % 0x100]
                          + [n / 0x1_0000_0000 % 0x100, n / 0x100_0000_0000 % 0x100,
                             n / 0x1_0000_0000_0000 % 0x100, n / 0x100_0000_0000_0000 % 0x100]
  {
    hide ToLE;
    var high := n / 0x1_0000_0000;
    FirstBytes(n, 8);
    FourBytes(high);
    assert high / 0x100 == n / 0x100_0000_0000 && high / 0x1_0000 == n / 0x1_0000_0000_0000;
    assert high / 0x100_0000 == n / 0x100_0000_0000_0000;
  }

  lemma WidthValues()
    ensures Pow256(2) == 0x1_0000 && Pow256(4) == 0x1_0000_0000 && Pow256(8) == 0x1_0000_0000_0000_0000
  {
    assert Pow256(1) == 256;
    assert Pow256(2) == 256 * Pow256(1);
    assert Pow256(3) == 256 * Pow256(2);
    assert Pow256(4) == 256 * Pow256(3);
    assert Pow256(5) == 256 * Pow256(4);
    assert Pow256(6) == 256 * Pow256(5);
    assert Pow256(7) == 256 * Pow256(6);
    assert Pow256(8) == 256 * Pow256(7);
  }
}
