/** Numbers and byte strings at fixed places of a page.

    A page is a byte string of fixed length. Writing splices bytes into it: what was written is read back, and
    everything outside the place written to stays. */
module PageBytes {
  import opened Keys
  import opened LittleEndian

  /** The page with some bytes written over it. */
  function Splice(page: Bytes, off: nat, bytes: Bytes): (r: Bytes)
    requires off + |bytes| <= |page|
    ensures |r| == |page|
  {
    page[..off] + bytes + page[off + |bytes|..]
  }

  function U16At(page: Bytes, off: nat): (n: nat)
    requires off + 2 <= |page|
    ensures n < 0x1_0000
  {
    FromLEBound(page[off..off + 2]);
    WidthValues();
    FromLE(page[off..off + 2])
  }

  /** Two bytes as a number, the low byte first. */
  function Word(page: Bytes, off: nat): nat
    requires off + 2 <= |page|
  {
    page[off] as nat + 0x100 * page[off + 1] as nat
  }

  lemma NumberAt(page: Bytes, off: nat)
    requires off + 2 <= |page|
    ensures U16At(page, off) == Word(page, off)
  {
    var b := page[off..off + 2];
    assert FromLE(b) == b[0] as nat + 256 * FromLE(b[1..]) && FromLE(b[1..]) == b[1] as nat + 256 * FromLE(b[1..][1..]);
  }

  function U64At(page: Bytes, off: nat): (n: nat)
    requires off + 8 <= |page|
    ensures n < 0x1_0000_0000_0000_0000
  {
    FromLEBound(page[off..off + 8]);
    WidthValues();
    FromLE(page[off..off + 8])
  }

  /** What was written is read back, */
  lemma SpliceRead(page: Bytes, off: nat, bytes: Bytes)
    requires off + |bytes| <= |page|
    ensures Splice(page, off, bytes)[off..off + |bytes|] == bytes
  {
  }

  /** and bytes elsewhere are as they were. */
  lemma SpliceElsewhere(page: Bytes, off: nat, bytes: Bytes, i: nat, j: nat)
    requires off + |bytes| <= |page| && i <= j <= |page| && (j <= off || off + |bytes| <= i)
    ensures Splice(page, off, bytes)[i..j] == page[i..j]
  {
    var r := Splice(page, off, bytes);
    assert forall k :: i <= k < j ==> r[k] == page[k];
  }

  lemma ByteElsewhere(page: Bytes, off: nat, bytes: Bytes, x: nat)
    requires off + |bytes| <= |page| && x < |page| && (x < off || off + |bytes| <= x)
    ensures Splice(page, off, bytes)[x] == page[x]
  {
  }

  lemma SameByte(a: Bytes, b: Bytes, i: nat, j: nat, x: nat)
    requires i <= x < j <= |a| && j <= |b| && SameRange(a, b, i, j)
    ensures b[x] == a[x]
  {
    assert a[i..j][x - i] == a[x] && b[i..j][x - i] == b[x];
  }

  lemma U16RoundTrip(page: Bytes, off: nat, n: nat)
    requires off + 2 <= |page| && n < 0x1_0000
    ensures U16At(Splice(page, off, ToLE(n, 2)), off) == n
  {
    WidthValues();
    FromToLE(n, 2);
    SpliceRead(page, off, ToLE(n, 2));
  }

  lemma U64RoundTrip(page: Bytes, off: nat, n: nat)
    requires off + 8 <= |page| && n < 0x1_0000_0000_0000_0000
    ensures U64At(Splice(page, off, ToLE(n, 8)), off) == n
  {
    WidthValues();
    FromToLE(n, 8);
    SpliceRead(page, off, ToLE(n, 8));
  }

  /** Two pages agree on a range of bytes. */
  predicate SameRange(a: Bytes, b: Bytes, i: nat, j: nat)
    requires i <= j <= |a| && j <= |b|
  {
    a[i..j] == b[i..j]
  }

  lemma SubRange(a: Bytes, b: Bytes, i: nat, j: nat, k: nat, l: nat)
    requires i <= k <= l <= j <= |a| && j <= |b| && SameRange(a, b, i, j)
    ensures a[k..l] == b[k..l]
  {
    assert forall x {:trigger a[x]} :: i <= x < j ==> a[x] == a[i..j][x - i] == b[i..j][x - i] == b[x];
  }

  /** A write low in the page and one high up. */
  lemma TwoSplices(page: Bytes, low: nat, a: Bytes, high: nat, b: Bytes)
    requires low + |a| <= high && high + |b| <= |page|
    ensures var r := Splice(Splice(page, high, b), low, a);
            && r[low..low + |a|] == a && r[high..high + |b|] == b
            && SameRange(page, r, 0, low) && SameRange(page, r, low + |a|, high) && SameRange(page, r, high + |b|, |page|)
  {
    var page1 := Splice(page, high, b);
    SpliceRead(page, high, b);
    SpliceRead(page1, low, a);
    hide Splice;
    SpliceElsewhere(page1, low, a, high, high + |b|);
    SpliceElsewhere(page, high, b, 0, low);
    SpliceElsewhere(page1, low, a, 0, low);
    SpliceElsewhere(page, high, b, low + |a|, high);
    SpliceElsewhere(page1, low, a, low + |a|, high);
    SpliceElsewhere(page, high, b, high + |b|, |page|);
    SpliceElsewhere(page1, low, a, high + |b|, |page|);
  }

  /** The same, with two byte strings next to each other high up. */
  lemma ThreeSplices(page: Bytes, low: nat, a: Bytes, high: nat, b: Bytes, c: Bytes)
    requires low + |a| <= high && high + |b| + |c| <= |page|
    ensures var r := Splice(Splice(page, high, b + c), low, a);
            && r[low..low + |a|] == a && r[high..high + |b|] == b && r[high + |b|..high + |b| + |c|] == c
            && SameRange(page, r, 0, low) && SameRange(page, r, low + |a|, high) && SameRange(page, r, high + |b| + |c|, |page|)
  {
    hide Splice, SameRange;
    TwoSplices(page, low, a, high, b + c);
    var r := Splice(Splice(page, high, b + c), low, a);
    PartOfPart(r, high, b + c, 0, |b|);
    PartOfPart(r, high, b + c, |b|, |b| + |c|);
  }

  lemma U16Kept(a: Bytes, b: Bytes, i: nat, j: nat, off: nat)
    requires i <= off && off + 2 <= j <= |a| && j <= |b| && SameRange(a, b, i, j)
    ensures U16At(b, off) == U16At(a, off)
  {
    SubRange(a, b, i, j, off, off + 2);
  }

  lemma U64Kept(a: Bytes, b: Bytes, i: nat, j: nat, off: nat)
    requires i <= off && off + 8 <= j <= |a| && j <= |b| && SameRange(a, b, i, j)
    ensures U64At(b, off) == U64At(a, off)
  {
    SubRange(a, b, i, j, off, off + 8);
  }

  lemma U16Is(page: Bytes, off: nat, n: nat)
    requires off + 2 <= |page| && n < 0x1_0000 && page[off..off + 2] == ToLE(n, 2)
    ensures U16At(page, off) == n
  {
    WidthValues();
    FromToLE(n, 2);
  }

  lemma U64Is(page: Bytes, off: nat, n: nat)
    requires off + 8 <= |page| && n < 0x1_0000_0000_0000_0000 && page[off..off + 8] == ToLE(n, 8)
    ensures U64At(page, off) == n
  {
    WidthValues();
    FromToLE(n, 8);
  }

  /** A part of a part. */
  lemma PartOfPart(page: Bytes, s: nat, f: Bytes, i: nat, j: nat)
    requires s + |f| <= |page| && page[s..s + |f|] == f && i <= j <= |f|
    ensures page[s + i..s + j] == f[i..j]
  {
    forall k | i <= k < j ensures page[s + k] == f[k] { assert page[s..s + |f|][k] == page[s + k]; }
  }

  lemma FourParts(a: Bytes, b: Bytes, c: Bytes, d: Bytes)
    ensures var f := a + b + c + d;
            && f[..|a|] == a && f[|a|..|a| + |b|] == b
            && f[|a| + |b|..|a| + |b| + |c|] == c && f[|a| + |b| + |c|..|a| + |b| + |c| + |d|] == d
  {
  }

  /** Two writes side by side are one write. */
  lemma SpliceAdjacent(page: Bytes, off: nat, a: Bytes, b: Bytes)
    requires off + |a| + |b| <= |page|
    ensures Splice(Splice(page, off, a), off + |a|, b) == Splice(page, off, a + b)
    ensures Splice(Splice(page, off + |a|, b), off, a) == Splice(page, off, a + b)
  {
  }

  lemma FourAdjacent(page: Bytes, off: nat, a: Bytes, b: Bytes, c: Bytes, d: Bytes)
    requires off + |a| + |b| + |c| + |d| <= |page|
    ensures Splice(Splice(Splice(Splice(page, off, a), off + |a|, b), off + |a| + |b|, c), off + |a| + |b| + |c|, d)
            == Splice(page, off, a + b + c + d)
  {
    hide Splice;
    SpliceAdjacent(page, off, a, b);
    SpliceAdjacent(page, off, a + b, c);
    SpliceAdjacent(page, off, a + b + c, d);
  }

  method WriteBytes(page: array<byte>, off: nat, bytes: Bytes)
    requires off + |bytes| <= page.Length
    modifies page
    ensures page[..] == Splice(old(page[..]), off, bytes)
  {
    ghost var page0 := page[..];
    for i := 0 to |bytes|
      invariant page[..] == Splice(page0, off, bytes[..i])
    {
      page[off + i] := bytes[i];
    }
    assert bytes[..|bytes|] == bytes;
  }

  method WriteU16(page: array<byte>, off: nat, n: nat)
    requires off + 2 <= page.Length
    modifies page
    ensures page[..] == Splice(old(page[..]), off, ToLE(n, 2))
  {
    WriteBytes(page, off, ToLE(n, 2));
  }

  method WriteU64(page: array<byte>, off: nat, n: nat)
    requires off + 8 <= page.Length
    modifies page
    ensures page[..] == Splice(old(page[..]), off, ToLE(n, 8))
  {
    WriteBytes(page, off, ToLE(n, 8));
  }
}
