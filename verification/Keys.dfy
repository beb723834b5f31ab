/** Byte strings in lexicographic order. */
module Keys {
  // `Rank` embeds byte strings into the reals in [0, 1) so that the order of keys is the order of numbers; the
  // tree invariants are stated with it.

  type byte = b: int | 0 <= b < 256
  type Bytes = seq<byte>

  datatype Ordering = Less | Equal | Greater

  /** Slice comparison: the first differing byte decides, a proper prefix is smaller. */
  function Compare(a: Bytes, b: Bytes): Ordering {
    CompareFrom(a, b, 0)
  }

  function CompareFrom(a: Bytes, b: Bytes, i: nat): Ordering
    requires i <= |a| && i <= |b|
    decreases |a| - i
  {
    if i == |a| && i == |b| then Equal
    else if i == |a| then Less
    else if i == |b| then Greater
    else if a[i] < b[i] then Less
    else if b[i] < a[i] then Greater
    else CompareFrom(a, b, i + 1)
  }

  /** The order itself: a proper prefix comes before what it begins, and else the first byte that differs decides. */
  ghost predicate LexBefore(a: Bytes, b: Bytes) {
    (|a| < |b| && b[..|a|] == a) || exists i: nat :: DecidesAt(a, b, i)
  }

  ghost predicate DecidesAt(a: Bytes, b: Bytes, i: nat) {
    i < |a| && i < |b| && a[..i] == b[..i] && a[i] < b[i]
  }

  /** Comparison of keys is their lexicographic order, and exactly equal keys compare equal. */
  lemma CompareIsLex(a: Bytes, b: Bytes)
    ensures Compare(a, b) == Less <==> LexBefore(a, b)
    ensures Compare(a, b) == Greater <==> LexBefore(b, a)
    ensures Compare(a, b) == Equal <==> a == b
  {
    LexFrom(a, b, 0);
  }

  lemma {:induction false} LexFrom(a: Bytes, b: Bytes, i: nat)
    requires i <= |a| && i <= |b| && a[..i] == b[..i]
    ensures CompareFrom(a, b, i) == Less <==> LexBefore(a, b)
    ensures CompareFrom(a, b, i) == Greater <==> LexBefore(b, a)
    ensures CompareFrom(a, b, i) == Equal <==> a == b
    decreases |a| - i
  {
    if i < |a| && i < |b| && a[i] == b[i] {
      assert a[..i + 1] == a[..i] + [a[i]] == b[..i + 1];
      LexFrom(a, b, i + 1);
    } else {
      NotBefore(a, b, i);
      NotBefore(b, a, i);
    }
  }

  /** At the end of the common beginning. */
  lemma NotBefore(a: Bytes, b: Bytes, i: nat)
    requires i <= |a| && i <= |b| && a[..i] == b[..i] && (i == |a| || i == |b| || a[i] != b[i])
    ensures LexBefore(a, b) <==> i < |b| && (i == |a| || a[i] < b[i])
  {
    if i < |a| && i < |b| && a[i] < b[i] { assert DecidesAt(a, b, i); }
    SameBytes(a, b, i);
    forall j: nat | DecidesAt(a, b, j) ensures j == i { SameBytes(a, b, j); }
    assert a[..|a|] == a;
    if |a| < |b| && b[..|a|] == a { SameBytes(a, b, |a|); }
  }

  lemma SameBytes(a: Bytes, b: Bytes, i: nat)
    requires i <= |a| && i <= |b| && a[..i] == b[..i]
    ensures forall j :: 0 <= j < i ==> a[j] == b[j]
  {
    forall j | 0 <= j < i ensures a[j] == b[j] { assert a[..i][j] == b[..i][j]; }
  }

  /** Rank, too, is that order. */
  lemma RankIsLex(a: Bytes, b: Bytes)
    ensures Rank(a) < Rank(b) <==> LexBefore(a, b)
  {
    CompareIsLex(a, b);
    CompareIsRankOrder(a, b);
  }

  /** The key read as the digits of a number in base 257; digit 0 marks the end. */
  ghost function Rank(k: Bytes): (r: real)
    ensures 0.0 <= r < 1.0
  {
    RankFrom(k, 0)
  }

  ghost function RankFrom(k: Bytes, i: nat): (r: real)
    requires i <= |k|
    ensures 0.0 <= r < 1.0
    ensures i < |k| ==> 0.0 < r
    decreases |k| - i
  {
    if i == |k| then 0.0 else ((k[i] as int) as real + 1.0 + RankFrom(k, i + 1)) / 257.0
  }

  lemma {:induction false} RankFromOrder(a: Bytes, b: Bytes, i: nat)
    requires i <= |a| && i <= |b|
    requires a[..i] == b[..i]
    ensures CompareFrom(a, b, i) == Less <==> RankFrom(a, i) < RankFrom(b, i)
    ensures CompareFrom(a, b, i) == Greater <==> RankFrom(a, i) > RankFrom(b, i)
    ensures CompareFrom(a, b, i) == Equal <==> a == b
    decreases |a| - i
  {
    if i < |a| && i < |b| {
      if a[i] == b[i] {
        assert a[..i + 1] == a[..i] + [a[i]] == b[..i + 1];
        RankFromOrder(a, b, i + 1);
      } else {
        assert a[i] != b[i];
      }
    } else if i == |a| && i == |b| {
      assert a == a[..i] && b == b[..i];
    }
  }

  /** Comparison of keys is comparison of ranks, and equal ranks mean equal keys. */
  lemma CompareIsRankOrder(a: Bytes, b: Bytes)
    ensures Compare(a, b) == Less <==> Rank(a) < Rank(b)
    ensures Compare(a, b) == Greater <==> Rank(a) > Rank(b)
    ensures Compare(a, b) == Equal <==> a == b
    ensures Rank(a) == Rank(b) <==> a == b
  {
    RankFromOrder(a, b, 0);
  }
}
