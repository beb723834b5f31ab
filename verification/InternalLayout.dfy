/** Internal B+tree nodes as bytes of a page: a 24-byte header with the parent and the first child, then a
    directory of twelve-byte slots growing up, and the keys packed from the end of the page down. */
module InternalLayout {
  import opened Keys
  import opened LittleEndian
  import opened PageBytes
  import opened TreeModel
  import opened TreeSize
  import opened NodeLayout

  function SepSlot(i: nat): nat {
    24 + 12 * i
  }

  /** `InternalNode::validate` */
  function ValidateInternal(page: Bytes): Checked {
    if |page| < INTERNAL_HEADER_LEN then Invalid(Corrupt)
    else if page[0] != PAGE_TYPE_INTERNAL then Invalid(WrongType(page[0]))
    else
      var freeStart, freeEnd := U16At(page, 4), U16At(page, 6);
      if freeStart != SepSlot(U16At(page, 2)) || freeStart > freeEnd || freeEnd > |page| then Invalid(Corrupt)
      else Valid
  }

  /** Slot i holds the separator, with its key at or above `from`. */
  predicate SepSlotIs(page: Bytes, i: nat, sep: Sep, from: nat) {
    && SepSlot(i) + INTERNAL_SLOT_LEN <= |page|
    && var s := SepSlot(i);
       var ko, kl := U16At(page, s), U16At(page, s + 2);
       && from <= ko && ko + kl <= |page| && page[ko..ko + kl] == sep.key && U64At(page, s + 4) == sep.child
  }

  predicate InternalHeaderIs(page: Bytes, parent: PageId, first: PageId) {
    && |page| >= INTERNAL_HEADER_LEN && page[0] == PAGE_TYPE_INTERNAL
    && U64At(page, 8) == parent && U64At(page, 16) == first
  }

  /** The page holds the internal node. */
  predicate HoldsInternal(page: Bytes, n: Node)
    requires n.Internal?
  {
    && InternalHeaderIs(page, n.parent, n.first) && ValidateInternal(page) == Valid
    && U16At(page, 2) == |n.seps|
    && forall i {:trigger n.seps[i]} :: 0 <= i < |n.seps| ==> SepSlotIs(page, i, n.seps[i], U16At(page, 6))
  }

  function SepSlotBytes(ko: nat, kl: nat, child: nat): (b: Bytes)
    ensures |b| == INTERNAL_SLOT_LEN
  {
    ToLE(ko, 2) + ToLE(kl, 2) + ToLE(child, 8)
  }

  lemma ThreeFields(page: Bytes, s: nat, a: Bytes, b: Bytes, c: Bytes)
    requires |a| == |b| == 2 && |c| == 8 && s + 12 <= |page| && page[s..s + 12] == a + b + c
    ensures page[s..s + 2] == a && page[s + 2..s + 4] == b && page[s + 4..s + 12] == c
  {
    var f := a + b + c;
    FourParts(a, b, c, []);
    assert f + [] == f;
    PartOfPart(page, s, f, 0, 2);
    PartOfPart(page, s, f, 2, 4);
    PartOfPart(page, s, f, 4, 12);
  }

  lemma SepSlotKept(page: Bytes, page': Bytes, i: nat, sep: Sep, from: nat)
    requires SepSlotIs(page, i, sep, from) && |page'| == |page| && from <= |page|
    requires SameRange(page, page', SepSlot(i), SepSlot(i) + INTERNAL_SLOT_LEN) && SameRange(page, page', from, |page|)
    ensures SepSlotIs(page', i, sep, from)
  {
    var s := SepSlot(i);
    U16Kept(page, page', s, s + 12, s);
    U16Kept(page, page', s, s + 12, s + 2);
    U64Kept(page, page', s, s + 12, s + 4);
    SubRange(page, page', from, |page|, U16At(page, s), U16At(page, s) + U16At(page, s + 2));
  }

  predicate SepFits(page: Bytes, i: nat, sep: Sep, end: nat) {
    SepSlot(i) + INTERNAL_SLOT_LEN + |sep.key| <= end <= |page|
  }

  /** The page with a separator's key below `end` and its slot. */
  function WithSep(page: Bytes, i: nat, sep: Sep, end: nat): Bytes
    requires SepFits(page, i, sep, end)
  {
    var ko := end - |sep.key|;
    Splice(Splice(page, ko, sep.key), SepSlot(i), SepSlotBytes(ko, |sep.key|, sep.child))
  }

  lemma SepWritten(page: Bytes, i: nat, sep: Sep, end: nat, page': Bytes)
    requires SepFits(page, i, sep, end) && |page| <= MAX_PAGE && page' == WithSep(page, i, sep, end)
    ensures SepSlotIs(page', i, sep, end - |sep.key|)
    ensures SameRange(page, page', 0, SepSlot(i))
    ensures SameRange(page, page', end, |page|)
  {
    var ko, s := end - |sep.key|, SepSlot(i);
    hide Splice, SameRange, ToLE;
    TwoSplices(page, s, SepSlotBytes(ko, |sep.key|, sep.child), ko, sep.key);
    ThreeFields(page', s, ToLE(ko, 2), ToLE(|sep.key|, 2), ToLE(sep.child, 8));
    U16Is(page', s, ko);
    U16Is(page', s + 2, |sep.key|);
    U64Is(page', s + 4, sep.child);
  }

  predicate InternalFront(page: Bytes, count: nat, parent: PageId, first: PageId) {
    InternalHeaderIs(page, parent, first) && U16At(page, 2) == count && U16At(page, 4) == SepSlot(count)
  }

  lemma InternalFrontKept(page: Bytes, page': Bytes, count: nat, parent: PageId, first: PageId)
    requires InternalFront(page, count, parent, first) && |page'| == |page|
    requires SameRange(page, page', 0, 6) && SameRange(page, page', 8, INTERNAL_HEADER_LEN)
    ensures InternalFront(page', count, parent, first)
  {
    U16Kept(page, page', 0, 6, 2);
    U16Kept(page, page', 0, 6, 4);
    U64Kept(page, page', 8, 24, 8);
    U64Kept(page, page', 8, 24, 16);
    SubRange(page, page', 0, 6, 0, 1);
    assert page'[0..1][0] == page[0..1][0];
  }

  /** The first i separators are in their slots, with keys from `end` on, and there is room for the others. */
  ghost predicate InternalSoFar(page: Bytes, n: Node, i: nat, end: nat)
    requires n.Internal?
  {
    && i <= |n.seps| && end <= |page| && SepSlot(i) + Sum(SepCosts(n.seps[i..])) <= end
    && InternalFront(page, |n.seps|, n.parent, n.first)
    && forall j {:trigger n.seps[j]} :: 0 <= j < i ==> SepSlotIs(page, j, n.seps[j], end)
  }

  lemma RoomForNextSep(seps: seq<Sep>, i: nat)
    requires i < |seps|
    ensures Sum(SepCosts(seps[i..])) == SepCost(seps[i]) + Sum(SepCosts(seps[i + 1..]))
  {
    assert SepCosts(seps[i..])[1..] == SepCosts(seps[i + 1..]);
  }

  lemma InternalBegun(page: Bytes, n: Node)
    requires n.Internal? && Fits(n, |page|) && InternalFront(page, |n.seps|, n.parent, n.first)
    ensures InternalSoFar(page, n, 0, |page|)
  {
    assert n.seps[0..] == n.seps;
  }

  lemma NextSepFits(page: Bytes, n: Node, i: nat, end: nat)
    requires n.Internal? && i < |n.seps| && InternalSoFar(page, n, i, end)
    ensures SepFits(page, i, n.seps[i], end)
  {
    RoomForNextSep(n.seps, i);
  }

  lemma LowerSepBound(page: Bytes, j: nat, sep: Sep, from: nat, lower: nat)
    requires SepSlotIs(page, j, sep, from) && lower <= from
    ensures SepSlotIs(page, j, sep, lower)
  {
  }

  lemma InternalStep(page: Bytes, n: Node, i: nat, end: nat, page': Bytes)
    requires n.Internal? && i < |n.seps| && |page| <= MAX_PAGE && InternalSoFar(page, n, i, end)
    requires SepFits(page, i, n.seps[i], end) && page' == WithSep(page, i, n.seps[i], end)
    ensures InternalSoFar(page', n, i + 1, end - |n.seps[i].key|)
  {
    hide SepSlotIs, Splice, SepSlotBytes;
    var end' := end - |n.seps[i].key|;
    RoomForNextSep(n.seps, i);
    SepWritten(page, i, n.seps[i], end, page');
    SubRange(page, page', 0, SepSlot(i), 0, 6);
    SubRange(page, page', 0, SepSlot(i), 8, INTERNAL_HEADER_LEN);
    InternalFrontKept(page, page', |n.seps|, n.parent, n.first);
    forall j | 0 <= j < i ensures SepSlotIs(page', j, n.seps[j], end') {
      SubRange(page, page', 0, SepSlot(i), SepSlot(j), SepSlot(j) + INTERNAL_SLOT_LEN);
      SepSlotKept(page, page', j, n.seps[j], end);
      LowerSepBound(page', j, n.seps[j], end, end');
    }
  }

  lemma InternalDone(page: Bytes, n: Node, end: nat, page': Bytes)
    requires n.Internal? && |page| <= MAX_PAGE && InternalSoFar(page, n, |n.seps|, end)
    requires page' == Splice(page, 6, ToLE(end, 2))
    ensures HoldsInternal(page', n) && U16At(page', 6) == end
  {
    U16RoundTrip(page, 6, end);
    SpliceElsewhere(page, 6, ToLE(end, 2), 0, 6);
    SpliceElsewhere(page, 6, ToLE(end, 2), 8, INTERNAL_HEADER_LEN);
    SpliceElsewhere(page, 6, ToLE(end, 2), 8, |page|);
    InternalFrontKept(page, page', |n.seps|, n.parent, n.first);
    hide SepSlotIs, Splice;
    forall j | 0 <= j < |n.seps| ensures SepSlotIs(page', j, n.seps[j], end) {
      SubRange(page, page', 8, |page|, SepSlot(j), SepSlot(j) + INTERNAL_SLOT_LEN);
      SubRange(page, page', 8, |page|, end, |page|);
      SepSlotKept(page, page', j, n.seps[j], end);
    }
  }

  // ── Where the keys are ──

  function SepKeys(seps: seq<Sep>): nat {
    if seps == [] then 0 else SepKeys(seps[..|seps| - 1]) + |seps[|seps| - 1].key|
  }

  predicate SepPlaced(page: Bytes, seps: seq<Sep>, j: nat)
    requires j < |seps| && 36 + 12 * j <= |page|
  {
    U16At(page, 24 + 12 * j) + SepKeys(seps[..j + 1]) == |page|
  }

  /** The keys of the first i separators are packed from the end of the page down to `end`, and between them and their slots
      all is zero. */
  ghost predicate InternalPacked(page: Bytes, seps: seq<Sep>, i: nat, end: nat) {
    && i <= |seps| && end + SepKeys(seps[..i]) == |page| && 24 + 12 * i <= end && page[1] == 0
    && (forall j {:trigger SepPlaced(page, seps, j)} :: 0 <= j < i ==> SepPlaced(page, seps, j))
    && (forall x :: 24 + 12 * i <= x < end ==> page[x] == 0)
  }

  lemma SepPlacedKept(page: Bytes, seps: seq<Sep>, j: nat, page': Bytes, from: nat, to: nat)
    requires j < |seps| && from <= 24 + 12 * j && 36 + 12 * j <= to <= |page| == |page'|
    requires SameRange(page, page', from, to) && SepPlaced(page, seps, j)
    ensures SepPlaced(page', seps, j)
  {
    hide SameRange, U16At, SepKeys;
    U16Kept(page, page', from, to, 24 + 12 * j);
  }

  lemma SepPackedStep(page: Bytes, seps: seq<Sep>, i: nat, end: nat, page': Bytes)
    requires i < |seps| && |page| <= MAX_PAGE && InternalPacked(page, seps, i, end)
    requires SepFits(page, i, seps[i], end) && page' == WithSep(page, i, seps[i], end)
    ensures InternalPacked(page', seps, i + 1, end - |seps[i].key|)
  {
    hide Splice, WithSep, SepSlotBytes, FromLE, ToLE, U16At, SameRange, SepKeys;
    var s, ko := SepSlot(i), end - |seps[i].key|;
    SepInSlot(page, i, seps[i], end, page');
    SepKeysNext(seps, i);
    forall j | 0 <= j < i ensures SepPlaced(page', seps, j) { SepPlacedKept(page, seps, j, page', 0, s); }
    forall x | 24 + 12 * (i + 1) <= x < ko ensures page'[x] == 0 { SameByte(page, page', s + 12, ko, x); }
    SameByte(page, page', 0, s, 1);
  }

  lemma SepInSlot(page: Bytes, i: nat, sep: Sep, end: nat, page': Bytes)
    requires SepFits(page, i, sep, end) && |page| <= MAX_PAGE && page' == WithSep(page, i, sep, end)
    ensures |page'| == |page|
    ensures var s, ko := SepSlot(i), end - |sep.key|;
            U16At(page', s) == ko && SameRange(page, page', 0, s) && SameRange(page, page', s + 12, ko)
  {
    hide Splice, SameRange, ToLE;
    var s, ko := SepSlot(i), end - |sep.key|;
    TwoSplices(page, s, SepSlotBytes(ko, |sep.key|, sep.child), ko, sep.key);
    ThreeFields(page', s, ToLE(ko, 2), ToLE(|sep.key|, 2), ToLE(sep.child, 8));
    U16Is(page', s, ko);
  }

  lemma SepKeysNext(seps: seq<Sep>, i: nat)
    requires i < |seps|
    ensures SepKeys(seps[..i + 1]) == SepKeys(seps[..i]) + |seps[i].key|
  {
    assert seps[..i + 1][..i] == seps[..i];
  }

  lemma SepPackedDone(page: Bytes, seps: seq<Sep>, end: nat, page': Bytes)
    requires |page| <= MAX_PAGE && InternalPacked(page, seps, |seps|, end) && page' == Splice(page, 6, ToLE(end, 2))
    ensures InternalPacked(page', seps, |seps|, end)
  {
    SpliceElsewhere(page, 6, ToLE(end, 2), 0, 6);
    SpliceElsewhere(page, 6, ToLE(end, 2), 8, |page|);
    hide Splice, FromLE, ToLE, SameRange, SepKeys, U16At;
    forall j | 0 <= j < |seps| ensures SepPlaced(page', seps, j) { SepPlacedKept(page, seps, j, page', 8, |page|); }
    forall x | 24 + 12 * |seps| <= x < end ensures page'[x] == 0 { SameByte(page, page', 8, |page|, x); }
    SameByte(page, page', 0, 6, 1);
  }

  lemma SepPackedBegun(page: Bytes, seps: seq<Sep>)
    requires |page| >= 24 && page[1] == 0 && forall x :: 24 <= x < |page| ==> page[x] == 0
    ensures InternalPacked(page, seps, 0, |page|)
  {
  }

  lemma SepPackedMeans(page: Bytes, seps: seq<Sep>, end: nat)
    requires InternalPacked(page, seps, |seps|, end)
    ensures end + SepKeys(seps) == |page| && page[1] == 0
    ensures forall i {:trigger SepPlaced(page, seps, i)} :: 0 <= i < |seps| ==> 36 + 12 * i <= |page| && SepPlaced(page, seps, i)
    ensures forall x :: 24 + 12 * |seps| <= x < end ==> page[x] == 0
  {
    hide SepKeys, SepPlaced;
    assert seps[..|seps|] == seps;
    forall i | 0 <= i < |seps| ensures 36 + 12 * i <= |page| && SepPlaced(page, seps, i) {}
  }

  /** The header fields are in bytes 2 to 23. */
  lemma InternalHeaderApart(p0: Bytes, length: nat, count: nat, parent: PageId, first: PageId)
    requires SepSlot(count) <= |p0| == length <= MAX_PAGE
    ensures var p3 := Splice(Splice(Splice(p0, 2, ToLE(0, 2)), 4, ToLE(INTERNAL_HEADER_LEN, 2)), 6, ToLE(length, 2));
            var p5 := Splice(Splice(p3, 8, ToLE(parent, 8)), 16, ToLE(first, 8));
            forall x :: 0 <= x < 2 || 24 <= x < |p0| ==> Splice(Splice(p5, 2, ToLE(count, 2)), 4, ToLE(SepSlot(count), 2))[x] == p0[x]
  {
    hide Splice, ToLE;
    var p1 := Splice(p0, 2, ToLE(0, 2));
    var p2 := Splice(p1, 4, ToLE(INTERNAL_HEADER_LEN, 2));
    var p3 := Splice(p2, 6, ToLE(length, 2));
    var p4 := Splice(p3, 8, ToLE(parent, 8));
    var p5 := Splice(p4, 16, ToLE(first, 8));
    var p6 := Splice(p5, 2, ToLE(count, 2));
    forall x | 0 <= x < 2 || 24 <= x < |p0| ensures Splice(p6, 4, ToLE(SepSlot(count), 2))[x] == p0[x] {
      ByteElsewhere(p0, 2, ToLE(0, 2), x);
      ByteElsewhere(p1, 4, ToLE(INTERNAL_HEADER_LEN, 2), x);
      ByteElsewhere(p2, 6, ToLE(length, 2), x);
      ByteElsewhere(p3, 8, ToLE(parent, 8), x);
      ByteElsewhere(p4, 16, ToLE(first, 8), x);
      ByteElsewhere(p5, 2, ToLE(count, 2), x);
      ByteElsewhere(p6, 4, ToLE(SepSlot(count), 2), x);
    }
  }

  /** `InternalNode::init`, and the two header fields that `rebuild` sets before its loop. */
  method StartInternal(page: array<byte>, count: nat, parent: PageId, first: PageId)
    requires SepSlot(count) <= page.Length <= MAX_PAGE
    modifies page
    ensures InternalFront(page[..], count, parent, first)
    ensures page[1] == 0 && forall x :: 24 <= x < page.Length ==> page[x] == 0
  {
    hide Splice, ToLE;
    forall i | 0 <= i < page.Length { page[i] := 0; }
    page[0] := PAGE_TYPE_INTERNAL;
    page[1] := 0;
    ghost var p0 := page[..];
    WriteU16(page, 2, 0);
    WriteU16(page, 4, INTERNAL_HEADER_LEN);
    WriteU16(page, 6, page.Length);
    WriteU64(page, 8, parent);
    WriteU64(page, 16, first);
    WriteU16(page, 2, count);
    WriteU16(page, 4, SepSlot(count));
    InternalStarted(p0, page.Length, count, parent, first);
    InternalHeaderApart(p0, page.Length, count, parent, first);
    forall x | x == 1 || 24 <= x < page.Length ensures page[x] == p0[x] { assert page[..][x] == page[x]; }
  }

  lemma InternalStarted(p0: Bytes, length: nat, count: nat, parent: PageId, first: PageId)
    requires SepSlot(count) <= |p0| == length <= MAX_PAGE
    requires p0[0] == PAGE_TYPE_INTERNAL
    ensures var p3 := Splice(Splice(Splice(p0, 2, ToLE(0, 2)), 4, ToLE(INTERNAL_HEADER_LEN, 2)), 6, ToLE(length, 2));
            var p5 := Splice(Splice(p3, 8, ToLE(parent, 8)), 16, ToLE(first, 8));
            InternalFront(Splice(Splice(p5, 2, ToLE(count, 2)), 4, ToLE(SepSlot(count), 2)), count, parent, first)
  {
    var p3 := Splice(Splice(Splice(p0, 2, ToLE(0, 2)), 4, ToLE(INTERNAL_HEADER_LEN, 2)), 6, ToLE(length, 2));
    var p4 := Splice(p3, 8, ToLE(parent, 8));
    var p5 := Splice(p4, 16, ToLE(first, 8));
    var p6 := Splice(p5, 2, ToLE(count, 2));
    var p7 := Splice(p6, 4, ToLE(SepSlot(count), 2));
    assert p7[0] == PAGE_TYPE_INTERNAL;
    SpliceRead(p3, 8, ToLE(parent, 8));
    SpliceRead(p4, 16, ToLE(first, 8));
    SpliceRead(p5, 2, ToLE(count, 2));
    SpliceRead(p6, 4, ToLE(SepSlot(count), 2));
    hide Splice, ToLE;
    SpliceElsewhere(p4, 16, ToLE(first, 8), 8, 16);
    SpliceElsewhere(p5, 2, ToLE(count, 2), 8, 16);
    SpliceElsewhere(p6, 4, ToLE(SepSlot(count), 2), 8, 16);
    SpliceElsewhere(p5, 2, ToLE(count, 2), 16, 24);
    SpliceElsewhere(p6, 4, ToLE(SepSlot(count), 2), 16, 24);
    SpliceElsewhere(p6, 4, ToLE(SepSlot(count), 2), 2, 4);
    U64Is(p7, 8, parent);
    U64Is(p7, 16, first);
    U16Is(p7, 2, count);
    U16Is(p7, 4, SepSlot(count));
  }

  /** Writes one separator: its key below `end`, and its slot. */
  method WriteSep(page: array<byte>, i: nat, sep: Sep, end: nat) returns (end': nat)
    requires SepFits(page[..], i, sep, end)
    modifies page
    ensures end' == end - |sep.key| && page[..] == WithSep(old(page[..]), i, sep, end)
  {
    hide Splice, ToLE;
    end' := end - |sep.key|;
    WriteBytes(page, end', sep.key);
    ghost var p1 := page[..];
    var s := SepSlot(i);
    WriteU16(page, s, end');
    WriteU16(page, s + 2, |sep.key|);
    WriteU64(page, s + 4, sep.child);
    SpliceAdjacent(p1, s, ToLE(end', 2), ToLE(|sep.key|, 2));
    SpliceAdjacent(p1, s, ToLE(end', 2) + ToLE(|sep.key|, 2), ToLE(sep.child, 8));
  }

  /** `InternalNode::rebuild`: any internal node that fits the page is in it afterwards, with its keys packed at the end of the
      page and zeros before them. */
  method RebuildInternal(page: array<byte>, seps: seq<Sep>, parent: PageId, first: PageId)
    requires page.Length <= MAX_PAGE && Fits(Internal(parent, first, seps), page.Length)
    modifies page
    ensures HoldsInternal(page[..], Internal(parent, first, seps))
    ensures U16At(page[..], 6) + SepKeys(seps) == page.Length && page[1] == 0
    ensures forall i {:trigger SepPlaced(page[..], seps, i)} :: 0 <= i < |seps| ==> 36 + 12 * i <= page.Length && SepPlaced(page[..], seps, i)
    ensures forall x :: 24 + 12 * |seps| <= x < page.Length - SepKeys(seps) ==> page[x] == 0
  {
    hide InternalPacked, SepPlaced, SepKeys, InternalSoFar, HoldsInternal, WithSep, InternalFront, Splice;
    ghost var n := Internal(parent, first, seps);
    SepSlotsFit(seps);
    StartInternal(page, |seps|, parent, first);
    var end: nat := page.Length;
    InternalBegun(page[..], n);
    SepPackedBegun(page[..], seps);
    for i := 0 to |seps|
      invariant InternalSoFar(page[..], n, i, end) && InternalPacked(page[..], seps, i, end)
    {
      ghost var before, end0 := page[..], end;
      NextSepFits(before, n, i, end);
      end := WriteSep(page, i, seps[i], end);
      InternalStep(before, n, i, end0, page[..]);
      SepPackedStep(before, seps, i, end0, page[..]);
    }
    ghost var before := page[..];
    InternalEnds(before, n, end);
    WriteU16(page, 6, end);
    InternalDone(before, n, end, page[..]);
    SepPackedDone(before, seps, end, page[..]);
    SepPackedMeans(page[..], seps, end);
    forall x | 24 + 12 * |seps| <= x < page.Length - SepKeys(seps) ensures page[x] == 0 { assert page[..][x] == 0; }
    assert page[..][1] == 0;
  }

  lemma InternalEnds(page: Bytes, n: Node, end: nat)
    requires n.Internal? && InternalSoFar(page, n, |n.seps|, end)
    ensures INTERNAL_HEADER_LEN <= end <= |page|
  {
  }

  lemma SepSlotsFit(seps: seq<Sep>)
    ensures INTERNAL_SLOT_LEN * |seps| <= Sum(SepCosts(seps))
  {
    SumBoundsBelow(SepCosts(seps), INTERNAL_SLOT_LEN);
  }

  // ── Reading internal pages ──

  predicate SepReadable(page: Bytes, i: nat) {
    SepSlot(i) + INTERNAL_SLOT_LEN <= |page| && U16At(page, SepSlot(i)) + U16At(page, SepSlot(i) + 2) <= |page|
  }

  function SepAt(page: Bytes, i: nat): Sep
    requires SepReadable(page, i)
  {
    var s := SepSlot(i);
    Sep(page[U16At(page, s)..U16At(page, s) + U16At(page, s + 2)], U64At(page, s + 4))
  }

  predicate InternalReadable(page: Bytes) {
    |page| >= INTERNAL_HEADER_LEN && forall i :: 0 <= i < U16At(page, 2) ==> SepReadable(page, i)
  }

  /** `InternalNode::read_all_entries` */
  method ReadAllSeps(page: Bytes) returns (seps: seq<Sep>)
    requires InternalReadable(page)
    ensures |seps| == U16At(page, 2) && forall i :: 0 <= i < |seps| ==> seps[i] == SepAt(page, i)
  {
    seps := [];
    for i := 0 to U16At(page, 2)
      invariant |seps| == i && forall j :: 0 <= j < i ==> seps[j] == SepAt(page, j)
    {
      seps := seps + [SepAt(page, i)];
    }
  }

  /** The internal node that a page stands for. */
  function DecodeInternal(page: Bytes): Node
    requires InternalReadable(page)
  {
    Internal(U64At(page, 8), U64At(page, 16),
             seq(U16At(page, 2), i requires 0 <= i < U16At(page, 2) => SepAt(page, i)))
  }

  /** Whatever internal node was written is read back. */
  lemma InternalRoundTrip(page: Bytes, n: Node)
    requires n.Internal? && HoldsInternal(page, n)
    ensures InternalReadable(page) && DecodeInternal(page) == n
  {
    forall i | 0 <= i < |n.seps| ensures SepReadable(page, i) && SepAt(page, i) == n.seps[i] {
      assert SepSlotIs(page, i, n.seps[i], U16At(page, 6));
    }
  }

  /** `InternalNode::all_children` */
  method AllChildren(page: Bytes, ghost n: Node) returns (children: seq<nat>)
    requires n.Internal? && HoldsInternal(page, n)
    ensures |children| == |n.seps| + 1 && forall i :: 0 <= i < |children| ==> children[i] == Child(n, i)
  {
    InternalRoundTrip(page, n);
    hide HoldsInternal;
    children := [U64At(page, 16)];
    for i := 0 to U16At(page, 2)
      invariant |children| == i + 1 && forall j :: 0 <= j <= i ==> children[j] == Child(n, j)
    {
      assert SepAt(page, i) == DecodeInternal(page).seps[i];
      children := children + [U64At(page, SepSlot(i) + 4)];
    }
  }

  /** Setting the parent pointer in place changes that pointer and nothing else. */
  method SetInternalParent(page: array<byte>, p: PageId, ghost n: Node)
    requires n.Internal? && page.Length <= MAX_PAGE && HoldsInternal(page[..], n)
    modifies page
    ensures HoldsInternal(page[..], WithParent(n, p))
  {
    ghost var before := page[..];
    WriteU64(page, 8, p);
    InternalParentSet(before, p, n, page[..]);
  }

  lemma InternalParentSet(page: Bytes, p: PageId, n: Node, page': Bytes)
    requires n.Internal? && |page| <= MAX_PAGE && HoldsInternal(page, n)
    requires page' == Splice(page, 8, ToLE(p, 8))
    ensures HoldsInternal(page', WithParent(n, p))
  {
    U64RoundTrip(page, 8, p);
    SpliceElsewhere(page, 8, ToLE(p, 8), 0, 8);
    SpliceElsewhere(page, 8, ToLE(p, 8), 16, |page|);
    hide Splice, ToLE;
    U16Kept(page, page', 0, 8, 2);
    U16Kept(page, page', 0, 8, 4);
    U16Kept(page, page', 0, 8, 6);
    U64Kept(page, page', 16, |page|, 16);
    SubRange(page, page', 0, 8, 0, 1);
    assert page'[0..1][0] == page[0..1][0];
    hide SepSlotIs;
    forall j | 0 <= j < |n.seps| ensures SepSlotIs(page', j, n.seps[j], U16At(page', 6)) {
      assert SepSlotIs(page, j, n.seps[j], U16At(page, 6));
      SepInPage(page, j, n.seps[j], U16At(page, 6));
      SubRange(page, page', 16, |page|, SepSlot(j), SepSlot(j) + INTERNAL_SLOT_LEN);
      SubRange(page, page', 16, |page|, U16At(page, 6), |page|);
      SepSlotKept(page, page', j, n.seps[j], U16At(page, 6));
    }
  }

  lemma SepInPage(page: Bytes, j: nat, sep: Sep, from: nat)
    requires SepSlotIs(page, j, sep, from)
    ensures SepSlot(j) + INTERNAL_SLOT_LEN <= |page|
  {
  }
}
