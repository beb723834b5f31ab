/** B+tree nodes as bytes of a page: a header, a directory of slots growing up, payloads packed from the
    end down. Whatever node fits a page is read back from it as it was. */
module NodeLayout {
  import opened Keys
  import opened LittleEndian
  import opened PageBytes
  import opened TreeModel
  import opened TreeSize

  const PAGE_TYPE_LEAF: byte := 1
  const PAGE_TYPE_INTERNAL: byte := 2
  const MAX_PAGE: nat := 65535

  datatype LayoutError = Corrupt | WrongType(found: byte)
  datatype Checked = Valid | Invalid(error: LayoutError)

  // ── Leaf pages ──

  function LeafSlot(i: nat): nat {
    32 + 8 * i
  }

  /** `LeafNode::validate` */
  function ValidateLeaf(page: Bytes): Checked {
    if |page| < LEAF_HEADER_LEN then Invalid(Corrupt)
    else if page[0] != PAGE_TYPE_LEAF then Invalid(WrongType(page[0]))
    else
      var freeStart, freeEnd := U16At(page, 4), U16At(page, 6);
      if freeStart != LeafSlot(U16At(page, 2)) || freeStart > freeEnd || freeEnd > |page| then Invalid(Corrupt)
      else Valid
  }

  /** Slot i holds the entry, with its payload at or above `from`. */
  predicate LeafSlotIs(page: Bytes, i: nat, e: Entry, from: nat) {
    && LeafSlot(i) + LEAF_SLOT_LEN <= |page|
    && var s := LeafSlot(i);
       var ko, kl, vo, vl := U16At(page, s), U16At(page, s + 2), U16At(page, s + 4), U16At(page, s + 6);
       && from <= ko && ko + kl <= |page| && page[ko..ko + kl] == e.key
       && from <= vo && vo + vl <= |page| && page[vo..vo + vl] == e.value
  }

  predicate LeafHeaderIs(page: Bytes, parent: PageId, prev: PageId, next: PageId) {
    && |page| >= LEAF_HEADER_LEN && page[0] == PAGE_TYPE_LEAF
    && U64At(page, 8) == parent && U64At(page, 16) == prev && U64At(page, 24) == next
  }

  /** The page holds the leaf. */
  predicate HoldsLeaf(page: Bytes, n: Node)
    requires n.Leaf?
  {
    && LeafHeaderIs(page, n.parent, n.prev, n.next) && ValidateLeaf(page) == Valid
    && U16At(page, 2) == |n.entries|
    && forall i {:trigger n.entries[i]} :: 0 <= i < |n.entries| ==> LeafSlotIs(page, i, n.entries[i], U16At(page, 6))
  }

  /** The eight bytes of a leaf slot. */
  function LeafSlotBytes(ko: nat, kl: nat, vo: nat, vl: nat): (b: Bytes)
    ensures |b| == LEAF_SLOT_LEN
  {
    ToLE(ko, 2) + ToLE(kl, 2) + ToLE(vo, 2) + ToLE(vl, 2)
  }

  lemma FourU16(page: Bytes, s: nat, a: nat, b: nat, c: nat, d: nat)
    requires s + 8 <= |page| && page[s..s + 8] == ToLE(a, 2) + ToLE(b, 2) + ToLE(c, 2) + ToLE(d, 2)
    requires a < 0x1_0000 && b < 0x1_0000 && c < 0x1_0000 && d < 0x1_0000
    ensures U16At(page, s) == a && U16At(page, s + 2) == b && U16At(page, s + 4) == c && U16At(page, s + 6) == d
  {
    hide ToLE;
    FourFields(page, s, ToLE(a, 2), ToLE(b, 2), ToLE(c, 2), ToLE(d, 2));
    U16Is(page, s, a);
    U16Is(page, s + 2, b);
    U16Is(page, s + 4, c);
    U16Is(page, s + 6, d);
  }

  lemma FourFields(page: Bytes, s: nat, a: Bytes, b: Bytes, c: Bytes, d: Bytes)
    requires |a| == |b| == |c| == |d| == 2 && s + 8 <= |page| && page[s..s + 8] == a + b + c + d
    ensures page[s..s + 2] == a && page[s + 2..s + 4] == b && page[s + 4..s + 6] == c && page[s + 6..s + 8] == d
  {
    var f := a + b + c + d;
    FourParts(a, b, c, d);
    PartOfPart(page, s, f, 0, 2);
    PartOfPart(page, s, f, 2, 4);
    PartOfPart(page, s, f, 4, 6);
    PartOfPart(page, s, f, 6, 8);
  }

  /** Pages that agree on a slot and on the payloads hold the same entry there. */
  lemma LeafSlotKept(page: Bytes, page': Bytes, i: nat, e: Entry, from: nat)
    requires LeafSlotIs(page, i, e, from) && |page'| == |page| && from <= |page|
    requires SameRange(page, page', LeafSlot(i), LeafSlot(i) + LEAF_SLOT_LEN) && SameRange(page, page', from, |page|)
    ensures LeafSlotIs(page', i, e, from)
  {
    hide SameRange, FromLE;
    var s := LeafSlot(i);
    U16Kept(page, page', s, s + 8, s);
    U16Kept(page, page', s, s + 8, s + 2);
    U16Kept(page, page', s, s + 8, s + 4);
    U16Kept(page, page', s, s + 8, s + 6);
    var ko, kl, vo, vl := U16At(page, s), U16At(page, s + 2), U16At(page, s + 4), U16At(page, s + 6);
    SubRange(page, page', from, |page|, ko, ko + kl);
    SubRange(page, page', from, |page|, vo, vo + vl);
  }

  predicate LeafEntryFits(page: Bytes, i: nat, e: Entry, end: nat) {
    LeafSlot(i) + LEAF_SLOT_LEN + |e.key| + |e.value| <= end <= |page|
  }

  /** The page with an entry's payload below `end` and its slot. */
  function WithLeafEntry(page: Bytes, i: nat, e: Entry, end: nat): (r: Bytes)
    requires LeafEntryFits(page, i, e, end)
    ensures |r| == |page|
  {
    var ko := end - |e.value| - |e.key|;
    Splice(Splice(page, ko, e.key + e.value), LeafSlot(i), LeafSlotBytes(ko, |e.key|, end - |e.value|, |e.value|))
  }

  /** A slot and its payload written. */
  lemma LeafEntryWritten(page: Bytes, i: nat, e: Entry, end: nat, page': Bytes)
    requires LeafEntryFits(page, i, e, end) && |page| <= MAX_PAGE && page' == WithLeafEntry(page, i, e, end)
    ensures LeafSlotIs(page', i, e, end - |e.value| - |e.key|)
    ensures SameRange(page, page', 0, LeafSlot(i))
    ensures SameRange(page, page', end, |page|)
  {
    var ko, vo, s := end - |e.value| - |e.key|, end - |e.value|, LeafSlot(i);
    hide Splice, SameRange;
    ThreeSplices(page, s, LeafSlotBytes(ko, |e.key|, vo, |e.value|), ko, e.key, e.value);
    FourU16(page', s, ko, |e.key|, vo, |e.value|);
  }

  /** The header, all but the end of the free space. */
  predicate LeafFront(page: Bytes, count: nat, parent: PageId, prev: PageId, next: PageId) {
    LeafHeaderIs(page, parent, prev, next) && U16At(page, 2) == count && U16At(page, 4) == LeafSlot(count)
  }

  lemma LeafFrontKept(page: Bytes, page': Bytes, count: nat, parent: PageId, prev: PageId, next: PageId)
    requires LeafFront(page, count, parent, prev, next) && |page'| == |page|
    requires SameRange(page, page', 0, 6) && SameRange(page, page', 8, LEAF_HEADER_LEN)
    ensures LeafFront(page', count, parent, prev, next)
  {
    U16Kept(page, page', 0, 6, 2);
    U16Kept(page, page', 0, 6, 4);
    U64Kept(page, page', 8, 32, 8);
    U64Kept(page, page', 8, 32, 16);
    U64Kept(page, page', 8, 32, 24);
    SubRange(page, page', 0, 6, 0, 1);
    assert page'[0..1][0] == page[0..1][0];
  }

  /** The first i entries are in their slots, with payloads from `end` on, and there is room for the others. */
  ghost predicate LeafSoFar(page: Bytes, n: Node, i: nat, end: nat)
    requires n.Leaf?
  {
    && i <= |n.entries| && end <= |page| && LeafSlot(i) + Sum(Costs(n.entries[i..])) <= end
    && LeafFront(page, |n.entries|, n.parent, n.prev, n.next)
    && forall j {:trigger n.entries[j]} :: 0 <= j < i ==> LeafSlotIs(page, j, n.entries[j], end)
  }

  lemma RoomForNext(entries: seq<Entry>, i: nat)
    requires i < |entries|
    ensures Sum(Costs(entries[i..])) == Cost(entries[i]) + Sum(Costs(entries[i + 1..]))
  {
    assert Costs(entries[i..])[1..] == Costs(entries[i + 1..]);
  }

  lemma LeafBegun(page: Bytes, n: Node)
    requires n.Leaf? && Fits(n, |page|) && LeafFront(page, |n.entries|, n.parent, n.prev, n.next)
    ensures LeafSoFar(page, n, 0, |page|)
  {
    assert n.entries[0..] == n.entries;
  }

  lemma NextFits(page: Bytes, n: Node, i: nat, end: nat)
    requires n.Leaf? && i < |n.entries| && LeafSoFar(page, n, i, end)
    ensures LeafEntryFits(page, i, n.entries[i], end)
  {
    RoomForNext(n.entries, i);
  }

  lemma LowerBound(page: Bytes, j: nat, e: Entry, from: nat, lower: nat)
    requires LeafSlotIs(page, j, e, from) && lower <= from
    ensures LeafSlotIs(page, j, e, lower)
  {
  }

  lemma LeafStep(page: Bytes, n: Node, i: nat, end: nat, page': Bytes)
    requires n.Leaf? && i < |n.entries| && |page| <= MAX_PAGE && LeafSoFar(page, n, i, end)
    requires LeafEntryFits(page, i, n.entries[i], end) && page' == WithLeafEntry(page, i, n.entries[i], end)
    ensures LeafSoFar(page', n, i + 1, end - |n.entries[i].value| - |n.entries[i].key|)
  {
    hide LeafSlotIs, Splice, LeafSlotBytes, WithLeafEntry, FromLE;
    var e := n.entries[i];
    var end' := end - |e.value| - |e.key|;
    RoomForNext(n.entries, i);
    LeafEntryWritten(page, i, e, end, page');
    SubRange(page, page', 0, LeafSlot(i), 0, 6);
    SubRange(page, page', 0, LeafSlot(i), 8, LEAF_HEADER_LEN);
    LeafFrontKept(page, page', |n.entries|, n.parent, n.prev, n.next);
    forall j | 0 <= j < i ensures LeafSlotIs(page', j, n.entries[j], end') {
      SubRange(page, page', 0, LeafSlot(i), LeafSlot(j), LeafSlot(j) + LEAF_SLOT_LEN);
      LeafSlotKept(page, page', j, n.entries[j], end);
      LowerBound(page', j, n.entries[j], end, end');
    }
  }

  /** The end of the free space is written last. */
  lemma LeafDone(page: Bytes, n: Node, end: nat, page': Bytes)
    requires n.Leaf? && |page| <= MAX_PAGE && LeafSoFar(page, n, |n.entries|, end)
    requires page' == Splice(page, 6, ToLE(end, 2))
    ensures HoldsLeaf(page', n) && U16At(page', 6) == end
  {
    U16RoundTrip(page, 6, end);
    SpliceElsewhere(page, 6, ToLE(end, 2), 0, 6);
    SpliceElsewhere(page, 6, ToLE(end, 2), 8, LEAF_HEADER_LEN);
    SpliceElsewhere(page, 6, ToLE(end, 2), 8, |page|);
    LeafFrontKept(page, page', |n.entries|, n.parent, n.prev, n.next);
    hide LeafSlotIs, Splice;
    forall j | 0 <= j < |n.entries| ensures LeafSlotIs(page', j, n.entries[j], end) {
      SubRange(page, page', 8, |page|, LeafSlot(j), LeafSlot(j) + LEAF_SLOT_LEN);
      SubRange(page, page', 8, |page|, end, |page|);
      LeafSlotKept(page, page', j, n.entries[j], end);
    }
  }

  // ── Where the payloads are ──

  /** The bytes of all keys and values. */
  function Payloads(entries: seq<Entry>): nat {
    if entries == [] then 0 else Payloads(entries[..|entries| - 1]) + |entries[|entries| - 1].key| + |entries[|entries| - 1].value|
  }

  /** The entry in slot j has its value right after its key, right below the payloads of the entries before it. */
  predicate LeafPlaced(page: Bytes, entries: seq<Entry>, j: nat)
    requires j < |entries| && 40 + 8 * j <= |page|
  {
    && U16At(page, 32 + 8 * j) + Payloads(entries[..j + 1]) == |page|
    && U16At(page, 32 + 8 * j + 4) == U16At(page, 32 + 8 * j) + |entries[j].key|
  }

  /** The first i entries are packed from the end of the page down to `end`, and between them and their slots all is zero. */
  ghost predicate LeafPacked(page: Bytes, entries: seq<Entry>, i: nat, end: nat) {
    && i <= |entries| && end + Payloads(entries[..i]) == |page| && 32 + 8 * i <= end && page[1] == 0
    && (forall j {:trigger LeafPlaced(page, entries, j)} :: 0 <= j < i ==> LeafPlaced(page, entries, j))
    && (forall x :: 32 + 8 * i <= x < end ==> page[x] == 0)
  }

  lemma PlacedKept(page: Bytes, entries: seq<Entry>, j: nat, page': Bytes, from: nat, to: nat)
    requires j < |entries| && from <= 32 + 8 * j && 40 + 8 * j <= to <= |page| == |page'|
    requires SameRange(page, page', from, to) && LeafPlaced(page, entries, j)
    ensures LeafPlaced(page', entries, j)
  {
    hide SameRange, U16At, Payloads;
    U16Kept(page, page', from, to, 32 + 8 * j);
    U16Kept(page, page', from, to, 32 + 8 * j + 4);
  }

  lemma PackedStep(page: Bytes, entries: seq<Entry>, i: nat, end: nat, page': Bytes)
    requires i < |entries| && |page| <= MAX_PAGE && LeafPacked(page, entries, i, end)
    requires LeafEntryFits(page, i, entries[i], end) && page' == WithLeafEntry(page, i, entries[i], end)
    ensures LeafPacked(page', entries, i + 1, end - |entries[i].value| - |entries[i].key|)
  {
    var e, s := entries[i], LeafSlot(i);
    var vo := end - |e.value|;
    var ko := vo - |e.key|;
    hide Splice, WithLeafEntry, LeafSlotBytes, FromLE, ToLE, U16At, SameRange, Payloads;
    EntryInSlot(page, i, e, end, page');
    PayloadsNext(entries, i);
    forall j | 0 <= j < i ensures LeafPlaced(page', entries, j) { PlacedKept(page, entries, j, page', 0, s); }
    forall x | 32 + 8 * (i + 1) <= x < ko ensures page'[x] == 0 { SameByte(page, page', s + 8, ko, x); }
    SameByte(page, page', 0, s, 1);
  }

  lemma EntryInSlot(page: Bytes, i: nat, e: Entry, end: nat, page': Bytes)
    requires LeafEntryFits(page, i, e, end) && |page| <= MAX_PAGE && page' == WithLeafEntry(page, i, e, end)
    ensures var s, ko := LeafSlot(i), end - |e.value| - |e.key|;
            && U16At(page', s) == ko && U16At(page', s + 4) == ko + |e.key|
            && SameRange(page, page', 0, s) && SameRange(page, page', s + 8, ko)
  {
    hide Splice, SameRange;
    var s, ko, vo := LeafSlot(i), end - |e.value| - |e.key|, end - |e.value|;
    ThreeSplices(page, s, LeafSlotBytes(ko, |e.key|, vo, |e.value|), ko, e.key, e.value);
    FourU16(page', s, ko, |e.key|, vo, |e.value|);
  }

  lemma PayloadsNext(entries: seq<Entry>, i: nat)
    requires i < |entries|
    ensures Payloads(entries[..i + 1]) == Payloads(entries[..i]) + |entries[i].key| + |entries[i].value|
  {
    assert entries[..i + 1][..i] == entries[..i];
  }

  lemma PackedDone(page: Bytes, entries: seq<Entry>, end: nat, page': Bytes)
    requires |page| <= MAX_PAGE && LeafPacked(page, entries, |entries|, end) && page' == Splice(page, 6, ToLE(end, 2))
    ensures LeafPacked(page', entries, |entries|, end)
  {
    SpliceElsewhere(page, 6, ToLE(end, 2), 0, 6);
    SpliceElsewhere(page, 6, ToLE(end, 2), 8, |page|);
    hide Splice, FromLE, ToLE, SameRange, Payloads, U16At;
    forall j | 0 <= j < |entries| ensures LeafPlaced(page', entries, j) { PlacedKept(page, entries, j, page', 8, |page|); }
    forall x | 32 + 8 * |entries| <= x < end ensures page'[x] == 0 { SameByte(page, page', 8, |page|, x); }
    SameByte(page, page', 0, 6, 1);
  }

  /** `LeafNode::init`, and the two header fields that `rebuild` sets before its loop. */
  method StartLeaf(page: array<byte>, count: nat, parent: PageId, prev: PageId, next: PageId)
    requires LeafSlot(count) <= page.Length <= MAX_PAGE
    modifies page
    ensures LeafFront(page[..], count, parent, prev, next)
    ensures page[1] == 0 && forall x :: 32 <= x < page.Length ==> page[x] == 0
  {
    hide Splice, ToLE;
    forall i | 0 <= i < page.Length { page[i] := 0; }
    page[0] := PAGE_TYPE_LEAF;
    page[1] := 0;
    ghost var p0 := page[..];
    WriteU16(page, 2, 0);
    WriteU16(page, 4, LEAF_HEADER_LEN);
    WriteU16(page, 6, page.Length);
    WriteU64(page, 8, parent);
    WriteU64(page, 16, prev);
    WriteU64(page, 24, next);
    WriteU16(page, 2, count);
    WriteU16(page, 4, LeafSlot(count));
    LeafStarted(p0, page.Length, count, parent, prev, next);
    HeaderApart(p0, page.Length, count, parent, prev, next);
    forall x | x == 1 || 32 <= x < page.Length ensures page[x] == p0[x] { assert page[..][x] == page[x]; }
  }

  /** The header fields are in bytes 2 to 31. */
  lemma HeaderApart(p0: Bytes, length: nat, count: nat, parent: PageId, prev: PageId, next: PageId)
    requires LeafSlot(count) <= |p0| == length <= MAX_PAGE
    ensures var p3 := Splice(Splice(Splice(p0, 2, ToLE(0, 2)), 4, ToLE(LEAF_HEADER_LEN, 2)), 6, ToLE(length, 2));
            var p6 := Splice(Splice(Splice(p3, 8, ToLE(parent, 8)), 16, ToLE(prev, 8)), 24, ToLE(next, 8));
            forall x :: 0 <= x < 2 || 32 <= x < |p0| ==> Splice(Splice(p6, 2, ToLE(count, 2)), 4, ToLE(LeafSlot(count), 2))[x] == p0[x]
  {
    hide Splice, ToLE;
    var p1 := Splice(p0, 2, ToLE(0, 2));
    var p2 := Splice(p1, 4, ToLE(LEAF_HEADER_LEN, 2));
    var p3 := Splice(p2, 6, ToLE(length, 2));
    var p4 := Splice(p3, 8, ToLE(parent, 8));
    var p5 := Splice(p4, 16, ToLE(prev, 8));
    var p6 := Splice(p5, 24, ToLE(next, 8));
    var p7 := Splice(p6, 2, ToLE(count, 2));
    forall x | 0 <= x < 2 || 32 <= x < |p0| ensures Splice(p7, 4, ToLE(LeafSlot(count), 2))[x] == p0[x] {
      ByteElsewhere(p0, 2, ToLE(0, 2), x);
      ByteElsewhere(p1, 4, ToLE(LEAF_HEADER_LEN, 2), x);
      ByteElsewhere(p2, 6, ToLE(length, 2), x);
      ByteElsewhere(p3, 8, ToLE(parent, 8), x);
      ByteElsewhere(p4, 16, ToLE(prev, 8), x);
      ByteElsewhere(p5, 24, ToLE(next, 8), x);
      ByteElsewhere(p6, 2, ToLE(count, 2), x);
      ByteElsewhere(p7, 4, ToLE(LeafSlot(count), 2), x);
    }
  }

  lemma LeafStarted(p0: Bytes, length: nat, count: nat, parent: PageId, prev: PageId, next: PageId)
    requires LeafSlot(count) <= |p0| == length <= MAX_PAGE
    requires p0[0] == PAGE_TYPE_LEAF
    ensures var p3 := Splice(Splice(Splice(p0, 2, ToLE(0, 2)), 4, ToLE(LEAF_HEADER_LEN, 2)), 6, ToLE(length, 2));
            var p6 := Splice(Splice(Splice(p3, 8, ToLE(parent, 8)), 16, ToLE(prev, 8)), 24, ToLE(next, 8));
            LeafFront(Splice(Splice(p6, 2, ToLE(count, 2)), 4, ToLE(LeafSlot(count), 2)), count, parent, prev, next)
  {
    var p3 := Splice(Splice(Splice(p0, 2, ToLE(0, 2)), 4, ToLE(LEAF_HEADER_LEN, 2)), 6, ToLE(length, 2));
    var p4 := Splice(p3, 8, ToLE(parent, 8));
    var p5 := Splice(p4, 16, ToLE(prev, 8));
    var p6 := Splice(p5, 24, ToLE(next, 8));
    var p7 := Splice(p6, 2, ToLE(count, 2));
    var p8 := Splice(p7, 4, ToLE(LeafSlot(count), 2));
    assert p8[0] == PAGE_TYPE_LEAF by { HeaderApart(p0, length, count, parent, prev, next); }
    SpliceRead(p3, 8, ToLE(parent, 8));
    SpliceRead(p4, 16, ToLE(prev, 8));
    SpliceRead(p5, 24, ToLE(next, 8));
    SpliceRead(p6, 2, ToLE(count, 2));
    SpliceRead(p7, 4, ToLE(LeafSlot(count), 2));
    hide Splice, ToLE;
    SpliceElsewhere(p4, 16, ToLE(prev, 8), 8, 16);
    SpliceElsewhere(p5, 24, ToLE(next, 8), 8, 16);
    SpliceElsewhere(p6, 2, ToLE(count, 2), 8, 16);
    SpliceElsewhere(p7, 4, ToLE(LeafSlot(count), 2), 8, 16);
    SpliceElsewhere(p5, 24, ToLE(next, 8), 16, 24);
    SpliceElsewhere(p6, 2, ToLE(count, 2), 16, 24);
    SpliceElsewhere(p7, 4, ToLE(LeafSlot(count), 2), 16, 24);
    SpliceElsewhere(p6, 2, ToLE(count, 2), 24, 32);
    SpliceElsewhere(p7, 4, ToLE(LeafSlot(count), 2), 24, 32);
    SpliceElsewhere(p7, 4, ToLE(LeafSlot(count), 2), 2, 4);
    U64Is(p8, 8, parent);
    U64Is(p8, 16, prev);
    U64Is(p8, 24, next);
    U16Is(p8, 2, count);
    U16Is(p8, 4, LeafSlot(count));
  }

  /** Writes one entry below `end`: its value, its key below that, and its slot. */
  method WriteLeafEntry(page: array<byte>, i: nat, e: Entry, end: nat) returns (end': nat)
    requires LeafEntryFits(page[..], i, e, end)
    modifies page
    ensures end' == end - |e.value| - |e.key| && page[..] == WithLeafEntry(old(page[..]), i, e, end)
  {
    hide Splice, LeafSlotBytes;
    ghost var p0 := page[..];
    var vo := end - |e.value|;
    WriteBytes(page, vo, e.value);
    end' := vo - |e.key|;
    WriteBytes(page, end', e.key);
    SpliceAdjacent(p0, end', e.key, e.value);
    WriteLeafSlot(page, LeafSlot(i), end', |e.key|, vo, |e.value|);
  }

  method WriteLeafSlot(page: array<byte>, s: nat, ko: nat, kl: nat, vo: nat, vl: nat)
    requires s + LEAF_SLOT_LEN <= page.Length
    modifies page
    ensures page[..] == Splice(old(page[..]), s, LeafSlotBytes(ko, kl, vo, vl))
  {
    hide Splice, ToLE;
    ghost var p0 := page[..];
    WriteU16(page, s, ko);
    WriteU16(page, s + 2, kl);
    WriteU16(page, s + 4, vo);
    WriteU16(page, s + 6, vl);
    FourAdjacent(p0, s, ToLE(ko, 2), ToLE(kl, 2), ToLE(vo, 2), ToLE(vl, 2));
  }

  /** `LeafNode::rebuild`: any leaf that fits the page is in it afterwards, with its entries packed at the end of the page
      and zeros before them. */
  method RebuildLeaf(page: array<byte>, entries: seq<Entry>, parent: PageId, prev: PageId, next: PageId)
    requires page.Length <= MAX_PAGE && Fits(Leaf(parent, prev, next, entries), page.Length)
    modifies page
    ensures HoldsLeaf(page[..], Leaf(parent, prev, next, entries))
    ensures U16At(page[..], 6) + Payloads(entries) == page.Length && page[1] == 0
    ensures forall i {:trigger LeafPlaced(page[..], entries, i)} :: 0 <= i < |entries| ==> 40 + 8 * i <= page.Length && LeafPlaced(page[..], entries, i)
    ensures forall x :: 32 + 8 * |entries| <= x < page.Length - Payloads(entries) ==> page[x] == 0
  {
    hide LeafPacked, LeafPlaced, Payloads, LeafSoFar, HoldsLeaf, WithLeafEntry, LeafFront, Splice;
    ghost var n := Leaf(parent, prev, next, entries);
    SlotsFit(entries);
    StartLeaf(page, |entries|, parent, prev, next);
    var end: nat := page.Length;
    LeafBegun(page[..], n);
    PackedBegun(page[..], entries);
    for i := 0 to |entries|
      invariant LeafSoFar(page[..], n, i, end) && LeafPacked(page[..], entries, i, end)
    {
      ghost var before, end0 := page[..], end;
      NextFits(before, n, i, end);
      end := WriteLeafEntry(page, i, entries[i], end);
      LeafStep(before, n, i, end0, page[..]);
      PackedStep(before, entries, i, end0, page[..]);
    }
    ghost var before := page[..];
    LeafEnds(before, n, end);
    WriteU16(page, 6, end);
    LeafDone(before, n, end, page[..]);
    PackedDone(before, entries, end, page[..]);
    PackedMeans(page[..], entries, end);
    forall x | 32 + 8 * |entries| <= x < page.Length - Payloads(entries) ensures page[x] == 0 { assert page[..][x] == 0; }
    assert page[..][1] == 0;
  }

  lemma PackedBegun(page: Bytes, entries: seq<Entry>)
    requires |page| >= 32 && page[1] == 0 && forall x :: 32 <= x < |page| ==> page[x] == 0
    ensures LeafPacked(page, entries, 0, |page|)
  {
  }

  lemma PackedMeans(page: Bytes, entries: seq<Entry>, end: nat)
    requires LeafPacked(page, entries, |entries|, end)
    ensures end + Payloads(entries) == |page| && page[1] == 0
    ensures forall i {:trigger LeafPlaced(page, entries, i)} :: 0 <= i < |entries| ==> 40 + 8 * i <= |page| && LeafPlaced(page, entries, i)
    ensures forall x :: 32 + 8 * |entries| <= x < end ==> page[x] == 0
  {
    hide Payloads, LeafPlaced;
    assert entries[..|entries|] == entries;
    forall i | 0 <= i < |entries| ensures 40 + 8 * i <= |page| && LeafPlaced(page, entries, i) {}
  }

  lemma LeafEnds(page: Bytes, n: Node, end: nat)
    requires n.Leaf? && LeafSoFar(page, n, |n.entries|, end)
    ensures LEAF_HEADER_LEN <= end <= |page|
  {
  }

  lemma {:induction false} SlotsFit(entries: seq<Entry>)
    ensures LEAF_SLOT_LEN * |entries| <= Sum(Costs(entries))
  {
    SumBoundsBelow(Costs(entries), LEAF_SLOT_LEN);
  }

  lemma {:induction false} SumBoundsBelow(a: seq<nat>, lo: nat)
    requires forall i :: 0 <= i < |a| ==> lo <= a[i]
    ensures lo * |a| <= Sum(a)
  {
    if a != [] { SumBoundsBelow(a[1..], lo); }
  }

  // ── Reading leaf pages ──

  predicate LeafSlotReadable(page: Bytes, i: nat) {
    && LeafSlot(i) + LEAF_SLOT_LEN <= |page|
    && var s := LeafSlot(i);
       U16At(page, s) + U16At(page, s + 2) <= |page| && U16At(page, s + 4) + U16At(page, s + 6) <= |page|
  }

  function LeafEntryAt(page: Bytes, i: nat): Entry
    requires LeafSlotReadable(page, i)
  {
    var s := LeafSlot(i);
    Entry(page[U16At(page, s)..U16At(page, s) + U16At(page, s + 2)],
          page[U16At(page, s + 4)..U16At(page, s + 4) + U16At(page, s + 6)])
  }

  predicate LeafReadable(page: Bytes) {
    |page| >= LEAF_HEADER_LEN && forall i :: 0 <= i < U16At(page, 2) ==> LeafSlotReadable(page, i)
  }

  /** `LeafNode::read_all_entries` */
  method ReadAllLeafEntries(page: Bytes) returns (entries: seq<Entry>)
    requires LeafReadable(page)
    ensures |entries| == U16At(page, 2) && forall i :: 0 <= i < |entries| ==> entries[i] == LeafEntryAt(page, i)
  {
    entries := [];
    for i := 0 to U16At(page, 2)
      invariant |entries| == i && forall j :: 0 <= j < i ==> entries[j] == LeafEntryAt(page, j)
    {
      entries := entries + [LeafEntryAt(page, i)];
    }
  }

  /** The leaf that a page stands for. */
  function DecodeLeaf(page: Bytes): Node
    requires LeafReadable(page)
  {
    Leaf(U64At(page, 8), U64At(page, 16), U64At(page, 24),
         seq(U16At(page, 2), i requires 0 <= i < U16At(page, 2) => LeafEntryAt(page, i)))
  }

  /** Whatever leaf was written is read back. */
  lemma LeafRoundTrip(page: Bytes, n: Node)
    requires n.Leaf? && HoldsLeaf(page, n)
    ensures LeafReadable(page) && DecodeLeaf(page) == n
  {
    forall i | 0 <= i < |n.entries| ensures LeafSlotReadable(page, i) && LeafEntryAt(page, i) == n.entries[i] {
      assert LeafSlotIs(page, i, n.entries[i], U16At(page, 6));
    }
  }

  /** `LeafNode::used_bytes` counts what the model's size of a leaf counts. */
  method UsedLeafBytes(page: Bytes, ghost n: Node) returns (used: nat)
    requires n.Leaf? && HoldsLeaf(page, n)
    ensures used == UsedBytes(n)
  {
    LeafRoundTrip(page, n);
    hide HoldsLeaf;
    var count := U16At(page, 2);
    var payloads := 0;
    assert n.entries[..0] == [];
    for i := 0 to count
      invariant LEAF_SLOT_LEN * i + payloads == Sum(Costs(n.entries[..i]))
    {
      assert LeafEntryAt(page, i) == DecodeLeaf(page).entries[i];
      payloads := payloads + U16At(page, LeafSlot(i) + 2) + U16At(page, LeafSlot(i) + 6);
      SumOneMore(n.entries, i);
    }
    assert n.entries[..count] == n.entries;
    used := LEAF_HEADER_LEN + count * LEAF_SLOT_LEN + payloads;
  }

  lemma SumOneMore(entries: seq<Entry>, i: nat)
    requires i < |entries|
    ensures Sum(Costs(entries[..i + 1])) == Sum(Costs(entries[..i])) + Cost(entries[i])
  {
    assert Costs(entries[..i + 1]) == Costs(entries[..i]) + [Cost(entries[i])];
    SumConcat(Costs(entries[..i]), [Cost(entries[i])]);
    assert Sum([Cost(entries[i])]) == Cost(entries[i]) + Sum([Cost(entries[i])][1..]);
  }

  // ── Pointers in the header ──

  datatype LeafPointer = Parent | Prev | Next

  function PointerOffset(which: LeafPointer): nat {
    match which
    case Parent => 8
    case Prev => 16
    case Next => 24
  }

  function WithPointer(n: Node, which: LeafPointer, p: PageId): Node
    requires n.Leaf?
  {
    match which
    case Parent => Leaf(p, n.prev, n.next, n.entries)
    case Prev => Leaf(n.parent, p, n.next, n.entries)
    case Next => Leaf(n.parent, n.prev, p, n.entries)
  }

  /** Setting a pointer in place changes that pointer of the leaf and nothing else. */
  method SetLeafPointer(page: array<byte>, which: LeafPointer, p: PageId, ghost n: Node)
    requires n.Leaf? && page.Length <= MAX_PAGE && HoldsLeaf(page[..], n)
    modifies page
    ensures HoldsLeaf(page[..], WithPointer(n, which, p))
  {
    ghost var before := page[..];
    WriteU64(page, PointerOffset(which), p);
    PointerSet(before, which, p, n, page[..]);
  }

  lemma PointerSet(page: Bytes, which: LeafPointer, p: PageId, n: Node, page': Bytes)
    requires n.Leaf? && |page| <= MAX_PAGE && HoldsLeaf(page, n)
    requires page' == Splice(page, PointerOffset(which), ToLE(p, 8))
    ensures HoldsLeaf(page', WithPointer(n, which, p))
  {
    var off := PointerOffset(which);
    U64RoundTrip(page, off, p);
    SpliceElsewhere(page, off, ToLE(p, 8), 0, 8);
    SpliceElsewhere(page, off, ToLE(p, 8), 8, off);
    SpliceElsewhere(page, off, ToLE(p, 8), off + 8, LEAF_HEADER_LEN);
    SpliceElsewhere(page, off, ToLE(p, 8), LEAF_HEADER_LEN, |page|);
    hide Splice, ToLE;
    U16Kept(page, page', 0, 8, 2);
    U16Kept(page, page', 0, 8, 4);
    U16Kept(page, page', 0, 8, 6);
    SubRange(page, page', 0, 8, 0, 1);
    assert page'[0..1][0] == page[0..1][0];
    OtherPointers(page, page', which);
    assert U64At(page', PointerOffset(Parent)) == WithPointer(n, which, p).parent;
    assert U64At(page', PointerOffset(Prev)) == WithPointer(n, which, p).prev;
    assert U64At(page', PointerOffset(Next)) == WithPointer(n, which, p).next;
    hide LeafSlotIs;
    forall j | 0 <= j < |n.entries| ensures LeafSlotIs(page', j, n.entries[j], U16At(page', 6)) {
      assert LeafSlotIs(page, j, n.entries[j], U16At(page, 6));
      SlotInPage(page, j, n.entries[j], U16At(page, 6));
      SubRange(page, page', LEAF_HEADER_LEN, |page|, LeafSlot(j), LeafSlot(j) + LEAF_SLOT_LEN);
      SubRange(page, page', LEAF_HEADER_LEN, |page|, U16At(page, 6), |page|);
      LeafSlotKept(page, page', j, n.entries[j], U16At(page, 6));
    }
  }

  lemma SlotInPage(page: Bytes, j: nat, e: Entry, from: nat)
    requires LeafSlotIs(page, j, e, from)
    ensures LeafSlot(j) + LEAF_SLOT_LEN <= |page|
  {
  }

  lemma OtherPointers(page: Bytes, page': Bytes, which: LeafPointer)
    requires LEAF_HEADER_LEN <= |page| == |page'|
    requires SameRange(page, page', 8, PointerOffset(which)) && SameRange(page, page', PointerOffset(which) + 8, LEAF_HEADER_LEN)
    ensures forall w: LeafPointer :: w != which ==> U64At(page', PointerOffset(w)) == U64At(page, PointerOffset(w))
  {
    var off := PointerOffset(which);
    forall w: LeafPointer | w != which ensures U64At(page', PointerOffset(w)) == U64At(page, PointerOffset(w)) {
      if PointerOffset(w) < off {
        U64Kept(page, page', 8, off, PointerOffset(w));
      } else {
        U64Kept(page, page', off + 8, LEAF_HEADER_LEN, PointerOffset(w));
      }
    }
  }
}
