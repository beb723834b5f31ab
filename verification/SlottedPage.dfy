/** The slotted page frame: insert, get, delete and compaction, in place on the page's bytes.

    The abstract value of a page is its list of slots, each with a payload or deleted. Every operation is proved
    against that list; the invariant says that the bytes hold it. */
module SlottedPage {
  import opened Keys
  import opened LittleEndian
  import opened PageBytes
  import opened SlottedLayout

  datatype SlotError = InvalidSlot | SlotDeleted | NoSpace | PayloadTooLarge | Corrupt
  datatype SlotResult<+T> = Ok(value: T) | Err(error: SlotError)

  predicate PageSize(n: nat) {
    n == 4096 || n == 8192
  }

  // ── What an insert writes ──

  /** A new payload goes below the others, into slot i of `count`. */
  predicate PlaceFits(p: Bytes, i: nat, count: nat, payload: Bytes) {
    4 <= |p| && i < count && SlotAt(count) + |payload| <= U16At(p, 2) <= |p|
  }

  function WithPayload(p: Bytes, i: nat, count: nat, payload: Bytes): (r: Bytes)
    requires PlaceFits(p, i, count, payload)
    ensures |r| == |p|
  {
    var start := U16At(p, 2) - |payload|;
    Splice(Splice(Splice(Splice(p, 0, ToLE(count, 2)), start, payload), 2, ToLE(start, 2)),
           SlotAt(i), SlotBytes(start, |payload|, FLAG_LIVE))
  }

  lemma PayloadPlaced(p: Bytes, i: nat, count: nat, payload: Bytes, r: Bytes)
    requires PlaceFits(p, i, count, payload) && |p| <= MAX_U16 && payload != [] && r == WithPayload(p, i, count, payload)
    ensures U16At(r, 0) == count && U16At(r, 2) == U16At(p, 2) - |payload|
    ensures SlotHolds(r, i, Live(false, payload), U16At(r, 2)) && U16At(r, SlotAt(i)) == U16At(r, 2)
    ensures U16At(r, SlotAt(i) + 2) == |payload|
    ensures SameRange(p, r, HEADER_LEN, SlotAt(i)) && SameRange(p, r, SlotAt(i) + SLOT_LEN, SlotAt(count))
    ensures SameRange(p, r, U16At(p, 2), |p|)
  {
    hide Splice, ToLE, SlotBytes;
    var d, end := SlotAt(i), U16At(p, 2);
    var start := end - |payload|;
    var p1 := Splice(p, 0, ToLE(count, 2));
    var p2 := Splice(p1, start, payload);
    var p3 := Splice(p2, 2, ToLE(start, 2));
    var slot := SlotBytes(start, |payload|, FLAG_LIVE);
    SpliceRead(p, 0, ToLE(count, 2));
    SpliceRead(p1, start, payload);
    SpliceRead(p2, 2, ToLE(start, 2));
    SpliceRead(p3, d, slot);
    SpliceElsewhere(p1, start, payload, 0, 2);
    SpliceElsewhere(p2, 2, ToLE(start, 2), 0, 2);
    SpliceElsewhere(p3, d, slot, 0, 2);
    SpliceElsewhere(p3, d, slot, 2, 4);
    SpliceElsewhere(p2, 2, ToLE(start, 2), start, end);
    SpliceElsewhere(p3, d, slot, start, end);
    U16Is(r, 0, count);
    U16Is(r, 2, start);
    SlotFields(r, d, start, |payload|, FLAG_LIVE);
    PlacedElsewhere(p, i, count, payload, HEADER_LEN, d);
    PlacedElsewhere(p, i, count, payload, d + SLOT_LEN, SlotAt(count));
    PlacedElsewhere(p, i, count, payload, end, |p|);
  }

  /** Bytes that are not the header's, the slot's or the payload's. */
  lemma PlacedElsewhere(p: Bytes, i: nat, count: nat, payload: Bytes, a: nat, b: nat)
    requires PlaceFits(p, i, count, payload) && HEADER_LEN <= a <= b <= |p|
    requires b <= SlotAt(i) || SlotAt(i) + SLOT_LEN <= a
    requires b <= U16At(p, 2) - |payload| || U16At(p, 2) <= a
    ensures SameRange(p, WithPayload(p, i, count, payload), a, b)
  {
    var start := U16At(p, 2) - |payload|;
    var p1 := Splice(p, 0, ToLE(count, 2));
    var p2 := Splice(p1, start, payload);
    var p3 := Splice(p2, 2, ToLE(start, 2));
    hide Splice, ToLE, SlotBytes;
    SpliceElsewhere(p, 0, ToLE(count, 2), a, b);
    SpliceElsewhere(p1, start, payload, a, b);
    SpliceElsewhere(p2, 2, ToLE(start, 2), a, b);
    SpliceElsewhere(p3, SlotAt(i), SlotBytes(start, |payload|, FLAG_LIVE), a, b);
  }

  /** The slots after an insert. */
  function Inserted(slots: seq<Slot>, i: nat, payload: Bytes): seq<Slot>
    requires i <= |slots|
  {
    if i < |slots| then slots[i := Live(false, payload)] else slots + [Live(false, payload)]
  }

  function CountAfter(slots: seq<Slot>, i: nat): nat
    requires i <= |slots|
  {
    if i < |slots| then |slots| else |slots| + 1
  }

  lemma InsertedOthers(p: Bytes, slots: seq<Slot>, i: nat, payload: Bytes, r: Bytes)
    requires Holds(p, slots) && i <= |slots| && payload != []
    requires PlaceFits(p, i, CountAfter(slots, i), payload) && r == WithPayload(p, i, CountAfter(slots, i), payload)
    ensures forall j {:trigger slots[j]} :: 0 <= j < |slots| && j != i ==>
              && SlotHolds(r, j, slots[j], U16At(r, 2))
              && U16At(r, SlotAt(j)) == U16At(p, SlotAt(j)) && U16At(r, SlotAt(j) + 2) == U16At(p, SlotAt(j) + 2)
  {
    var count, end, end' := CountAfter(slots, i), U16At(p, 2), U16At(p, 2) - |payload|;
    PayloadPlaced(p, i, count, payload, r);
    hide WithPayload, SlotHolds, Apart;
    forall j | 0 <= j < |slots| && j != i
      ensures SlotHolds(r, j, slots[j], end')
      ensures U16At(r, SlotAt(j)) == U16At(p, SlotAt(j)) && U16At(r, SlotAt(j) + 2) == U16At(p, SlotAt(j) + 2)
    {
      assert SlotHolds(p, j, slots[j], end);
      if j < i {
        SubRange(p, r, HEADER_LEN, SlotAt(i), SlotAt(j), SlotAt(j) + SLOT_LEN);
      } else {
        SubRange(p, r, SlotAt(i) + SLOT_LEN, SlotAt(count), SlotAt(j), SlotAt(j) + SLOT_LEN);
      }
      SlotKept(p, r, j, slots[j], end, end');
    }
  }

  lemma InsertHolds(p: Bytes, slots: seq<Slot>, i: nat, payload: Bytes, r: Bytes)
    requires Holds(p, slots) && i <= |slots| && payload != [] && (i < |slots| ==> slots[i].Deleted?)
    requires PlaceFits(p, i, CountAfter(slots, i), payload) && r == WithPayload(p, i, CountAfter(slots, i), payload)
    ensures Holds(r, Inserted(slots, i, payload))
  {
    var slots' := Inserted(slots, i, payload);
    PayloadPlaced(p, i, CountAfter(slots, i), payload, r);
    InsertedOthers(p, slots, i, payload, r);
    hide WithPayload, SlotHolds, Apart, SameRange;
    forall j, k | 0 <= j < k < |slots'| && slots'[j].Live? && slots'[k].Live? ensures Apart(r, j, k) {
      if j == i {
        InsertedApart(p, slots, i, payload, r, k);
      } else if k == i {
        InsertedApart(p, slots, i, payload, r, j);
        ApartSymmetric(r, i, j);
      } else {
        assert Apart(p, j, k);
        assert SlotHolds(r, j, slots[j], U16At(r, 2)) && SlotHolds(r, k, slots[k], U16At(r, 2));
        ApartKept(p, r, j, k);
      }
    }
  }

  lemma InsertedApart(p: Bytes, slots: seq<Slot>, i: nat, payload: Bytes, r: Bytes, j: nat)
    requires Holds(p, slots) && i <= |slots| && payload != []
    requires PlaceFits(p, i, CountAfter(slots, i), payload) && r == WithPayload(p, i, CountAfter(slots, i), payload)
    requires j < |slots| && j != i && slots[j].Live?
    ensures SlotAt(i) + SLOT_LEN <= |r| && SlotAt(j) + SLOT_LEN <= |r| && Apart(r, i, j)
  {
    PayloadPlaced(p, i, CountAfter(slots, i), payload, r);
    InsertedOthers(p, slots, i, payload, r);
    hide WithPayload, SameRange;
    assert SlotHolds(p, j, slots[j], U16At(p, 2));
    assert SlotHolds(r, j, slots[j], U16At(r, 2));
  }

  lemma ApartKept(p: Bytes, r: Bytes, j: nat, k: nat)
    requires |p| == |r| && SlotAt(j) + SLOT_LEN <= |p| && SlotAt(k) + SLOT_LEN <= |p| && Apart(p, j, k)
    requires U16At(r, SlotAt(j)) == U16At(p, SlotAt(j)) && U16At(r, SlotAt(j) + 2) == U16At(p, SlotAt(j) + 2)
    requires U16At(r, SlotAt(k)) == U16At(p, SlotAt(k)) && U16At(r, SlotAt(k) + 2) == U16At(p, SlotAt(k) + 2)
    ensures Apart(r, j, k)
  {
  }

  lemma ApartSymmetric(r: Bytes, j: nat, k: nat)
    requires SlotAt(j) + SLOT_LEN <= |r| && SlotAt(k) + SLOT_LEN <= |r| && Apart(r, j, k)
    ensures Apart(r, k, j)
  {
  }

  // ── What a delete writes ──

  lemma DeleteHolds(p: Bytes, slots: seq<Slot>, i: nat, r: Bytes)
    requires Holds(p, slots) && i < |slots| && r == Splice(p, SlotAt(i), SlotBytes(0, 0, FLAG_TOMBSTONE))
    ensures Holds(r, slots[i := Deleted])
  {
    var d, end := SlotAt(i), U16At(p, 2);
    var slot := SlotBytes(0, 0, FLAG_TOMBSTONE);
    SpliceRead(p, d, slot);
    SlotFields(r, d, 0, 0, FLAG_TOMBSTONE);
    assert SlotHolds(r, i, Deleted, end);
    hide Splice, SlotBytes, Apart, SlotHolds, SameRange;
    DirectoryOnly(p, slots, i, slot, r);
    forall j, k | 0 <= j < k < |slots| && j != i && k != i && slots[j].Live? && slots[k].Live? ensures Apart(r, j, k) {
      assert Apart(p, j, k);
      ApartKept(p, r, j, k);
    }
  }

  /** Writing one directory entry leaves the header and the other slots as they were. */
  lemma DirectoryOnly(p: Bytes, slots: seq<Slot>, i: nat, slot: Bytes, r: Bytes)
    requires Holds(p, slots) && i < |slots| && |slot| == SLOT_LEN && r == Splice(p, SlotAt(i), slot)
    ensures U16At(r, 0) == U16At(p, 0) && U16At(r, 2) == U16At(p, 2) && SameRange(p, r, U16At(p, 2), |p|)
    ensures forall j {:trigger slots[j]} :: 0 <= j < |slots| && j != i ==>
              && SlotHolds(r, j, slots[j], U16At(p, 2))
              && U16At(r, SlotAt(j)) == U16At(p, SlotAt(j)) && U16At(r, SlotAt(j) + 2) == U16At(p, SlotAt(j) + 2)
  {
    var d, end := SlotAt(i), U16At(p, 2);
    SpliceElsewhere(p, d, slot, 0, d);
    SpliceElsewhere(p, d, slot, d + SLOT_LEN, |p|);
    hide Splice, Apart;
    U16Kept(p, r, 0, d, 0);
    U16Kept(p, r, 0, d, 2);
    SubRange(p, r, d + SLOT_LEN, |p|, end, |p|);
    forall j | 0 <= j < |slots| && j != i
      ensures SlotHolds(r, j, slots[j], end)
      ensures U16At(r, SlotAt(j)) == U16At(p, SlotAt(j)) && U16At(r, SlotAt(j) + 2) == U16At(p, SlotAt(j) + 2)
    {
      assert SlotHolds(p, j, slots[j], end);
      if j < i {
        SubRange(p, r, 0, d, SlotAt(j), SlotAt(j) + SLOT_LEN);
      } else {
        SubRange(p, r, d + SLOT_LEN, |p|, SlotAt(j), SlotAt(j) + SLOT_LEN);
      }
      SlotKept(p, r, j, slots[j], end, end);
    }
  }

  function WithFlags(p: Bytes, i: nat, overflow: bool): Bytes
    requires SlotAt(i) + SLOT_LEN <= |p|
  {
    Splice(p, SlotAt(i), SlotBytes(U16At(p, SlotAt(i)), U16At(p, SlotAt(i) + 2), if overflow then FLAG_OVERFLOW else FLAG_LIVE))
  }

  lemma FlagsWritten(p: Bytes, i: nat, s: Slot, from: nat, overflow: bool, r: Bytes)
    requires s.Live? && SlotHolds(p, i, s, from) && SlotAt(i) + SLOT_LEN <= from && r == WithFlags(p, i, overflow)
    ensures SlotHolds(r, i, Live(overflow, s.payload), from)
    ensures U16At(r, SlotAt(i)) == U16At(p, SlotAt(i)) && U16At(r, SlotAt(i) + 2) == U16At(p, SlotAt(i) + 2)
  {
    var d := SlotAt(i);
    var off, len := U16At(p, d), U16At(p, d + 2);
    var slot := SlotBytes(off, len, if overflow then FLAG_OVERFLOW else FLAG_LIVE);
    hide Splice, SlotBytes;
    SpliceRead(p, d, slot);
    SlotFields(r, d, off, len, if overflow then FLAG_OVERFLOW else FLAG_LIVE);
    SpliceElsewhere(p, d, slot, off, off + len);
  }

  lemma FlagsHold(p: Bytes, slots: seq<Slot>, i: nat, overflow: bool, r: Bytes)
    requires Holds(p, slots) && i < |slots| && slots[i].Live? && r == WithFlags(p, i, overflow)
    ensures Holds(r, slots[i := Live(overflow, slots[i].payload)])
  {
    hide Splice, SlotBytes, Apart, SlotHolds, SameRange;
    var end := U16At(p, 2);
    assert SlotHolds(p, i, slots[i], end);
    FlagsWritten(p, i, slots[i], end, overflow, r);
    DirectoryOnly(p, slots, i, SlotBytes(U16At(p, SlotAt(i)), U16At(p, SlotAt(i) + 2), if overflow then FLAG_OVERFLOW else FLAG_LIVE), r);
    forall j, k | 0 <= j < k < |slots| && slots[j].Live? && slots[k].Live? ensures Apart(r, j, k) {
      assert Apart(p, j, k);
      ApartKept(p, r, j, k);
    }
  }

  // ── Compaction ──

  /** A live slot, where it is going, and a copy of its payload. */
  datatype Packed = Packed(slot: nat, offset: nat, flags: nat, bytes: Bytes)

  /** Where compaction puts a slot's payload: below those of the slots before it. */
  function NewOffset(size: nat, slots: seq<Slot>, i: nat): int
    requires i < |slots|
  {
    size - LiveBytes(slots[..i + 1])
  }

  lemma {:induction false} LiveBytesGrow(slots: seq<Slot>, i: nat, j: nat)
    requires i <= j <= |slots|
    ensures LiveBytes(slots[..i]) <= LiveBytes(slots[..j])
    decreases j
  {
    if i < j {
      assert slots[..j][..j - 1] == slots[..j - 1];
      LiveBytesGrow(slots, i, j - 1);
    }
  }

  lemma LiveBytesStep(slots: seq<Slot>, i: nat)
    requires i < |slots|
    ensures LiveBytes(slots[..i + 1]) == LiveBytes(slots[..i]) + if slots[i].Live? then |slots[i].payload| else 0
    ensures LiveBytes(slots[..i + 1]) <= LiveBytes(slots)
    ensures slots[..0] == [] && slots[..|slots|] == slots
  {
    assert slots[..i + 1][..i] == slots[..i];
    assert slots[..|slots|] == slots;
    LiveBytesGrow(slots, i + 1, |slots|);
  }

  predicate IsPacked(size: nat, slots: seq<Slot>, k: Packed) {
    && k.slot < |slots| && slots[k.slot] == Live(k.flags == FLAG_OVERFLOW, k.bytes)
    && k.flags == (if slots[k.slot].overflow then FLAG_OVERFLOW else FLAG_LIVE)
    && k.offset == NewOffset(size, slots, k.slot)
  }

  /** Every live slot among the first n is in the list, in order. */
  ghost predicate AllPacked(size: nat, slots: seq<Slot>, packed: seq<Packed>, n: nat) {
    && n <= |slots|
    && (forall k {:trigger packed[k]} :: 0 <= k < |packed| ==> IsPacked(size, slots, packed[k]) && packed[k].slot < n)
    && (forall k, l :: 0 <= k < l < |packed| ==> packed[k].slot < packed[l].slot)
    && (forall j {:trigger slots[j]} :: 0 <= j < n && slots[j].Live? ==> exists k :: 0 <= k < |packed| && packed[k].slot == j)
  }

  /** Slot j has its payload at its new place. */
  ghost predicate InPlace(r: Bytes, slots: seq<Slot>, j: nat)
    requires j < |slots|
  {
    && LiveBytes(slots) <= |r| && SlotHolds(r, j, slots[j], |r| - LiveBytes(slots))
    && (slots[j].Live? ==> U16At(r, SlotAt(j)) == NewOffset(|r|, slots, j))
  }

  /** The first n packed slots are in place, and so are the tombstones. */
  ghost predicate PartlyCompacted(r: Bytes, slots: seq<Slot>, packed: seq<Packed>, n: nat) {
    && n <= |packed| && 4 <= |r| <= MAX_U16 && SlotAt(|slots|) + LiveBytes(slots) <= |r|
    && U16At(r, 0) == |slots| && U16At(r, 2) == |r| - LiveBytes(slots)
    && (forall j {:trigger slots[j]} :: 0 <= j < |slots| && slots[j].Deleted? ==> SlotHolds(r, j, slots[j], 0))
    && (forall k {:trigger packed[k]} :: 0 <= k < n ==> packed[k].slot < |slots| && InPlace(r, slots, packed[k].slot))
  }

  function WithPacked(p: Bytes, k: Packed): (r: Bytes)
    requires SlotAt(k.slot) + SLOT_LEN <= k.offset && k.offset + |k.bytes| <= |p|
    ensures |r| == |p|
  {
    Splice(Splice(p, k.offset, k.bytes), SlotAt(k.slot), SlotBytes(k.offset, |k.bytes|, k.flags))
  }

  lemma PackedFits(size: nat, slots: seq<Slot>, k: Packed)
    requires IsPacked(size, slots, k) && SlotAt(|slots|) + LiveBytes(slots) <= size
    ensures SlotAt(k.slot) + SLOT_LEN <= SlotAt(|slots|) <= size - LiveBytes(slots) <= k.offset
    ensures k.offset + |k.bytes| == size - LiveBytes(slots[..k.slot]) <= size
  {
    LiveBytesStep(slots, k.slot);
  }

  /** One packed slot is written where it goes. */
  lemma PackedBytes(p: Bytes, k: Packed, r: Bytes)
    requires SlotAt(k.slot) + SLOT_LEN <= k.offset && k.offset + |k.bytes| <= |p| <= MAX_U16 && k.flags <= MAX_U16
    requires r == WithPacked(p, k)
    ensures var d := SlotAt(k.slot);
            && U16At(r, d) == k.offset && U16At(r, d + 2) == |k.bytes| && U16At(r, d + 4) == k.flags
            && r[k.offset..k.offset + |k.bytes|] == k.bytes
    ensures SameRange(p, r, 0, SlotAt(k.slot)) && SameRange(p, r, SlotAt(k.slot) + SLOT_LEN, k.offset)
    ensures SameRange(p, r, k.offset + |k.bytes|, |p|)
  {
    hide Splice, SlotBytes, SameRange;
    TwoSplices(p, SlotAt(k.slot), SlotBytes(k.offset, |k.bytes|, k.flags), k.offset, k.bytes);
    SlotFields(r, SlotAt(k.slot), k.offset, |k.bytes|, k.flags);
  }

  lemma PackedWritten(p: Bytes, slots: seq<Slot>, k: Packed, r: Bytes)
    requires IsPacked(|p|, slots, k) && |k.bytes| > 0 && SlotAt(|slots|) + LiveBytes(slots) <= |p| <= MAX_U16
    requires SlotAt(k.slot) + SLOT_LEN <= k.offset && k.offset + |k.bytes| <= |p| && r == WithPacked(p, k)
    ensures InPlace(r, slots, k.slot)
  {
    hide WithPacked, SameRange, LiveBytes, U16At;
    PackedFits(|p|, slots, k);
    PackedBytes(p, k, r);
  }

  /** Where another live slot's payload is: above, for a slot before; below, for a slot after. */
  lemma PlacesApart(size: nat, slots: seq<Slot>, k: Packed, j: nat)
    requires IsPacked(size, slots, k) && SlotAt(|slots|) + LiveBytes(slots) <= size
    requires j < |slots| && j != k.slot && slots[j].Live?
    ensures j < k.slot ==> k.offset + |k.bytes| <= NewOffset(size, slots, j)
    ensures j > k.slot ==> SlotAt(k.slot) + SLOT_LEN <= NewOffset(size, slots, j)
                           && NewOffset(size, slots, j) + |slots[j].payload| <= k.offset
    ensures NewOffset(size, slots, j) + |slots[j].payload| <= size
  {
    PackedFits(size, slots, k);
    LiveBytesStep(slots, j);
    LiveBytesStep(slots, k.slot);
    if j < k.slot { LiveBytesGrow(slots, j + 1, k.slot); } else { LiveBytesGrow(slots, k.slot + 1, j); }
  }

  /** Another slot's directory entry. */
  lemma OtherEntryKept(p: Bytes, r: Bytes, slots: seq<Slot>, k: Packed, j: nat)
    requires j < |slots| && k.slot < |slots| && j != k.slot && SlotAt(|slots|) <= k.offset <= |p| == |r|
    requires SameRange(p, r, 0, SlotAt(k.slot)) && SameRange(p, r, SlotAt(k.slot) + SLOT_LEN, k.offset)
    ensures SameRange(p, r, SlotAt(j), SlotAt(j) + SLOT_LEN)
  {
    if j < k.slot {
      SubRange(p, r, 0, SlotAt(k.slot), SlotAt(j), SlotAt(j) + SLOT_LEN);
    } else {
      SubRange(p, r, SlotAt(k.slot) + SLOT_LEN, k.offset, SlotAt(j), SlotAt(j) + SLOT_LEN);
    }
  }

  /** Other slots that are in place stay in place. */
  lemma OthersInPlace(p: Bytes, slots: seq<Slot>, k: Packed, r: Bytes, j: nat)
    requires IsPacked(|p|, slots, k) && |k.bytes| > 0 && SlotAt(|slots|) + LiveBytes(slots) <= |p| <= MAX_U16
    requires SlotAt(k.slot) + SLOT_LEN <= k.offset && k.offset + |k.bytes| <= |p| && r == WithPacked(p, k)
    requires j < |slots| && j != k.slot && InPlace(p, slots, j)
    ensures InPlace(r, slots, j)
  {
    hide WithPacked, LiveBytes, SameRange, U16At, InPlace, SlotHolds, NewOffset;
    PackedFlags(|p|, slots, k);
    PackedBytes(p, k, r);
    PackedFits(|p|, slots, k);
    hide IsPacked;
    OtherEntryKept(p, r, slots, k, j);
    if slots[j].Live? {
      OtherPayloadPlace(p, slots, k, j);
      OtherPayloadKept(p, r, k, U16At(p, SlotAt(j)), U16At(p, SlotAt(j) + 2));
    }
    StaysInPlace(p, r, slots, j);
  }

  lemma PackedFlags(size: nat, slots: seq<Slot>, k: Packed)
    requires IsPacked(size, slots, k)
    ensures k.flags <= MAX_U16 && k.slot < |slots| && slots[k.slot].Live?
  {
  }

  lemma StaysInPlace(p: Bytes, r: Bytes, slots: seq<Slot>, j: nat)
    requires j < |slots| && InPlace(p, slots, j) && |r| == |p| && SlotAt(j) + SLOT_LEN <= |p|
    requires SameRange(p, r, SlotAt(j), SlotAt(j) + SLOT_LEN)
    requires slots[j].Live? ==> SameRange(p, r, U16At(p, SlotAt(j)), U16At(p, SlotAt(j)) + U16At(p, SlotAt(j) + 2))
    ensures InPlace(r, slots, j)
  {
    hide SameRange, U16At, LiveBytes, SlotHolds;
    KeptExactly(p, r, j, slots[j], |p| - LiveBytes(slots));
  }

  /** Where the payload of another slot that is in place is. */
  lemma OtherPayloadPlace(p: Bytes, slots: seq<Slot>, k: Packed, j: nat)
    requires IsPacked(|p|, slots, k) && SlotAt(|slots|) + LiveBytes(slots) <= |p|
    requires j < |slots| && j != k.slot && slots[j].Live? && InPlace(p, slots, j)
    ensures SlotAt(j) + SLOT_LEN <= |p|
    ensures var off, len := U16At(p, SlotAt(j)), U16At(p, SlotAt(j) + 2);
            && off + len <= |p|
            && (k.offset + |k.bytes| <= off || (SlotAt(k.slot) + SLOT_LEN <= off && off + len <= k.offset))
  {
    PlacesApart(|p|, slots, k, j);
  }

  lemma OtherPayloadKept(p: Bytes, r: Bytes, k: Packed, off: nat, len: nat)
    requires SlotAt(k.slot) + SLOT_LEN <= k.offset && k.offset + |k.bytes| <= |p| == |r|
    requires SameRange(p, r, SlotAt(k.slot) + SLOT_LEN, k.offset) && SameRange(p, r, k.offset + |k.bytes|, |p|)
    requires off + len <= |p|
    requires k.offset + |k.bytes| <= off || (SlotAt(k.slot) + SLOT_LEN <= off && off + len <= k.offset)
    ensures SameRange(p, r, off, off + len)
  {
    if k.offset + |k.bytes| <= off {
      SameSub(p, r, k.offset + |k.bytes|, |p|, off, off + len);
    } else {
      SameSub(p, r, SlotAt(k.slot) + SLOT_LEN, k.offset, off, off + len);
    }
  }

  lemma SameSub(a: Bytes, b: Bytes, i: nat, j: nat, k: nat, l: nat)
    requires i <= k <= l <= j <= |a| && j <= |b| && SameRange(a, b, i, j)
    ensures SameRange(a, b, k, l)
  {
    SubRange(a, b, i, j, k, l);
  }

  lemma KeptExactly(p: Bytes, p': Bytes, i: nat, s: Slot, from: nat)
    requires SlotHolds(p, i, s, from) && |p'| == |p|
    requires SameRange(p, p', SlotAt(i), SlotAt(i) + SLOT_LEN)
    requires s.Live? ==> SameRange(p, p', U16At(p, SlotAt(i)), U16At(p, SlotAt(i)) + U16At(p, SlotAt(i) + 2))
    ensures SlotHolds(p', i, s, from) && U16At(p', SlotAt(i)) == U16At(p, SlotAt(i))
  {
    var d := SlotAt(i);
    U16Kept(p, p', d, d + 6, d);
    U16Kept(p, p', d, d + 6, d + 2);
    U16Kept(p, p', d, d + 6, d + 4);
  }

  /** Writing one slot leaves the tombstones. */
  lemma DeletedKept(p: Bytes, slots: seq<Slot>, k: Packed, r: Bytes)
    requires k.slot < |slots| && slots[k.slot].Live? && SlotAt(|slots|) <= k.offset <= |p| == |r|
    requires SameRange(p, r, 0, SlotAt(k.slot)) && SameRange(p, r, SlotAt(k.slot) + SLOT_LEN, k.offset)
    requires forall j {:trigger slots[j]} :: 0 <= j < |slots| && slots[j].Deleted? ==> SlotHolds(p, j, slots[j], 0)
    ensures forall j {:trigger slots[j]} :: 0 <= j < |slots| && slots[j].Deleted? ==> SlotHolds(r, j, slots[j], 0)
  {
    hide SameRange, SlotHolds;
    forall j | 0 <= j < |slots| && slots[j].Deleted? ensures SlotHolds(r, j, slots[j], 0) {
      assert j != k.slot && SlotHolds(p, j, slots[j], 0);
      OtherEntryKept(p, r, slots, k, j);
      KeptExactly(p, r, j, slots[j], 0);
    }
  }

  lemma CompactStep(p: Bytes, slots: seq<Slot>, packed: seq<Packed>, n: nat, r: Bytes)
    requires PartlyCompacted(p, slots, packed, n) && n < |packed| && AllPacked(|p|, slots, packed, |slots|)
    requires |packed[n].bytes| > 0
    requires SlotAt(packed[n].slot) + SLOT_LEN <= packed[n].offset && packed[n].offset + |packed[n].bytes| <= |p|
    requires r == WithPacked(p, packed[n])
    ensures PartlyCompacted(r, slots, packed, n + 1)
  {
    hide WithPacked, InPlace, LiveBytes, SameRange, SlotHolds, U16At, AllPacked, IsPacked;
    var k := packed[n];
    PackedApart(|p|, slots, packed, n);
    PackedFlags(|p|, slots, k);
    PackedFits(|p|, slots, k);
    PackedWritten(p, slots, k, r);
    PackedBytes(p, k, r);
    U16Kept(p, r, 0, SlotAt(k.slot), 0);
    U16Kept(p, r, 0, SlotAt(k.slot), 2);
    DeletedKept(p, slots, k, r);
    forall l | 0 <= l < n ensures InPlace(r, slots, packed[l].slot) { OthersInPlace(p, slots, k, r, packed[l].slot); }
  }

  lemma PackedApart(size: nat, slots: seq<Slot>, packed: seq<Packed>, n: nat)
    requires AllPacked(size, slots, packed, |slots|) && n < |packed|
    ensures IsPacked(size, slots, packed[n])
    ensures forall l {:trigger packed[l]} :: 0 <= l < n ==> packed[l].slot < |slots| && packed[l].slot != packed[n].slot
  {
  }

  /** When all packed slots are in place, the page holds the same slots, with no holes. */
  lemma CompactDone(r: Bytes, slots: seq<Slot>, packed: seq<Packed>)
    requires PartlyCompacted(r, slots, packed, |packed|) && AllPacked(|r|, slots, packed, |slots|)
    ensures Holds(r, slots) && ContiguousFree(r) == ReclaimableFree(|r|, slots)
    ensures forall j {:trigger slots[j]} :: 0 <= j < |slots| && slots[j].Live? ==> InPlace(r, slots, j)
  {
    hide InPlace, LiveBytes, SlotHolds, AllPacked, Apart;
    forall j | 0 <= j < |slots| ensures SlotHolds(r, j, slots[j], U16At(r, 2)) && (slots[j].Live? ==> InPlace(r, slots, j)) {
      if slots[j].Live? {
        var k := PackedAt(|r|, slots, packed, j);
        assert InPlace(r, slots, packed[k].slot);
        InPlaceHolds(r, slots, j);
      } else {
        assert SlotHolds(r, j, slots[j], 0);
        TombstoneHolds(r, j, 0, U16At(r, 2));
      }
    }
    forall i, j | 0 <= i < j < |slots| && slots[i].Live? && slots[j].Live? ensures Apart(r, i, j) {
      var k := PackedAt(|r|, slots, packed, i);
      var l := PackedAt(|r|, slots, packed, j);
      PlacedApart(r, slots, i, j);
    }
  }

  lemma PackedAt(size: nat, slots: seq<Slot>, packed: seq<Packed>, j: nat) returns (k: nat)
    requires AllPacked(size, slots, packed, |slots|) && j < |slots| && slots[j].Live?
    ensures k < |packed| && packed[k].slot == j
  {
    k :| 0 <= k < |packed| && packed[k].slot == j;
  }

  lemma InPlaceHolds(r: Bytes, slots: seq<Slot>, j: nat)
    requires j < |slots| && InPlace(r, slots, j)
    ensures LiveBytes(slots) <= |r| && SlotHolds(r, j, slots[j], |r| - LiveBytes(slots))
  {
  }

  lemma TombstoneHolds(r: Bytes, j: nat, a: nat, b: nat)
    requires SlotHolds(r, j, Deleted, a)
    ensures SlotHolds(r, j, Deleted, b)
  {
  }

  lemma PlacedApart(r: Bytes, slots: seq<Slot>, i: nat, j: nat)
    requires i < j < |slots| && slots[i].Live? && slots[j].Live? && InPlace(r, slots, i) && InPlace(r, slots, j)
    ensures SlotAt(i) + SLOT_LEN <= |r| && SlotAt(j) + SLOT_LEN <= |r| && Apart(r, i, j)
  {
    hide U16At;
    LiveBytesStep(slots, j);
    LiveBytesGrow(slots, i + 1, j);
  }

  // ── The page ──

  class SlottedPage {
    const data: array<byte>
    ghost var slots: seq<Slot>

    ghost predicate Valid()
      reads this, data
    {
      PageSize(data.Length) && Holds(data[..], slots)
    }

    /** An empty page. */
    constructor (pageSize: nat)
      requires PageSize(pageSize)
      ensures Valid() && fresh(data) && slots == [] && data.Length == pageSize
      ensures ContiguousFree(data[..]) == pageSize - 8 && forall i :: 4 <= i < pageSize ==> data[i] == 0
    {
      data := new byte[pageSize](_ => 0);
      slots := [];
      new;
      ghost var p0 := data[..];
      WriteU16(data, 0, 0);
      ghost var p1 := data[..];
      WriteU16(data, 2, pageSize);
      U16RoundTrip(p0, 0, 0);
      U16RoundTrip(p1, 2, pageSize);
      SpliceElsewhere(p1, 2, ToLE(pageSize, 2), 0, 2);
      forall i | 4 <= i < pageSize ensures data[i] == 0 {
        ByteElsewhere(p0, 0, ToLE(0, 2), i);
        ByteElsewhere(p1, 2, ToLE(pageSize, 2), i);
      }
    }

    /** A page read from somewhere, if it is one. */
    constructor Parsed(bytes: Bytes, ghost slots: seq<Slot>)
      requires PageSize(|bytes|) && Holds(bytes, slots)
      ensures Valid() && fresh(data) && data[..] == bytes && this.slots == slots
    {
      data := new byte[|bytes|](i requires 0 <= i < |bytes| => bytes[i]);
      this.slots := slots;
      new;
      assert data[..] == bytes;
    }

    method FindTombstone() returns (found: bool, slot: nat)
      requires Valid()
      ensures found ==> slot < |slots| && slots[slot].Deleted? && forall i :: 0 <= i < slot ==> slots[i].Live?
      ensures !found ==> forall i :: 0 <= i < |slots| ==> slots[i].Live?
    {
      for i := 0 to U16At(data[..], 0)
        invariant forall j :: 0 <= j < i ==> slots[j].Live?
      {
        assert SlotHolds(data[..], i, slots[i], U16At(data[..], 2));
        if U16At(data[..], SlotAt(i) + 4) == FLAG_TOMBSTONE { return true, i; }
      }
      return false, 0;
    }

    /** Unused bytes with the holes that deleted payloads left. */
    method Reclaimable() returns (free: nat)
      requires Valid()
      ensures free == ReclaimableFree(data.Length, slots)
    {
      hide SlotHolds, Apart, LiveBytes, FromLE;
      var count := U16At(data[..], 0);
      var live := 0;
      LiveBytesStart(slots);
      for i := 0 to count
        invariant live == LiveBytes(slots[..i])
      {
        SlotFlags(data[..], slots, i);
        LiveBytesStep(slots, i);
        var flags := U16At(data[..], SlotAt(i) + 4);
        if flags == FLAG_LIVE || flags == FLAG_OVERFLOW { live := live + U16At(data[..], SlotAt(i) + 2); }
      }
      free := if data.Length < SlotAt(count) + live then 0 else data.Length - SlotAt(count) - live;
    }

    /** Stores a payload in the first tombstone, or in a new slot. When the bytes between directory and
        payloads do not suffice but those of the holes would, the page is compacted first. There is no
        space exactly when all the reclaimable bytes together are too few, and then nothing changed. */
    method Insert(payload: Bytes) returns (r: SlotResult<nat>)
      requires Valid()
      modifies this, data
      ensures Valid()
      ensures |payload| > MAX_U16 ==> r == Err(PayloadTooLarge)
      ensures payload == [] ==> r == Err(Corrupt)
      ensures payload != [] && |payload| <= MAX_U16 ==>
                && (r.Ok? <==> |payload| + (if HasTombstone(old(slots)) then 0 else SLOT_LEN) <= ReclaimableFree(data.Length, old(slots)))
                && (r.Err? ==> r.error == NoSpace)
      ensures r.Err? ==> slots == old(slots) && data[..] == old(data[..])
      ensures r.Ok? ==> r.value == FirstTombstone(old(slots)) && slots == Inserted(old(slots), r.value, payload)
      ensures r.Ok? ==>
                && |slots| == (if r.value < |old(slots)| then |old(slots)| else |old(slots)| + 1) && slots[r.value] == Live(false, payload)
                && (r.value < |old(slots)| ==> old(slots)[r.value].Deleted?) && (forall j :: 0 <= j < r.value ==> old(slots)[j].Live?)
                && (forall j :: 0 <= j < |old(slots)| && j != r.value ==> slots[j] == old(slots)[j])
      ensures r.Ok? ==>
                var needed := |payload| + if r.value < |old(slots)| then 0 else 6;
                ContiguousFree(data[..]) + needed
                == if old(ContiguousFree(data[..])) >= needed then old(ContiguousFree(data[..])) else ReclaimableFree(data.Length, old(slots))
    {
      hide Holds, LiveBytes, HasTombstone, FirstTombstone, Inserted;
      if |payload| > MAX_U16 { return Err(PayloadTooLarge); }
      if |payload| == 0 { return Err(Corrupt); }
      var reuse, tombstone := FindTombstone();
      TombstoneFound(slots, reuse, tombstone);
      ghost var slots0 := slots;
      var extra := if reuse then 0 else SLOT_LEN;
      ReclaimableBound(data[..], slots);
      if ContiguousFree(data[..]) < |payload| + extra {
        var reclaimable := Reclaimable();
        if reclaimable >= |payload| + extra { Compact(); }
        if ContiguousFree(data[..]) < |payload| + extra { return Err(NoSpace); }
      }
      var slot := if reuse then tombstone else U16At(data[..], 0);
      SlotCountIs(data[..], slots);
      InsertAtSlot(slot, payload);
      InsertedIs(slots0, slot, payload);
      return Ok(slot);
    }

    /** The writes of an insert, the space having been found. */
    method InsertAtSlot(slot: nat, payload: Bytes)
      requires Valid() && slot <= |slots| && (slot < |slots| ==> slots[slot].Deleted?) && payload != []
      requires |payload| + SlotAt(CountAfter(slots, slot)) <= U16At(data[..], 2)
      modifies this, data
      ensures Valid() && slots == Inserted(old(slots), slot, payload)
      ensures ContiguousFree(data[..]) == old(ContiguousFree(data[..])) - |payload| - if slot < |old(slots)| then 0 else 6
    {
      hide Holds, WithPayload, Splice;
      ghost var p := data[..];
      SlotCountIs(p, slots);
      WritePayload(slot, payload);
      PayloadPlaced(p, slot, CountAfter(slots, slot), payload, data[..]);
      InsertHolds(p, slots, slot, payload, data[..]);
      slots := Inserted(slots, slot, payload);
    }

    method WritePayload(slot: nat, payload: Bytes)
      requires Valid() && slot <= |slots| && payload != []
      requires |payload| + SlotAt(CountAfter(slots, slot)) <= U16At(data[..], 2)
      modifies data
      ensures PlaceFits(old(data[..]), slot, CountAfter(slots, slot), payload)
      ensures data[..] == WithPayload(old(data[..]), slot, CountAfter(slots, slot), payload)
    {
      hide Holds, Splice, ToLE, SlotBytes;
      ghost var p := data[..];
      SlotCountIs(p, slots);
      if slot == U16At(data[..], 0) { WriteU16(data, 0, slot + 1); }
      SetCount(p, data[..], slots, slot);
      var end := U16At(data[..], 2) - |payload|;
      WriteBytes(data, end, payload);
      WriteU16(data, 2, end);
      WriteSlot(data, slot, end, |payload|, FLAG_LIVE);
    }

    method Get(slot: nat) returns (r: SlotResult<Bytes>)
      requires Valid()
      ensures r == if slot >= |slots| then Err(InvalidSlot)
                   else if slots[slot].Deleted? then Err(SlotDeleted) else Ok(slots[slot].payload)
    {
      var p := data[..];
      if slot >= U16At(p, 0) { return Err(InvalidSlot); }
      assert SlotHolds(p, slot, slots[slot], U16At(p, 2));
      var flags := U16At(p, SlotAt(slot) + 4);
      if flags == FLAG_TOMBSTONE { return Err(SlotDeleted); }
      var off, len := U16At(p, SlotAt(slot)), U16At(p, SlotAt(slot) + 2);
      return Ok(data[off..off + len]);
    }

    /** Leaves a tombstone; the payload's bytes become a hole. */
    method Delete(slot: nat) returns (r: SlotResult<()>)
      requires Valid()
      modifies this, data
      ensures Valid()
      ensures r == if slot >= |old(slots)| then Err(InvalidSlot)
                   else if old(slots)[slot].Deleted? then Err(SlotDeleted) else Ok(())
      ensures r.Ok? ==> slots == old(slots)[slot := Deleted]
      ensures r.Ok? ==> forall i :: 0 <= i < data.Length && (i < 8 + 6 * slot || 14 + 6 * slot <= i) ==> data[i] == old(data[..])[i]
      ensures r.Err? ==> slots == old(slots) && data[..] == old(data[..])
    {
      ghost var p := data[..];
      if slot >= U16At(data[..], 0) { return Err(InvalidSlot); }
      assert SlotHolds(p, slot, slots[slot], U16At(p, 2));
      if U16At(data[..], SlotAt(slot) + 4) == FLAG_TOMBSTONE { return Err(SlotDeleted); }
      WriteSlot(data, slot, 0, 0, FLAG_TOMBSTONE);
      DeleteHolds(p, slots, slot, data[..]);
      EntryOnly(p, slot, SlotBytes(0, 0, FLAG_TOMBSTONE), data[..]);
      assert forall i :: 0 <= i < data.Length ==> data[..][i] == data[i];
      slots := slots[slot := Deleted];
      return Ok(());
    }

    /** Marks a live slot as holding an overflow descriptor, or not. */
    method SetOverflow(slot: nat, overflow: bool) returns (r: SlotResult<()>)
      requires Valid()
      modifies this, data
      ensures Valid()
      ensures r == if slot >= |old(slots)| then Err(InvalidSlot)
                   else if old(slots)[slot].Deleted? then Err(SlotDeleted) else Ok(())
      ensures r.Ok? ==> slots == old(slots)[slot := Live(overflow, old(slots)[slot].payload)]
      ensures r.Ok? ==> forall i :: 0 <= i < data.Length && (i < 8 + 6 * slot || 14 + 6 * slot <= i) ==> data[i] == old(data[..])[i]
      ensures r.Err? ==> slots == old(slots) && data[..] == old(data[..])
    {
      hide Holds;
      ghost var p := data[..];
      SlotCountIs(p, slots);
      if slot >= U16At(data[..], 0) { return Err(InvalidSlot); }
      SlotIs(p, slots, slot);
      if U16At(data[..], SlotAt(slot) + 4) == FLAG_TOMBSTONE { return Err(SlotDeleted); }
      WriteSlot(data, slot, U16At(data[..], SlotAt(slot)), U16At(data[..], SlotAt(slot) + 2),
                if overflow then FLAG_OVERFLOW else FLAG_LIVE);
      FlagsHold(p, slots, slot, overflow, data[..]);
      EntryOnly(p, slot, SlotBytes(U16At(p, SlotAt(slot)), U16At(p, SlotAt(slot) + 2), if overflow then FLAG_OVERFLOW else FLAG_LIVE), data[..]);
      assert forall i :: 0 <= i < data.Length ==> data[..][i] == data[i];
      slots := slots[slot := Live(overflow, slots[slot].payload)];
      return Ok(());
    }

    /** Packs the live payloads against the end of the page; every slot keeps its number and payload. */
    method Compact()
      requires Valid()
      modifies this, data
      ensures Valid() && slots == old(slots)
      ensures ContiguousFree(data[..]) == ReclaimableFree(data.Length, slots)
      ensures forall j {:trigger slots[j]} :: 0 <= j < |slots| && slots[j].Live? ==>
                8 + 6 * j + 2 <= data.Length && U16At(data[..], 8 + 6 * j) + LiveBytes(slots[..j + 1]) == data.Length
    {
      hide InPlace, Holds, PartlyCompacted, AllPacked, LiveBytes, Splice, SlotBytes, ContiguousFree, ReclaimableFree, ToLE;
      ghost var p := data[..];
      ReclaimableBound(p, slots);
      var packed, cursor := Pack();
      SlotCountIs(p, slots);
      var count := U16At(data[..], 0);
      WriteU16(data, 2, cursor);
      ghost var p1 := data[..];
      var dirEnd := SlotAt(count);
      forall i | dirEnd <= i < data.Length { data[i] := 0; }
      PrefixSame(p1, data[..], dirEnd);
      CompactStarts(p, slots, p1, data[..], packed);
      for k := 0 to |packed|
        invariant slots == old(slots) && PartlyCompacted(data[..], slots, packed, k)
      {
        ghost var before := data[..];
        NextPacked(before, slots, packed, k);
        WriteBytes(data, packed[k].offset, packed[k].bytes);
        WriteSlot(data, packed[k].slot, packed[k].offset, |packed[k].bytes|, packed[k].flags);
        CompactStep(before, slots, packed, k, data[..]);
      }
      CompactDone(data[..], slots, packed);
      forall j | 0 <= j < |slots| && slots[j].Live?
        ensures 8 + 6 * j + 2 <= data.Length && U16At(data[..], 8 + 6 * j) + LiveBytes(slots[..j + 1]) == data.Length
      {
        InPlaceIs(data[..], slots, j);
      }
    }

    /** The live slots with copies of their payloads, and where the payloads will begin. */
    method Pack() returns (packed: seq<Packed>, cursor: nat)
      requires Valid()
      ensures AllPacked(data.Length, slots, packed, |slots|) && cursor == data.Length - LiveBytes(slots)
      ensures forall k :: 0 <= k < |packed| ==> |packed[k].bytes| > 0
    {
      hide Holds, LiveBytes, AllPacked;
      var p := data[..];
      packed := [];
      cursor := data.Length;
      NothingPacked(data.Length, slots);
      ReclaimableBound(p, slots);
      LiveBytesStart(slots);
      for i := 0 to U16At(p, 0)
        invariant AllPacked(data.Length, slots, packed, i) && cursor == data.Length - LiveBytes(slots[..i])
        invariant forall k :: 0 <= k < |packed| ==> |packed[k].bytes| > 0
      {
        SlotIs(p, slots, i);
        LiveBytesStep(slots, i);
        var flags := U16At(p, SlotAt(i) + 4);
        if flags != FLAG_TOMBSTONE {
          var off, len := U16At(p, SlotAt(i)), U16At(p, SlotAt(i) + 2);
          cursor := cursor - len;
          PackMore(data.Length, slots, packed, i, Packed(i, cursor, flags, p[off..off + len]));
          packed := packed + [Packed(i, cursor, flags, p[off..off + len])];
        } else {
          PackNone(data.Length, slots, packed, i);
        }
      }
      assert slots[..|slots|] == slots;
    }
  }

  /** Writing a directory entry changes its six bytes and no others. */
  lemma EntryOnly(p: Bytes, i: nat, entry: Bytes, r: Bytes)
    requires SlotAt(i) + |entry| <= |p| && |entry| == SLOT_LEN && r == Splice(p, SlotAt(i), entry)
    ensures forall k :: 0 <= k < |p| && (k < 8 + 6 * i || 14 + 6 * i <= k) ==> r[k] == p[k]
  {
    forall k | 0 <= k < |p| && (k < 8 + 6 * i || 14 + 6 * i <= k) ensures r[k] == p[k] { ByteElsewhere(p, SlotAt(i), entry, k); }
  }

  lemma InPlaceIs(r: Bytes, slots: seq<Slot>, j: nat)
    requires j < |slots| && slots[j].Live? && InPlace(r, slots, j)
    ensures 8 + 6 * j + 2 <= |r| && U16At(r, 8 + 6 * j) + LiveBytes(slots[..j + 1]) == |r|
  {
    LiveBytesStep(slots, j);
  }

  lemma InsertedIs(slots: seq<Slot>, i: nat, payload: Bytes)
    requires i <= |slots|
    ensures var after := Inserted(slots, i, payload);
            && |after| == (if i < |slots| then |slots| else |slots| + 1) && after[i] == Live(false, payload)
            && forall j :: 0 <= j < |slots| && j != i ==> after[j] == slots[j]
  {
  }

  lemma SlotIs(p: Bytes, slots: seq<Slot>, i: nat)
    requires Holds(p, slots) && i < |slots|
    ensures SlotHolds(p, i, slots[i], U16At(p, 2))
  {
  }

  lemma SlotCountIs(p: Bytes, slots: seq<Slot>)
    requires Holds(p, slots)
    ensures 4 <= |p| <= MAX_U16 && U16At(p, 0) == |slots| && SlotAt(|slots|) <= U16At(p, 2) <= |p|
  {
  }

  lemma SlotFlags(p: Bytes, slots: seq<Slot>, i: nat)
    requires Holds(p, slots) && i < |slots|
    ensures SlotAt(i) + SLOT_LEN <= |p|
    ensures (U16At(p, SlotAt(i) + 4) == FLAG_LIVE || U16At(p, SlotAt(i) + 4) == FLAG_OVERFLOW) <==> slots[i].Live?
    ensures slots[i].Live? ==> U16At(p, SlotAt(i) + 2) == |slots[i].payload|
  {
    hide Apart, FromLE;
    assert SlotHolds(p, i, slots[i], U16At(p, 2));
  }

  lemma LiveBytesStart(slots: seq<Slot>)
    ensures slots[..0] == [] && LiveBytes(slots[..0]) == 0 && slots[..|slots|] == slots
  {
  }

  lemma ReclaimableBound(p: Bytes, slots: seq<Slot>)
    requires Holds(p, slots)
    ensures 4 <= |p| && ContiguousFree(p) <= ReclaimableFree(|p|, slots) && SlotAt(|slots|) + LiveBytes(slots) <= |p|
    ensures U16At(p, 0) == |slots| && SlotAt(|slots|) <= U16At(p, 2)
  {
    ReclaimableIsMore(p, slots);
  }

  predicate HasTombstone(slots: seq<Slot>) {
    exists i :: 0 <= i < |slots| && slots[i].Deleted?
  }

  /** The first deleted slot, or the one after the last. */
  function FirstTombstone(slots: seq<Slot>): (i: nat)
    ensures i <= |slots|
  {
    if slots == [] || slots[0].Deleted? then 0 else 1 + FirstTombstone(slots[1..])
  }

  lemma {:induction false} FirstTombstoneIs(slots: seq<Slot>, i: nat)
    requires i <= |slots| && (forall j :: 0 <= j < i ==> slots[j].Live?) && (i < |slots| ==> slots[i].Deleted?)
    ensures FirstTombstone(slots) == i
    decreases |slots|
  {
    if i > 0 { FirstTombstoneIs(slots[1..], i - 1); }
  }

  lemma TombstoneFound(slots: seq<Slot>, found: bool, i: nat)
    requires found ==> i < |slots| && slots[i].Deleted? && forall j :: 0 <= j < i ==> slots[j].Live?
    requires !found ==> forall j :: 0 <= j < |slots| ==> slots[j].Live?
    ensures HasTombstone(slots) <==> found
    ensures FirstTombstone(slots) == if found then i else |slots|
  {
    FirstTombstoneIs(slots, if found then i else |slots|);
  }

  lemma CountUnchanged(p: Bytes, slots: seq<Slot>)
    requires Holds(p, slots)
    ensures Splice(p, 0, ToLE(|slots|, 2)) == p
  {
    hide FromLE, ToLE, SlotHolds, Apart;
    WidthValues();
    FromToLE(|slots|, 2);
    FromLEInjective(p[0..2], ToLE(|slots|, 2));
  }

  lemma SetCount(p: Bytes, p1: Bytes, slots: seq<Slot>, slot: nat)
    requires Holds(p, slots) && slot <= |slots|
    requires p1 == if slot == |slots| then Splice(p, 0, ToLE(slot + 1, 2)) else p
    ensures p1 == Splice(p, 0, ToLE(CountAfter(slots, slot), 2)) && U16At(p1, 2) == U16At(p, 2)
  {
    CountUnchanged(p, slots);
    SpliceElsewhere(p, 0, ToLE(CountAfter(slots, slot), 2), 2, 4);
  }

  lemma PackMore(size: nat, slots: seq<Slot>, packed: seq<Packed>, i: nat, k: Packed)
    requires AllPacked(size, slots, packed, i) && i < |slots| && k.slot == i && IsPacked(size, slots, k)
    ensures AllPacked(size, slots, packed + [k], i + 1)
  {
    var packed' := packed + [k];
    forall j | 0 <= j < i + 1 && slots[j].Live? ensures exists l :: 0 <= l < |packed'| && packed'[l].slot == j {
      if j < i {
        var l :| 0 <= l < |packed| && packed[l].slot == j;
        assert packed'[l].slot == j;
      } else {
        assert packed'[|packed|].slot == j;
      }
    }
  }

  lemma NothingPacked(size: nat, slots: seq<Slot>)
    ensures AllPacked(size, slots, [], 0)
  {
  }

  lemma PackNone(size: nat, slots: seq<Slot>, packed: seq<Packed>, i: nat)
    requires AllPacked(size, slots, packed, i) && i < |slots| && slots[i].Deleted?
    ensures AllPacked(size, slots, packed, i + 1)
  {
  }

  lemma NextPacked(p: Bytes, slots: seq<Slot>, packed: seq<Packed>, k: nat)
    requires PartlyCompacted(p, slots, packed, k) && k < |packed| && AllPacked(|p|, slots, packed, |slots|)
    ensures packed[k].offset + |packed[k].bytes| <= |p| && SlotAt(packed[k].slot) + SLOT_LEN <= packed[k].offset
  {
    PackedFits(|p|, slots, packed[k]);
  }

  lemma TombstoneAnywhere(p: Bytes, j: nat, from: nat)
    requires SlotHolds(p, j, Deleted, from)
    ensures SlotHolds(p, j, Deleted, 0) && SlotAt(j) + SLOT_LEN <= |p|
  {
  }

  lemma EndSet(p: Bytes, cursor: nat, d: nat, p1: Bytes)
    requires 4 <= d <= |p| && cursor <= MAX_U16 && p1 == Splice(p, 2, ToLE(cursor, 2))
    ensures U16At(p1, 0) == U16At(p, 0) && U16At(p1, 2) == cursor && SameRange(p, p1, 4, d)
  {
    U16RoundTrip(p, 2, cursor);
    SpliceElsewhere(p, 2, ToLE(cursor, 2), 0, 2);
    SpliceElsewhere(p, 2, ToLE(cursor, 2), 4, d);
  }

  lemma PrefixSame(a: Bytes, b: Bytes, d: nat)
    requires d <= |a| == |b| && forall i :: 0 <= i < d ==> b[i] == a[i]
    ensures SameRange(a, b, 0, d)
  {
  }

  /** With the end of the free space set and the payloads cleared, the tombstones are as they were. */
  lemma CompactStarts(p: Bytes, slots: seq<Slot>, p1: Bytes, r: Bytes, packed: seq<Packed>)
    requires Holds(p, slots) && SlotAt(|slots|) + LiveBytes(slots) <= |p|
    requires p1 == Splice(p, 2, ToLE(|p| - LiveBytes(slots), 2)) && |r| == |p|
    requires SameRange(p1, r, 0, SlotAt(|slots|))
    ensures PartlyCompacted(r, slots, packed, 0)
  {
    hide Splice, ToLE, LiveBytes, SameRange, Holds, SlotHolds;
    SlotCountIs(p, slots);
    var d := SlotAt(|slots|);
    EndSet(p, |p| - LiveBytes(slots), d, p1);
    U16Kept(p1, r, 0, d, 0);
    U16Kept(p1, r, 0, d, 2);
    forall j | 0 <= j < |slots| && slots[j].Deleted? ensures SlotHolds(r, j, slots[j], 0) {
      TombstoneKept(p, slots, p1, r, j);
    }
  }

  lemma TombstoneKept(p: Bytes, slots: seq<Slot>, p1: Bytes, r: Bytes, j: nat)
    requires Holds(p, slots) && j < |slots| && slots[j].Deleted? && |p| == |p1| == |r| && SlotAt(|slots|) <= |p|
    requires SameRange(p, p1, 4, SlotAt(|slots|)) && SameRange(p1, r, 0, SlotAt(|slots|))
    ensures SlotHolds(r, j, Deleted, 0)
  {
    hide SameRange, Holds, SlotHolds;
    var d := SlotAt(|slots|);
    SlotIs(p, slots, j);
    TombstoneAnywhere(p, j, U16At(p, 2));
    SameSub(p, p1, 4, d, SlotAt(j), SlotAt(j) + SLOT_LEN);
    SameSub(p1, r, 0, d, SlotAt(j), SlotAt(j) + SLOT_LEN);
    KeptExactly(p, p1, j, Deleted, 0);
    KeptExactly(p1, r, j, Deleted, 0);
  }
}
