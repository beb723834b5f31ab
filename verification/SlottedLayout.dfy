/** A slotted page as bytes: a header, a directory of slots growing up, payloads packed from the end down.
    Deleted slots stay as tombstones, so that slot numbers are stable. */
module SlottedLayout {
  import opened Keys
  import opened LittleEndian
  import opened PageBytes

  const HEADER_LEN: nat := 8
  const SLOT_LEN: nat := 6
  const FLAG_LIVE: nat := 0
  const FLAG_TOMBSTONE: nat := 1
  const FLAG_OVERFLOW: nat := 2
  const MAX_U16: nat := 65535

  datatype Slot = Deleted | Live(overflow: bool, payload: Bytes)

  function SlotAt(i: nat): nat {
    8 + 6 * i
  }

  predicate SlotHolds(p: Bytes, i: nat, s: Slot, from: nat) {
    && SlotAt(i) + SLOT_LEN <= |p|
    && var off, len, flags := U16At(p, SlotAt(i)), U16At(p, SlotAt(i) + 2), U16At(p, SlotAt(i) + 4);
       match s
       case Deleted => off == 0 && len == 0 && flags == FLAG_TOMBSTONE
       case Live(overflow, payload) =>
         && flags == (if overflow then FLAG_OVERFLOW else FLAG_LIVE)
         && 0 < len == |payload| && from <= off && off + len <= |p| && p[off..off + len] == payload
  }

  /** The payloads of two slots do not overlap. */
  predicate Apart(p: Bytes, i: nat, j: nat)
    requires SlotAt(i) + SLOT_LEN <= |p| && SlotAt(j) + SLOT_LEN <= |p|
  {
    || U16At(p, SlotAt(i)) + U16At(p, SlotAt(i) + 2) <= U16At(p, SlotAt(j))
    || U16At(p, SlotAt(j)) + U16At(p, SlotAt(j) + 2) <= U16At(p, SlotAt(i))
  }

  /** The page holds the slots: the directory below the payloads, every slot as it should be, no overlaps. */
  ghost predicate Holds(p: Bytes, slots: seq<Slot>) {
    && 4 <= |p| <= MAX_U16 && U16At(p, 0) == |slots| && SlotAt(|slots|) <= U16At(p, 2) <= |p|
    && (forall i {:trigger slots[i]} :: 0 <= i < |slots| ==> SlotHolds(p, i, slots[i], U16At(p, 2)))
    && (forall i, j {:trigger Apart(p, i, j)} :: 0 <= i < j < |slots| && slots[i].Live? && slots[j].Live? ==> Apart(p, i, j))
  }

  // ── Space ──

  function LiveBytes(slots: seq<Slot>): nat {
    if slots == [] then 0
    else LiveBytes(slots[..|slots| - 1]) + if slots[|slots| - 1].Live? then |slots[|slots| - 1].payload| else 0
  }

  /** Contiguous unused bytes between the directory and the payloads. */
  function ContiguousFree(p: Bytes): nat
    requires |p| >= 4
  {
    if U16At(p, 2) < SlotAt(U16At(p, 0)) then 0 else U16At(p, 2) - SlotAt(U16At(p, 0))
  }

  /** Unused bytes with the holes that deleted payloads left. */
  function ReclaimableFree(size: nat, slots: seq<Slot>): nat {
    if SlotAt(|slots|) + LiveBytes(slots) > size then 0 else size - SlotAt(|slots|) - LiveBytes(slots)
  }

  ghost function Span(a: nat, b: nat): set<nat> {
    if a < b then Span(a, b - 1) + {b - 1} else {}
  }

  lemma {:induction false} SpanIs(a: nat, b: nat)
    requires a <= b
    ensures |Span(a, b)| == b - a
    ensures forall k {:trigger k in Span(a, b)} :: k in Span(a, b) <==> a <= k < b
    decreases b - a
  {
    if a < b { SpanIs(a, b - 1); }
  }

  /** The bytes of a live slot's payload. */
  ghost function PayloadSpan(p: Bytes, slots: seq<Slot>, i: nat): set<nat>
    requires i < |slots| && SlotAt(|slots|) <= |p|
  {
    if slots[i].Live? then Span(U16At(p, SlotAt(i)), U16At(p, SlotAt(i)) + U16At(p, SlotAt(i) + 2)) else {}
  }

  /** The bytes of the payloads of the first n slots. */
  ghost function Occupied(p: Bytes, slots: seq<Slot>, n: nat): set<nat>
    requires n <= |slots| && SlotAt(|slots|) <= |p|
  {
    if n == 0 then {} else Occupied(p, slots, n - 1) + PayloadSpan(p, slots, n - 1)
  }

  /** Where a page that holds slots keeps a payload. */
  lemma SlotPlace(p: Bytes, slots: seq<Slot>, i: nat)
    requires Holds(p, slots) && i < |slots|
    ensures SlotAt(i) + SLOT_LEN <= |p| && U16At(p, 2) <= |p|
    ensures slots[i].Live? ==>
              && U16At(p, 2) <= U16At(p, SlotAt(i))
              && U16At(p, SlotAt(i)) + U16At(p, SlotAt(i) + 2) <= |p|
              && U16At(p, SlotAt(i) + 2) == |slots[i].payload|
  {
    hide Apart, FromLE;
    assert SlotHolds(p, i, slots[i], U16At(p, 2));
  }

  lemma PayloadIn(p: Bytes, slots: seq<Slot>, i: nat)
    requires Holds(p, slots) && i < |slots|
    ensures |PayloadSpan(p, slots, i)| == if slots[i].Live? then |slots[i].payload| else 0
    ensures PayloadSpan(p, slots, i) <= Span(U16At(p, 2), |p|)
  {
    hide Span, Holds, U16At;
    SlotPlace(p, slots, i);
    if slots[i].Live? { SpanIs(U16At(p, SlotAt(i)), U16At(p, SlotAt(i)) + U16At(p, SlotAt(i) + 2)); }
    SpanIs(U16At(p, 2), |p|);
  }

  lemma PayloadsApart(p: Bytes, slots: seq<Slot>, i: nat, j: nat)
    requires Holds(p, slots) && i < j < |slots|
    ensures PayloadSpan(p, slots, i) !! PayloadSpan(p, slots, j)
  {
    hide Span, SlotHolds;
    if slots[i].Live? && slots[j].Live? {
      assert Apart(p, i, j);
      SpanIs(U16At(p, SlotAt(i)), U16At(p, SlotAt(i)) + U16At(p, SlotAt(i) + 2));
      SpanIs(U16At(p, SlotAt(j)), U16At(p, SlotAt(j)) + U16At(p, SlotAt(j) + 2));
    }
  }

  lemma {:induction false} OccupiedApart(p: Bytes, slots: seq<Slot>, n: nat, i: nat)
    requires Holds(p, slots) && n <= i < |slots|
    ensures Occupied(p, slots, n) !! PayloadSpan(p, slots, i)
  {
    hide Holds;
    if n > 0 {
      OccupiedApart(p, slots, n - 1, i);
      PayloadsApart(p, slots, n - 1, i);
    }
  }

  /** Payloads that do not overlap take up as many bytes as they are long. */
  lemma {:induction false} OccupiedSize(p: Bytes, slots: seq<Slot>, n: nat)
    requires Holds(p, slots) && n <= |slots|
    ensures |Occupied(p, slots, n)| == LiveBytes(slots[..n])
    ensures Occupied(p, slots, n) <= Span(U16At(p, 2), |p|)
  {
    if n > 0 {
      OccupiedSize(p, slots, n - 1);
      OccupiedApart(p, slots, n - 1, n - 1);
      PayloadIn(p, slots, n - 1);
      hide Holds, PayloadSpan, Span;
      assert slots[..n][..n - 1] == slots[..n - 1];
    }
  }

  /** There is never less to reclaim than is free already. */
  lemma ReclaimableIsMore(p: Bytes, slots: seq<Slot>)
    requires Holds(p, slots)
    ensures ContiguousFree(p) <= ReclaimableFree(|p|, slots)
    ensures SlotAt(|slots|) + LiveBytes(slots) <= |p|
  {
    OccupiedSize(p, slots, |slots|);
    assert slots[..|slots|] == slots;
    SpanIs(U16At(p, 2), |p|);
    SubsetSize(Occupied(p, slots, |slots|), Span(U16At(p, 2), |p|));
  }

  lemma SubsetSize(a: set<nat>, b: set<nat>)
    requires a <= b
    ensures |a| <= |b|
  {
    assert |b - a| == |b| - |a|;
  }

  // ── Writing a slot ──

  function SlotBytes(off: nat, len: nat, flags: nat): (b: Bytes)
    ensures |b| == SLOT_LEN
  {
    ToLE(off, 2) + ToLE(len, 2) + ToLE(flags, 2)
  }

  lemma SlotFields(p: Bytes, s: nat, off: nat, len: nat, flags: nat)
    requires s + SLOT_LEN <= |p| && p[s..s + SLOT_LEN] == SlotBytes(off, len, flags)
    requires off <= MAX_U16 && len <= MAX_U16 && flags <= MAX_U16
    ensures U16At(p, s) == off && U16At(p, s + 2) == len && U16At(p, s + 4) == flags
  {
    hide ToLE;
    var f := SlotBytes(off, len, flags);
    FourParts(ToLE(off, 2), ToLE(len, 2), ToLE(flags, 2), []);
    assert f + [] == f;
    PartOfPart(p, s, f, 0, 2);
    PartOfPart(p, s, f, 2, 4);
    PartOfPart(p, s, f, 4, 6);
    U16Is(p, s, off);
    U16Is(p, s + 2, len);
    U16Is(p, s + 4, flags);
  }

  /** A slot is as it was when neither its directory entry nor its payload is written. */
  lemma SlotKept(p: Bytes, p': Bytes, i: nat, s: Slot, from: nat, from': nat)
    requires SlotHolds(p, i, s, from) && |p'| == |p| && from' <= from <= |p|
    requires SameRange(p, p', SlotAt(i), SlotAt(i) + SLOT_LEN) && SameRange(p, p', from, |p|)
    ensures SlotHolds(p', i, s, from')
    ensures U16At(p', SlotAt(i)) == U16At(p, SlotAt(i)) && U16At(p', SlotAt(i) + 2) == U16At(p, SlotAt(i) + 2)
  {
    var d := SlotAt(i);
    U16Kept(p, p', d, d + 6, d);
    U16Kept(p, p', d, d + 6, d + 2);
    U16Kept(p, p', d, d + 6, d + 4);
    if s.Live? { SubRange(p, p', from, |p|, U16At(p, d), U16At(p, d) + U16At(p, d + 2)); }
  }

  method WriteSlot(data: array<byte>, i: nat, off: nat, len: nat, flags: nat)
    requires SlotAt(i) + SLOT_LEN <= data.Length
    modifies data
    ensures data[..] == Splice(old(data[..]), SlotAt(i), SlotBytes(off, len, flags))
  {
    hide Splice, ToLE;
    ghost var p0 := data[..];
    var base := SlotAt(i);
    WriteU16(data, base, off);
    WriteU16(data, base + 2, len);
    WriteU16(data, base + 4, flags);
    SpliceAdjacent(p0, base, ToLE(off, 2), ToLE(len, 2));
    SpliceAdjacent(p0, base, ToLE(off, 2) + ToLE(len, 2), ToLE(flags, 2));
  }
}
