/** Slotted pages byte by byte, and their space in numbers. */
module SlottedBytes {
  import opened Keys
  import opened LittleEndian
  import opened PageBytes
  import opened SlottedLayout
  import opened SlottedPage
  import opened SlottedCheck

  /** A page begins with the number of slots and where the payloads begin, */
  lemma PageHeader(p: Bytes, slots: seq<Slot>)
    requires Holds(p, slots)
    ensures |p| >= 4 && Word(p, 0) == |slots|
    ensures 8 + 6 * |slots| <= Word(p, 2) <= |p|
  {
    hide Word, U16At, SlotHolds, Apart;
    NumberAt(p, 0);
    NumberAt(p, 2);
  }

  /** and has for each slot six bytes: the offset and the length of the payload, and 0, or 2 for an overflow descriptor; or,
      when it was deleted, 0, 0 and 1. */
  lemma PageSlot(p: Bytes, slots: seq<Slot>, i: nat)
    requires Holds(p, slots) && i < |slots|
    ensures 14 + 6 * i <= |p| && |p| >= 4
    ensures var off, len, flags := Word(p, 8 + 6 * i), Word(p, 10 + 6 * i),
                                   Word(p, 12 + 6 * i);
            match slots[i]
            case Deleted => off == 0 && len == 0 && flags == 1
            case Live(overflow, payload) =>
              && flags == (if overflow then 2 else 0) && 0 < len && Word(p, 2) <= off
              && off + len <= |p| && p[off..off + len] == payload
  {
    hide Word, U16At, Holds;
    SlotIs(p, slots, i);
    SlotCountIs(p, slots);
    NumberAt(p, 2);
    NumberAt(p, 8 + 6 * i);
    NumberAt(p, 10 + 6 * i);
    NumberAt(p, 12 + 6 * i);
  }

  /** The bytes of the slots' payloads, the free bytes, and those that compaction would free. */
  lemma Space(p: Bytes, slots: seq<Slot>, s: Slot)
    requires Holds(p, slots)
    ensures LiveBytes([]) == 0 && LiveBytes(slots + [s]) == LiveBytes(slots) + if s.Live? then |s.payload| else 0
    ensures ContiguousFree(p) == Word(p, 2) - 8 - 6 * |slots|
    ensures ReclaimableFree(|p|, slots) == |p| - 8 - 6 * |slots| - LiveBytes(slots)
  {
    assert (slots + [s])[..|slots|] == slots;
    ReclaimableIsMore(p, slots);
    hide Word, U16At, SlotHolds, Apart, LiveBytes;
    NumberAt(p, 0);
    NumberAt(p, 2);
  }

  /** The directory ends below the payloads, every entry is as it should be, and no two payloads have a byte in common. */
  predicate Accepted(p: Bytes)
    requires |p| >= 4
  {
    && 8 + 6 * Count(p) <= Start(p) <= |p|
    && (forall i {:trigger EntryAccepted(p, i)} :: 0 <= i < Count(p) ==> EntryAccepted(p, i))
    && (forall i, j {:trigger EntriesApart(p, i, j)} :: 0 <= i < j < Count(p) ==> EntriesApart(p, i, j))
  }

  /** Exactly such pages are accepted. */
  lemma AcceptedPages(p: Bytes)
    requires |p| == 4096 || |p| == 8192
    ensures WellFormed(p) <==> Accepted(p)
  {
    if WellFormed(p) { WellFormedAccepted(p); }
    if Accepted(p) { AcceptedWellFormed(p); }
  }

  lemma WellFormedAccepted(p: Bytes)
    requires WellFormed(p)
    ensures Accepted(p)
  {
    hide Word, U16At, SlotValid, EntryAccepted, EntriesApart, Apart, IsLive;
    NumberAt(p, 0);
    NumberAt(p, 2);
    forall i | 0 <= i < Count(p) ensures EntryAccepted(p, i) {
      assert SlotValid(p, i);
      SameEntry(p, i);
    }
    forall i, j | 0 <= i < j < Count(p) ensures EntriesApart(p, i, j) { SamePair(p, i, j); }
  }

  lemma AcceptedWellFormed(p: Bytes)
    requires 4 <= |p| <= MAX_U16 && Accepted(p)
    ensures WellFormed(p)
  {
    hide Word, U16At, SlotValid, EntryAccepted, EntriesApart, Apart, IsLive;
    NumberAt(p, 0);
    NumberAt(p, 2);
    forall i | 0 <= i < Count(p) ensures SlotValid(p, i) {
      assert EntryAccepted(p, i);
      SameEntry(p, i);
    }
    forall i, j | 0 <= i < j < Count(p) && IsLive(p, i) && IsLive(p, j) ensures Apart(p, i, j) {
      assert EntriesApart(p, i, j);
      SamePair(p, i, j);
    }
  }

  lemma SameEntry(p: Bytes, i: nat)
    requires 14 + 6 * i <= |p|
    ensures SlotValid(p, i) <==> EntryAccepted(p, i)
  {
    hide Word, U16At;
    NumberAt(p, 2);
    FieldsOf(p, i);
  }

  lemma SamePair(p: Bytes, i: nat, j: nat)
    requires 14 + 6 * i <= |p| && 14 + 6 * j <= |p|
    ensures EntriesApart(p, i, j) <==> (IsLive(p, i) && IsLive(p, j) ==> Apart(p, i, j))
  {
    FieldsOf(p, i);
    FieldsOf(p, j);
  }

  function Count(p: Bytes): nat
    requires |p| >= 4
  {
    Word(p, 0)
  }

  function Start(p: Bytes): nat
    requires |p| >= 4
  {
    Word(p, 2)
  }

  function Offset(p: Bytes, i: nat): nat
    requires 14 + 6 * i <= |p|
  {
    Word(p, 8 + 6 * i)
  }

  function Length(p: Bytes, i: nat): nat
    requires 14 + 6 * i <= |p|
  {
    Word(p, 10 + 6 * i)
  }

  function Flags(p: Bytes, i: nat): nat
    requires 14 + 6 * i <= |p|
  {
    Word(p, 12 + 6 * i)
  }

  /** A tombstone with nothing, or a payload that is not empty and within the page. */
  predicate EntryAccepted(p: Bytes, i: nat)
    requires 14 + 6 * i <= |p|
  {
    if Flags(p, i) == 1 then Offset(p, i) == 0 && Length(p, i) == 0
    else (Flags(p, i) == 0 || Flags(p, i) == 2) && Length(p, i) > 0 && Start(p) <= Offset(p, i) && Offset(p, i) + Length(p, i) <= |p|
  }

  /** Two payloads, of slots that are no tombstones, have no byte in common. */
  predicate EntriesApart(p: Bytes, i: nat, j: nat)
    requires 14 + 6 * i <= |p| && 14 + 6 * j <= |p|
  {
    Flags(p, i) != 1 && Flags(p, j) != 1 ==>
      Offset(p, i) + Length(p, i) <= Offset(p, j) || Offset(p, j) + Length(p, j) <= Offset(p, i)
  }

  lemma FieldsOf(p: Bytes, i: nat)
    requires 14 + 6 * i <= |p|
    ensures U16At(p, SlotAt(i)) == Offset(p, i) && U16At(p, SlotAt(i) + 2) == Length(p, i) && U16At(p, SlotAt(i) + 4) == Flags(p, i)
  {
    NumberAt(p, 8 + 6 * i);
    NumberAt(p, 10 + 6 * i);
    NumberAt(p, 12 + 6 * i);
  }
}
