/** The pages of the tree byte by byte. */
module NodeBytes {
  import opened Keys
  import opened LittleEndian
  import opened PageBytes
  import opened TreeModel
  import opened TreeSize
  import opened NodeLayout
  import opened InternalLayout

  lemma IdAt(page: Bytes, off: nat)
    requires off + 8 <= |page|
    ensures page[off..off + 8] == ToLE(U64At(page, off), 8)
  {
    ToFromLE(page[off..off + 8]);
  }

  /** Which pages are accepted as leaves, and which are refused for their type, */
  lemma LeafAccepted(page: Bytes)
    ensures ValidateLeaf(page) == Valid <==>
              && |page| >= 32 && page[0] == 1
              && Word(page, 4) == 32 + 8 * Word(page, 2)
              && Word(page, 4) <= Word(page, 6) <= |page|
    ensures ValidateLeaf(page) == Invalid(LayoutError.Corrupt) || ValidateLeaf(page).Valid? || ValidateLeaf(page) == Invalid(WrongType(page[0]))
    ensures ValidateLeaf(page).Invalid? && ValidateLeaf(page).error.WrongType? <==> |page| >= 32 && page[0] != 1
  {
    hide Word, U16At;
    if |page| >= 32 {
      NumberAt(page, 2);
      NumberAt(page, 4);
      NumberAt(page, 6);
    }
  }

  /** and as internal pages. */
  lemma InternalAccepted(page: Bytes)
    ensures ValidateInternal(page) == Valid <==>
              && |page| >= 24 && page[0] == 2
              && Word(page, 4) == 24 + 12 * Word(page, 2)
              && Word(page, 4) <= Word(page, 6) <= |page|
    ensures ValidateInternal(page) == Invalid(LayoutError.Corrupt) || ValidateInternal(page).Valid? || ValidateInternal(page) == Invalid(WrongType(page[0]))
    ensures ValidateInternal(page).Invalid? && ValidateInternal(page).error.WrongType? <==> |page| >= 24 && page[0] != 2
  {
    hide Word, U16At;
    if |page| >= 24 {
      NumberAt(page, 2);
      NumberAt(page, 4);
      NumberAt(page, 6);
    }
  }

  /** A leaf's page: type 1, the number of entries, the end of the slots, the three page numbers, */
  lemma LeafPage(page: Bytes, n: Node)
    requires n.Leaf? && HoldsLeaf(page, n)
    ensures |page| >= 32 && page[0] == 1 && Word(page, 2) == |n.entries|
    ensures Word(page, 4) == 32 + 8 * |n.entries| <= Word(page, 6) <= |page|
    ensures page[8..16] == ToLE(n.parent, 8) && page[16..24] == ToLE(n.prev, 8) && page[24..32] == ToLE(n.next, 8)
  {
    hide Word, U16At, U64At, ToLE, LeafSlotIs;
    NumberAt(page, 2);
    NumberAt(page, 4);
    NumberAt(page, 6);
    IdAt(page, 8);
    IdAt(page, 16);
    IdAt(page, 24);
  }

  lemma SlotOfLeaf(page: Bytes, n: Node, i: nat)
    requires n.Leaf? && HoldsLeaf(page, n) && i < |n.entries|
    ensures |page| >= 32 && LeafSlotIs(page, i, n.entries[i], U16At(page, 6))
  {
    hide LeafSlotIs, U16At;
  }

  lemma SlotWords(page: Bytes, i: nat, e: Entry, from: nat)
    requires LeafSlotIs(page, i, e, from)
    ensures 40 + 8 * i <= |page|
    ensures var ko, kl := Word(page, 32 + 8 * i), Word(page, 34 + 8 * i);
            ko + kl <= |page| && page[ko..ko + kl] == e.key
    ensures var vo, vl := Word(page, 36 + 8 * i), Word(page, 38 + 8 * i);
            vo + vl <= |page| && page[vo..vo + vl] == e.value
  {
    hide Word, U16At;
    NumberAt(page, 32 + 8 * i);
    NumberAt(page, 34 + 8 * i);
    NumberAt(page, 36 + 8 * i);
    NumberAt(page, 38 + 8 * i);
  }

  /** and for each entry a slot of eight bytes with the offset and the length of its key and of its value. */
  lemma LeafPageSlot(page: Bytes, n: Node, i: nat)
    requires n.Leaf? && HoldsLeaf(page, n) && i < |n.entries|
    ensures 40 + 8 * i <= |page|
    ensures var ko, kl := Word(page, 32 + 8 * i), Word(page, 34 + 8 * i);
            ko + kl <= |page| && page[ko..ko + kl] == n.entries[i].key
    ensures var vo, vl := Word(page, 36 + 8 * i), Word(page, 38 + 8 * i);
            vo + vl <= |page| && page[vo..vo + vl] == n.entries[i].value
  {
    hide Word, HoldsLeaf, U16At;
    SlotOfLeaf(page, n, i);
    SlotWords(page, i, n.entries[i], U16At(page, 6));
  }

  /** An internal page: type 2, the same header with the first child in place of the chain, */
  lemma InternalPage(page: Bytes, n: Node)
    requires n.Internal? && HoldsInternal(page, n)
    ensures |page| >= 24 && page[0] == 2 && Word(page, 2) == |n.seps|
    ensures Word(page, 4) == 24 + 12 * |n.seps| <= Word(page, 6) <= |page|
    ensures page[8..16] == ToLE(n.parent, 8) && page[16..24] == ToLE(n.first, 8)
  {
    hide Word, U16At, U64At, ToLE, SepSlotIs;
    NumberAt(page, 2);
    NumberAt(page, 4);
    NumberAt(page, 6);
    IdAt(page, 8);
    IdAt(page, 16);
  }

  /** and for each separator a slot of twelve bytes with the offset and the length of its key and its child. */
  lemma InternalPageSlot(page: Bytes, n: Node, i: nat)
    requires n.Internal? && HoldsInternal(page, n) && i < |n.seps|
    ensures 36 + 12 * i <= |page| && page[28 + 12 * i..36 + 12 * i] == ToLE(n.seps[i].child, 8)
    ensures var ko, kl := Word(page, 24 + 12 * i), Word(page, 26 + 12 * i);
            ko + kl <= |page| && page[ko..ko + kl] == n.seps[i].key
  {
    assert SepSlotIs(page, i, n.seps[i], U16At(page, 6));
    hide Word, HoldsInternal, U16At, U64At, ToLE;
    NumberAt(page, 24 + 12 * i);
    NumberAt(page, 26 + 12 * i);
    IdAt(page, 28 + 12 * i);
  }
}
