/** The node operations of the B+tree on page bytes: each reads the entries, changes the list, and rebuilds
    the page when the result fits. On decoded nodes they are the steps that the tree takes. */
module NodeOps {
  import opened Keys
  import opened PageBytes
  import opened TreeModel
  import opened TreeSplit
  import opened TreeMerge
  import opened TreeSize
  import opened TreeLeaf
  import opened BPlusTree
  import opened NodeLayout
  import opened InternalLayout

  /** `LeafNode::insert_or_update`: full exactly when the new leaf does not fit, and then nothing changed. */
  method LeafInsertOrUpdate(page: array<byte>, key: Bytes, value: Bytes, ghost n: Node) returns (ok: bool, ghost found: bool, ghost idx: nat)
    requires n.Leaf? && page.Length <= MAX_PAGE && HoldsLeaf(page[..], n) && EntriesSorted(n.entries)
    modifies page
    ensures IsPlace(n.entries, key, found, idx)
    ensures ok <==> Fits(n.(entries := PutEntry(n.entries, found, idx, Entry(key, value))), page.Length)
    ensures ok ==> HoldsLeaf(page[..], n.(entries := PutEntry(n.entries, found, idx, Entry(key, value))))
    ensures !ok ==> page[..] == old(page[..])
  {
    hide HoldsLeaf;
    LeafRoundTrip(page[..], n);
    LeafPointersInRange(page[..], n);
    var entries := ReadAllLeafEntries(page[..]);
    assert entries == n.entries;
    var place, at := SearchEntries(entries, key);
    found, idx := place, at;
    entries := PutEntry(entries, place, at, Entry(key, value));
    var needed := LEAF_HEADER_LEN + Sum(Costs(entries));
    if needed > page.Length { return false, found, idx; }
    RebuildLeaf(page, entries, U64At(page[..], 8), U64At(page[..], 16), U64At(page[..], 24));
    ok := true;
  }

  /** `LeafNode::delete_key` */
  method LeafDeleteKey(page: array<byte>, key: Bytes, ghost n: Node) returns (removed: bool, ghost idx: nat)
    requires n.Leaf? && page.Length <= MAX_PAGE && HoldsLeaf(page[..], n) && EntriesSorted(n.entries) && Fits(n, page.Length)
    modifies page
    ensures IsPlace(n.entries, key, removed, idx)
    ensures removed ==> HoldsLeaf(page[..], n.(entries := RemoveAt(n.entries, idx)))
    ensures !removed ==> page[..] == old(page[..])
  {
    hide HoldsLeaf;
    LeafRoundTrip(page[..], n);
    LeafPointersInRange(page[..], n);
    var entries := ReadAllLeafEntries(page[..]);
    assert entries == n.entries;
    var found, at := SearchEntries(entries, key);
    removed, idx := found, at;
    if !found { return; }
    RemoveCost(entries, at);
    RebuildLeaf(page, RemoveAt(entries, at), U64At(page[..], 8), U64At(page[..], 16), U64At(page[..], 24));
  }

  /** `InternalNode::insert_entry`: full exactly when the new node does not fit, and then nothing changed. */
  method InternalInsertEntry(page: array<byte>, key: Bytes, child: PageId, ghost n: Node) returns (ok: bool, ghost idx: nat)
    requires n.Internal? && page.Length <= MAX_PAGE && HoldsInternal(page[..], n) && SepsSorted(n.seps)
    modifies page
    ensures idx <= |n.seps|
    ensures forall i :: 0 <= i < idx ==> Rank(n.seps[i].key) < Rank(key)
    ensures forall i :: idx <= i < |n.seps| ==> Rank(key) <= Rank(n.seps[i].key)
    ensures ok <==> Fits(InsertSep(n, idx, Sep(key, child)), page.Length)
    ensures ok ==> HoldsInternal(page[..], InsertSep(n, idx, Sep(key, child)))
    ensures !ok ==> page[..] == old(page[..])
  {
    hide HoldsInternal;
    InternalRoundTrip(page[..], n);
    InternalPointersInRange(page[..], n);
    var seps := ReadAllSeps(page[..]);
    assert seps == n.seps;
    var at := SearchSeps(seps, key);
    idx := at;
    seps := InsertAt(seps, at, Sep(key, child));
    var needed := INTERNAL_HEADER_LEN + Sum(SepCosts(seps));
    if needed > page.Length { return false, idx; }
    RebuildInternal(page, seps, U64At(page[..], 8), U64At(page[..], 16));
    ok := true;
  }

  lemma LeafPointersInRange(page: Bytes, n: Node)
    requires n.Leaf? && HoldsLeaf(page, n)
    ensures U64At(page, 8) == n.parent && U64At(page, 16) == n.prev && U64At(page, 24) == n.next
  {
  }

  lemma InternalPointersInRange(page: Bytes, n: Node)
    requires n.Internal? && HoldsInternal(page, n)
    ensures U64At(page, 8) == n.parent && U64At(page, 16) == n.first
  {
  }

  lemma RemoveCost(es: seq<Entry>, idx: nat)
    requires idx < |es|
    ensures Sum(Costs(RemoveAt(es, idx))) <= Sum(Costs(es))
  {
    assert Costs(RemoveAt(es, idx)) == Costs(es)[..idx] + Costs(es)[idx + 1..];
    SumConcat(Costs(es)[..idx], Costs(es)[idx + 1..]);
    SumWithout(Costs(es), idx);
  }
}
