/** Between the two steps of a split. */
module TreePending {
  import opened Keys
  import opened TreeModel
  import opened TreeSplit
  import opened TreeRoot
  import opened TreeContents

  // The child has been cut in two, its parent does not know about the new page yet.

  /** The parent of l gets a separator for r, whether or not it has room. */
  ghost function Attach(t: Tree, p: PageId, i: nat, key: Bytes, r: PageId): Tree
    requires p in t.pages && t.pages[p].Internal? && i <= |t.pages[p].seps|
  {
    t.(pages := t.pages[p := InsertSep(t.pages[p], i, Sep(key, r))])
  }

  /** The new root z gets the children l and r. */
  ghost function AttachRoot(t: Tree, l: PageId, key: Bytes, r: PageId, z: PageId): Tree
    requires l in t.pages && r in t.pages && l in t.meta
  {
    Tree(t.pages[l := WithParent(t.pages[l], z)][r := WithParent(t.pages[r], z)][z := Internal(0, l, [Sep(key, r)])],
         z, t.meta[z := Meta(t.meta[l].level + 1, 0.0, 1.0)], t.chain)
  }

  /** Once r is attached beside l (under the fresh page z when l is the root) the tree is whole. */
  ghost predicate Pending(t: Tree, l: PageId, key: Bytes, r: PageId, z: PageId) {
    && l in t.pages && r in t.pages && l in t.meta && t.root in t.pages && t.root in t.meta
    && if l == t.root
       then t.pages[l].parent == 0 && z !in t.pages && z != 0 && Struct(AttachRoot(t, l, key, r, z))
       else exists i: nat {:trigger IsSlot(t, t.pages[l].parent, i, l)} ::
              IsSlot(t, t.pages[l].parent, i, l) && Struct(Attach(t, t.pages[l].parent, i, key, r))
  }

  lemma PendingParent(t: Tree, l: PageId, key: Bytes, r: PageId, z: PageId)
    requires Pending(t, l, key, r, z) && l != t.root
    ensures t.pages[l].parent != 0
  {
  }

  // ── Leaf ──

  ghost predicate CanHalveLeaf(t: Tree, l: PageId, mid: nat, r: PageId, c: nat, z: PageId) {
    && Struct(t)
    && c < |t.chain| && t.chain[c] == l
    && l in t.pages && t.pages[l].Leaf?
    && 0 < mid < |t.pages[l].entries|
    && r !in t.pages && r != 0 && z !in t.pages && z != 0 && z != r
  }

  ghost function LeafHalved(t: Tree, l: PageId, mid: nat, r: PageId, c: nat, z: PageId): Tree
    requires CanHalveLeaf(t, l, mid, r, c, z)
  {
    assert LinkOk(t, c);
    Tree(HalveLeaf(t.pages, l, mid, r), t.root,
         SplitMeta(t, Site(0, 0, l, t.pages[l].entries[mid].key, r)), InsertAt(t.chain, c + 1, r))
  }

  lemma HalvedLeafPends(t: Tree, l: PageId, mid: nat, r: PageId, c: nat, z: PageId)
    requires CanHalveLeaf(t, l, mid, r, c, z)
    ensures Pending(LeafHalved(t, l, mid, r, c, z), l, t.pages[l].entries[mid].key, r, z)
  {
    if l == t.root { HalvedRootLeafPends(t, mid, r, c, z); } else { HalvedInnerLeafPends(t, l, mid, r, c, z); }
  }

  lemma HalvedRootLeafPends(t: Tree, mid: nat, r: PageId, c: nat, z: PageId)
    requires CanHalveLeaf(t, t.root, mid, r, c, z)
    ensures Pending(LeafHalved(t, t.root, mid, r, c, z), t.root, t.pages[t.root].entries[mid].key, r, z)
  {
    var l, key := t.root, t.pages[t.root].entries[mid].key;
    assert LinkOk(t, c);
    GrowKeepsStruct(t, z);
    var g := Grow(t, z);
    var s := Site(z, 0, l, key, r);
    assert CanSplitLeaf(g, s, mid, c);
    SplitLeafKeepsStruct(g, s, mid, c);
    RootLeafSplit(t, l, mid, r, c, z);
  }

  lemma HalvedInnerLeafPends(t: Tree, l: PageId, mid: nat, r: PageId, c: nat, z: PageId)
    requires CanHalveLeaf(t, l, mid, r, c, z) && l != t.root
    ensures Pending(LeafHalved(t, l, mid, r, c, z), l, t.pages[l].entries[mid].key, r, z)
  {
    var key := t.pages[l].entries[mid].key;
    var t' := LeafHalved(t, l, mid, r, c, z);
    assert LinkOk(t, c);
    assert HasSlot(t, l);
    var i: nat :| IsSlot(t, t.pages[l].parent, i, l);
    var s := Site(t.pages[l].parent, i, l, key, r);
    assert EdgeOk(t, s.p, i);
    SplitLeafKeepsStruct(t, s, mid, c);
    SplitLeafSite(t, s, mid, c);
    SplitLeafShape(t, s, mid, c);
    if t.pages[l].next != 0 { NextIsLeaf(t, c); }
    assert t'.pages[s.p] == t.pages[s.p];
    assert IsSlot(t', s.p, i, l);
    assert SplitLeaf(t, s, mid, c) == Attach(t', s.p, i, key, r);
  }

  lemma NextIsLeaf(t: Tree, c: nat)
    requires Struct(t) && c < |t.chain|
    ensures t.chain[c] in t.pages && t.pages[t.chain[c]].Leaf?
    ensures var next := t.pages[t.chain[c]].next;
            next != 0 ==> next in t.pages && t.pages[next].Leaf? && next != t.chain[c]
  {
    assert LinkOk(t, c);
    if c + 1 < |t.chain| {
      assert LinkOk(t, c + 1);
      ChainPlace(t, c, c + 1);
    }
  }

  /** A leaf that is the root is alone, so its split touches nothing else. */
  lemma RootLeafSplit(t: Tree, l: PageId, mid: nat, r: PageId, c: nat, z: PageId)
    requires CanHalveLeaf(t, l, mid, r, c, z) && l == t.root
    requires CanSplitLeaf(Grow(t, z), Site(z, 0, l, t.pages[l].entries[mid].key, r), mid, c)
    ensures var key := t.pages[l].entries[mid].key;
            SplitLeaf(Grow(t, z), Site(z, 0, l, key, r), mid, c) == AttachRoot(LeafHalved(t, l, mid, r, c, z), l, key, r, z)
  {
    var key := t.pages[l].entries[mid].key;
    NextIsLeaf(t, c);
    assert LinkOk(t, c);
    assert NodeOk(t.pages[l], t.meta[l]);
    InsertIntoEmpty(Grow(t, z).pages[z], Sep(key, r));
    var a := SplitLeaf(Grow(t, z), Site(z, 0, l, key, r), mid, c);
    var b := AttachRoot(LeafHalved(t, l, mid, r, c, z), l, key, r, z);
    assert a.pages == b.pages;
    assert a.meta == b.meta;
  }

  // ── Internal page ──

  /** u is whole but its page l may be overfull. */
  ghost predicate CanHalveInternal(u: Tree, l: PageId, mid: nat, r: PageId, z: PageId) {
    && Struct(u)
    && l in u.pages && u.pages[l].Internal? && mid < |u.pages[l].seps|
    && r !in u.pages && r != 0 && z !in u.pages && z != 0 && z != r
  }

  ghost function InternalHalved(u: Tree, l: PageId, mid: nat, r: PageId, z: PageId): Tree
    requires CanHalveInternal(u, l, mid, r, z)
  {
    Tree(HalveInternal(u.pages, l, mid, r), u.root, SplitMeta(u, Site(0, 0, l, u.pages[l].seps[mid].key, r)), u.chain)
  }

  lemma HalvedInternalPends(u: Tree, l: PageId, mid: nat, r: PageId, z: PageId)
    requires CanHalveInternal(u, l, mid, r, z)
    ensures Pending(InternalHalved(u, l, mid, r, z), l, u.pages[l].seps[mid].key, r, z)
  {
    var key := u.pages[l].seps[mid].key;
    var t' := InternalHalved(u, l, mid, r, z);
    if l == u.root {
      GrowKeepsStruct(u, z);
      var g := Grow(u, z);
      var s := Site(z, 0, l, key, r);
      assert CanSplitInternal(g, s, mid);
      SplitInternalKeepsStruct(g, s, mid);
      RootInternalSplit(u, l, mid, r, z);
    } else {
      assert HasSlot(u, l);
      var i: nat :| IsSlot(u, u.pages[l].parent, i, l);
      var s := Site(u.pages[l].parent, i, l, key, r);
      assert CanSplitInternal(u, s, mid);
      SplitInternalKeepsStruct(u, s, mid);
      SplitInternalShape(u, s, mid);
      forall id | id in MovedChildren(u.pages[l], mid) ensures id != l && id != s.p && id != r {
        MovedBelow(u, s, mid, id);
      }
      assert t'.pages[s.p] == u.pages[s.p];
      assert IsSlot(t', s.p, i, l);
      assert SplitInternal(u, s, mid) == Attach(t', s.p, i, key, r);
    }
  }

  lemma RootInternalSplit(u: Tree, l: PageId, mid: nat, r: PageId, z: PageId)
    requires CanHalveInternal(u, l, mid, r, z) && l == u.root
    requires CanSplitInternal(Grow(u, z), Site(z, 0, l, u.pages[l].seps[mid].key, r), mid)
    ensures var key := u.pages[l].seps[mid].key;
            && InternalHalved(u, l, mid, r, z).pages[l].parent == 0
            && SplitInternal(Grow(u, z), Site(z, 0, l, key, r), mid) == AttachRoot(InternalHalved(u, l, mid, r, z), l, key, r, z)
  {
    var key := u.pages[l].seps[mid].key;
    var s := Site(z, 0, l, key, r);
    var g := Grow(u, z);
    forall id | id in MovedChildren(g.pages[l], mid) ensures id != l && id != z && id != r {
      MovedBelow(g, s, mid, id);
    }
    SameBodySameChildren(g.pages[l], u.pages[l], mid);
    InsertIntoEmpty(g.pages[z], Sep(key, r));
    var a := SplitInternal(g, s, mid);
    var b := AttachRoot(InternalHalved(u, l, mid, r, z), l, key, r, z);
    assert a.pages == b.pages;
    assert a.meta == b.meta;
  }

  /** What the whole tree says about the parent with its new separator. */
  lemma AttachedSlot(t: Tree, p: PageId, i: nat, key: Bytes, r: PageId)
    requires p in t.pages && t.pages[p].Internal? && i <= |t.pages[p].seps|
    requires Struct(Attach(t, p, i, key, r))
    ensures var n := InsertSep(t.pages[p], i, Sep(key, r));
            && FencesRise(n, t.meta[p])
            && (forall k :: 0 <= k <= |n.seps| ==> Child(n, k) in t.pages && t.pages[Child(n, k)].parent == p)
    ensures r in t.pages && t.pages[r].parent == p && r != p
    ensures p in t.meta && t.root in t.meta && Child(t.pages[p], i) in t.meta
    ensures t.meta[Child(t.pages[p], i)].level + 1 == t.meta[p].level <= t.meta[t.root].level
  {
    var u := Attach(t, p, i, key, r);
    var n := u.pages[p];
    assert NodeOk(n, u.meta[p]);
    InsertSepShifts(t.pages[p], t.meta[p], i, Sep(key, r));
    forall k | 0 <= k <= |n.seps| ensures Child(n, k) in u.pages && u.pages[Child(n, k)].parent == p && Child(n, k) != p {
      assert EdgeOk(u, p, k);
    }
    assert EdgeOk(u, p, i) && EdgeOk(u, p, i + 1);
  }

  /** The page is in one slot of its parent only. */
  lemma AttachSlotUnique(t: Tree, p: PageId, i: nat, key: Bytes, r: PageId, j: nat, l: PageId)
    requires IsSlot(t, p, i, l) && IsSlot(t, p, j, l) && Struct(Attach(t, p, i, key, r))
    ensures i == j
  {
    var u := Attach(t, p, i, key, r);
    InsertSepShifts(t.pages[p], u.meta[p], i, Sep(key, r));
    SlotUnique(u, p, i, if j <= i then j else j + 1, l);
  }

  lemma WholeChildren(u: Tree, p: PageId)
    requires Struct(u) && p in u.pages && u.pages[p].Internal?
    ensures var n := u.pages[p];
            && n.first in u.pages && n.first != p
            && (forall k :: 0 <= k < |n.seps| ==> n.seps[k].child in u.pages && n.seps[k].child != p)
  {
    var n := u.pages[p];
    assert EdgeOk(u, p, 0);
    forall k | 0 <= k < |n.seps| ensures n.seps[k].child in u.pages && n.seps[k].child != p {
      assert EdgeOk(u, p, k + 1);
    }
  }

  // ── Contents ──

  lemma HalvedLeafKeepsContents(t: Tree, l: PageId, mid: nat, r: PageId, c: nat, z: PageId)
    requires CanHalveLeaf(t, l, mid, r, c, z)
    ensures Contents(LeafHalved(t, l, mid, r, c, z)) == Contents(t)
  {
    hide NodesOk, EdgesOk, ParentsOk, RootOk, ChainOk, Flatten;
    var t' := LeafHalved(t, l, mid, r, c, z);
    NextIsLeaf(t, c);
    assert EntriesOf(t.pages, l) == EntriesOf(t'.pages, l) + EntriesOf(t'.pages, r);
    forall id | id in t.chain[..c] || id in t.chain[c + 1..] ensures SameEntries(t.pages, t'.pages, id) {
      ElsewhereOnChain(t, c, id);
    }
    OneForTwo(t.pages, t'.pages, t.chain, c, l, r);
  }

  lemma AttachKeepsContents(t: Tree, p: PageId, i: nat, key: Bytes, r: PageId)
    requires p in t.pages && t.pages[p].Internal? && i <= |t.pages[p].seps|
    ensures Contents(Attach(t, p, i, key, r)) == Contents(t)
  {
    SameLeavesSameContents(t.pages, Attach(t, p, i, key, r).pages, t.chain);
  }

  lemma AttachRootKeepsContents(t: Tree, l: PageId, key: Bytes, r: PageId, z: PageId)
    requires l in t.pages && r in t.pages && l in t.meta && z !in t.pages
    ensures Contents(AttachRoot(t, l, key, r, z)) == Contents(t)
  {
    SameLeavesSameContents(t.pages, AttachRoot(t, l, key, r, z).pages, t.chain);
  }

  lemma HalvedInternalKeepsContents(u: Tree, l: PageId, mid: nat, r: PageId, z: PageId)
    requires CanHalveInternal(u, l, mid, r, z)
    ensures Contents(InternalHalved(u, l, mid, r, z)) == Contents(u)
  {
    SameLeavesSameContents(u.pages, InternalHalved(u, l, mid, r, z).pages, u.chain);
  }
}
