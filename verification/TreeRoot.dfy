/** Changing the entries of one leaf, and growing or shrinking the tree at the root. */
module TreeRoot {
  import opened Keys
  import opened TreeModel

  // ── Leaf update ──

  function SetEntries(pages: map<PageId, Node>, l: PageId, es: seq<Entry>): map<PageId, Node>
    requires l in pages && pages[l].Leaf?
  {
    pages[l := pages[l].(entries := es)]
  }

  lemma SetEntriesKeepsStruct(t: Tree, l: PageId, es: seq<Entry>)
    requires Struct(t) && l in t.pages && t.pages[l].Leaf?
    requires SortedIn(es, t.meta[l].lo, t.meta[l].hi)
    ensures Struct(t.(pages := SetEntries(t.pages, l, es)))
  {
    var t' := t.(pages := SetEntries(t.pages, l, es));
    forall id {:trigger NodeOk(t'.pages[id], t'.meta[id])} | id in t'.pages ensures NodeOk(t'.pages[id], t'.meta[id]) {
      assert NodeOk(t.pages[id], t.meta[id]);
    }
    forall q, k {:trigger EdgeOk(t', q, k)} | q in t'.pages && t'.pages[q].Internal? && 0 <= k <= |t'.pages[q].seps|
      ensures EdgeOk(t', q, k)
    {
      assert EdgeOk(t, q, k);
    }
    forall id | id in t'.pages && id != t'.root ensures HasSlot(t', id) {
      assert HasSlot(t, id);
      var k: nat :| IsSlot(t, t.pages[id].parent, k, id);
      assert IsSlot(t', t'.pages[id].parent, k, id);
    }
    forall k {:trigger LinkOk(t', k)} | 0 <= k < |t'.chain| ensures LinkOk(t', k) {
      assert LinkOk(t, k);
    }
    forall id | id in t'.pages && t'.pages[id].Leaf? ensures OnChain(t', id) {
      assert OnChain(t, id);
    }
  }

  // ── A new root above the old one ──

  function GrowPages(pages: map<PageId, Node>, root: PageId, z: PageId): map<PageId, Node>
    requires root in pages
  {
    pages[root := WithParent(pages[root], z)][z := Internal(0, root, [])]
  }

  /** z becomes an internal root whose only child is the old root. */
  ghost function Grow(t: Tree, z: PageId): Tree
    requires t.root in t.pages && t.root in t.meta
  {
    Tree(GrowPages(t.pages, t.root, z), z, t.meta[z := Meta(t.meta[t.root].level + 1, 0.0, 1.0)], t.chain)
  }

  lemma GrowKeepsStruct(t: Tree, z: PageId)
    requires Struct(t) && z !in t.pages && z != 0
    ensures Struct(Grow(t, z))
    ensures IsSlot(Grow(t, z), z, 0, t.root)
  {
    var t' := Grow(t, z);
    forall id {:trigger NodeOk(t'.pages[id], t'.meta[id])} | id in t'.pages ensures NodeOk(t'.pages[id], t'.meta[id]) {
      if id != z { assert NodeOk(t.pages[id], t.meta[id]); SameBodyOk(t.pages[id], t'.pages[id], t.meta[id]); }
    }
    forall q, k {:trigger EdgeOk(t', q, k)} | q in t'.pages && t'.pages[q].Internal? && 0 <= k <= |t'.pages[q].seps|
      ensures EdgeOk(t', q, k)
    {
      if q != z { assert EdgeOk(t, q, k); }
    }
    assert IsSlot(t', z, 0, t.root);
    forall id | id in t'.pages && id != t'.root ensures HasSlot(t', id) {
      if id != t.root {
        assert HasSlot(t, id);
        var k: nat :| IsSlot(t, t.pages[id].parent, k, id);
        assert IsSlot(t', t'.pages[id].parent, k, id);
      }
    }
    forall k {:trigger LinkOk(t', k)} | 0 <= k < |t'.chain| ensures LinkOk(t', k) {
      assert LinkOk(t, k);
    }
    forall id | id in t'.pages && t'.pages[id].Leaf? ensures OnChain(t', id) {
      assert OnChain(t, id);
    }
  }

  // ── Root collapse ──

  function ShrinkPages(pages: map<PageId, Node>, root: PageId): map<PageId, Node>
    requires root in pages && pages[root].Internal? && pages[root].first in pages
  {
    pages[pages[root].first := WithParent(pages[pages[root].first], 0)] - {root}
  }

  /** A root with one child gives way to that child. */
  ghost function Shrink(t: Tree): Tree
    requires t.root in t.pages && t.pages[t.root].Internal? && t.pages[t.root].first in t.pages
  {
    Tree(ShrinkPages(t.pages, t.root), t.pages[t.root].first, t.meta - {t.root}, t.chain)
  }

  ghost predicate CanShrink(t: Tree) {
    Struct(t) && t.pages[t.root].Internal? && t.pages[t.root].seps == []
  }

  /** The only child of the root is the only page at its level. */
  lemma OnlyChild(t: Tree, id: PageId)
    requires CanShrink(t) && id in t.pages && id != t.root
    ensures t.pages[t.root].first in t.pages && t.pages[t.root].first != t.root
    ensures t.meta[id].level < t.meta[t.root].level
    ensures t.pages[id].parent == t.root <==> id == t.pages[t.root].first
    ensures id != t.pages[t.root].first ==> t.meta[id].level < t.meta[t.pages[t.root].first].level
  {
    assert EdgeOk(t, t.root, 0);
    assert HasSlot(t, id);
    var k: nat :| IsSlot(t, t.pages[id].parent, k, id);
    assert EdgeOk(t, t.pages[id].parent, k);
  }

  lemma ShrinkKeepsStruct(t: Tree)
    requires CanShrink(t)
    ensures t.pages[t.root].first in t.pages && Struct(Shrink(t))
  {
    assert EdgeOk(t, t.root, 0);
    var t' := Shrink(t);
    forall id {:trigger NodeOk(t'.pages[id], t'.meta[id])} | id in t'.pages ensures NodeOk(t'.pages[id], t'.meta[id]) {
      assert NodeOk(t.pages[id], t.meta[id]);
      SameBodyOk(t.pages[id], t'.pages[id], t.meta[id]);
    }
    forall q, k {:trigger EdgeOk(t', q, k)} | q in t'.pages && t'.pages[q].Internal? && 0 <= k <= |t'.pages[q].seps|
      ensures EdgeOk(t', q, k)
    {
      assert EdgeOk(t, q, k);
    }
    forall id | id in t'.pages && id != t'.root
      ensures HasSlot(t', id)
      ensures t'.meta[id].level < t'.meta[t'.root].level
    {
      OnlyChild(t, id);
      assert HasSlot(t, id);
      var k: nat :| IsSlot(t, t.pages[id].parent, k, id);
      assert IsSlot(t', t'.pages[id].parent, k, id);
    }
    ShrinkChain(t);
  }

  lemma ShrinkChain(t: Tree)
    requires CanShrink(t)
    ensures t.pages[t.root].first in t.pages && Domains(Shrink(t)) && ChainOk(Shrink(t))
  {
    assert EdgeOk(t, t.root, 0);
    var t' := Shrink(t);
    forall k | 0 <= k < |t'.chain| ensures t'.chain[k] in t'.pages {
      assert LinkOk(t, k);
    }
    forall k {:trigger LinkOk(t', k)} | 0 <= k < |t'.chain| ensures LinkOk(t', k) {
      assert LinkOk(t, k);
    }
    forall id | id in t'.pages && t'.pages[id].Leaf? ensures OnChain(t', id) {
      assert OnChain(t, id);
    }
  }
}
