/** The tree that a delete leaves, with its page numbers. */
module TreeShrink {
  import opened Keys
  import opened TreeModel
  import opened TreeSplit
  import opened TreeMerge
  import opened TreeRoot
  import opened TreeBorrow
  import opened TreeLeaf
  import opened TreeSize
  import opened TreeSized
  import opened TreeFit
  import opened TreeGrowth

  // Whether the delete fits is another matter (TreeFit); these say what it leaves when it does.

  /** A page and the sibling on its left. */
  function LeftSite(st: Step, id: PageId): Site
    requires st.node.Internal? && 0 < st.slot <= |st.node.seps|
  {
    Site(st.page, st.slot - 1, Child(st.node, st.slot - 1), st.node.seps[st.slot - 1].key, id)
  }

  /** A page and the sibling on its right. */
  function RightSite(st: Step, id: PageId): Site
    requires st.node.Internal? && st.slot < |st.node.seps|
  {
    Site(st.page, st.slot, id, st.node.seps[st.slot].key, Child(st.node, st.slot + 1))
  }

  /** The page r is given back to the pager. */
  function Dropped(t: Tree, supply: PageSupply, r: PageId): TreeState {
    TreeState(t, GivenBack(supply, r))
  }

  /** Page p has just lost a separator: a root with one child gives way to it, and another page that is underfull is
      repaired. */
  ghost function AfterEntry(f: TreeState, p: PageId, up: seq<Step>, pageSize: nat): TreeState
    decreases |up|, 1
  {
    var t := f.tree;
    if p !in t.pages || !t.pages[p].Internal? then f
    else if up == [] then if CanShrink(t) && t.pages[t.root].first in t.pages then Dropped(Shrink(t), f.supply, t.root) else f
    else if Underfull(t.pages[p], pageSize) then PageRepaired(f, p, up, pageSize)
    else f
  }

  /** An underfull internal page borrows the nearest child of a sibling, the left one first, or is merged with it. */
  ghost function PageRepaired(f: TreeState, p: PageId, path: seq<Step>, pageSize: nat): TreeState
    decreases |path|, 0
  {
    if path == [] || !path[0].node.Internal? || path[0].slot > |path[0].node.seps| then f
    else if path[0].slot > 0 then
      var s := LeftSite(path[0], p);
      if !CanMergeInternal(f.tree, s) then f
      else if f.tree.pages[s.l].seps != [] then
        TreeState(BorrowInternal(f.tree, s, |f.tree.pages[s.l].seps| - 1), f.supply)
      else AfterEntry(Dropped(MergeInternal(f.tree, s), f.supply, s.r), s.p, path[1..], pageSize)
    else if path[0].node.seps != [] then
      var s := RightSite(path[0], p);
      if !CanMergeInternal(f.tree, s) then f
      else if f.tree.pages[s.r].seps != [] then
        TreeState(BorrowInternal(f.tree, s, |f.tree.pages[s.l].seps| + 1), f.supply)
      else AfterEntry(Dropped(MergeInternal(f.tree, s), f.supply, s.r), s.p, path[1..], pageSize)
    else f
  }

  /** The same for an underfull leaf, at place c of the chain, which borrows an entry; one without siblings stays. */
  ghost function LeafRepaired(f: TreeState, leaf: PageId, c: nat, path: seq<Step>, pageSize: nat): TreeState {
    if path == [] || !path[0].node.Internal? || path[0].slot > |path[0].node.seps| then f
    else if path[0].slot > 0 then
      var s := LeftSite(path[0], leaf);
      if c == 0 || !CanMergeLeaf(f.tree, s, c - 1) then f else LeafPairRepaired(f, s, c - 1, true, path[1..], pageSize)
    else if path[0].node.seps != [] then
      var s := RightSite(path[0], leaf);
      if !CanMergeLeaf(f.tree, s, c) then f else LeafPairRepaired(f, s, c, false, path[1..], pageSize)
    else f
  }

  ghost function LeafPairRepaired(f: TreeState, s: Site, c: nat, fromLeft: bool, up: seq<Step>, pageSize: nat): TreeState
    requires CanMergeLeaf(f.tree, s, c)
  {
    var left, right := f.tree.pages[s.l].entries, f.tree.pages[s.r].entries;
    if fromLeft && LendsLast(left, right, pageSize) then TreeState(LeafBoundaryMoved(f.tree, s, |left| - 1), f.supply)
    else if !fromLeft && LendsFirst(left, right, pageSize) then TreeState(LeafBoundaryMoved(f.tree, s, |left| + 1), f.supply)
    else AfterEntry(Dropped(MergeLeaf(f.tree, s, c), f.supply, s.r), s.p, up, pageSize)
  }

  /** Two neighbouring leaves with the boundary before entry mid. */
  ghost function LeafBoundaryMoved(t: Tree, s: Site, mid: nat): Tree
    requires PairOk(t, s) && s.l in t.pages && t.pages[s.l].Leaf? && s.r in t.pages && t.pages[s.r].Leaf?
    requires mid < |t.pages[s.l].entries + t.pages[s.r].entries|
  {
    var key := (t.pages[s.l].entries + t.pages[s.r].entries)[mid].key;
    Tree(BorrowLeafPages(t.pages, s, mid), t.root,
         t.meta[s.l := t.meta[s.l].(hi := Rank(key))][s.r := t.meta[s.r].(lo := Rank(key))], t.chain)
  }

  // ── One level of a repair ──

  /** The root needs none. */
  lemma AtRoot(f: TreeState, id: PageId, c: nat, path: seq<Step>, pageSize: nat)
    requires Struct(f.tree) && id in f.tree.pages && f.tree.pages[id].parent == 0
    requires IsPath(f.tree.pages, f.tree.root, id, path)
    ensures LeafRepaired(f, id, c, path, pageSize) == f && PageRepaired(f, id, path, pageSize) == f
  {
    StructFacts(f.tree, id);
  }

  lemma OnlyLeaf(f: TreeState, leaf: PageId, c: nat, path: seq<Step>, pageSize: nat)
    requires path != [] && path[0].node.Internal? && path[0].slot == 0 && path[0].node.seps == []
    ensures LeafRepaired(f, leaf, c, path, pageSize) == f
  {
  }

  lemma OnlyPage(f: TreeState, p: PageId, path: seq<Step>, pageSize: nat)
    requires path != [] && path[0].node.Internal? && path[0].slot == 0 && path[0].node.seps == []
    ensures PageRepaired(f, p, path, pageSize) == f
  {
  }

  lemma LeafRepairedFromLeft(f: TreeState, s: Site, c: nat, path: seq<Step>, pageSize: nat) returns (d: nat)
    requires path != [] && path[0].node.Internal? && 0 < path[0].slot <= |path[0].node.seps| && s == LeftSite(path[0], s.r)
    requires PairOk(f.tree, s) && s.l in f.tree.pages && f.tree.pages[s.l].Leaf?
    requires c < |f.tree.chain| && f.tree.chain[c] == s.r
    ensures CanMergeLeaf(f.tree, s, d) && s.r in f.tree.pages && f.tree.pages[s.r].Leaf?
    ensures var left, right := f.tree.pages[s.l].entries, f.tree.pages[s.r].entries;
            LeafRepaired(f, s.r, c, path, pageSize)
            == if LendsLast(left, right, pageSize) then TreeState(LeafBoundaryMoved(f.tree, s, |left| - 1), f.supply)
               else AfterEntry(Dropped(MergeLeaf(f.tree, s, d), f.supply, s.r), s.p, path[1..], pageSize)
  {
    hide Struct, AfterEntry, LeafBoundaryMoved;
    d := SiblingsAdjacent(f.tree, s);
    if d + 1 != c { SamePlace(f.tree, d + 1, c); }
  }

  lemma SamePlace(t: Tree, a: nat, b: nat)
    requires Struct(t) && a < |t.chain| && b < |t.chain| && a != b
    ensures t.chain[a] != t.chain[b]
  {
    ChainPlace(t, a, b);
  }

  lemma LeafRepairedFromRight(f: TreeState, s: Site, c: nat, path: seq<Step>, pageSize: nat)
    requires path != [] && path[0].node.Internal? && 0 == path[0].slot < |path[0].node.seps| && s == RightSite(path[0], s.l)
    requires PairOk(f.tree, s) && s.l in f.tree.pages && f.tree.pages[s.l].Leaf?
    requires c < |f.tree.chain| && f.tree.chain[c] == s.l
    ensures CanMergeLeaf(f.tree, s, c) && s.r in f.tree.pages && f.tree.pages[s.r].Leaf?
    ensures var left, right := f.tree.pages[s.l].entries, f.tree.pages[s.r].entries;
            LeafRepaired(f, s.l, c, path, pageSize)
            == if LendsFirst(left, right, pageSize) then TreeState(LeafBoundaryMoved(f.tree, s, |left| + 1), f.supply)
               else AfterEntry(Dropped(MergeLeaf(f.tree, s, c), f.supply, s.r), s.p, path[1..], pageSize)
  {
    hide Struct, AfterEntry, LeafBoundaryMoved;
    var d := SiblingsAdjacent(f.tree, s);
    if d != c { SamePlace(f.tree, d, c); }
  }

  lemma PageRepairedFromLeft(f: TreeState, s: Site, path: seq<Step>, pageSize: nat)
    requires path != [] && path[0].node.Internal? && 0 < path[0].slot <= |path[0].node.seps| && s == LeftSite(path[0], s.r)
    requires CanMergeInternal(f.tree, s)
    ensures PageRepaired(f, s.r, path, pageSize)
            == if f.tree.pages[s.l].seps != [] then TreeState(BorrowInternal(f.tree, s, |f.tree.pages[s.l].seps| - 1), f.supply)
               else AfterEntry(Dropped(MergeInternal(f.tree, s), f.supply, s.r), s.p, path[1..], pageSize)
  {
    hide Struct, AfterEntry, BorrowInternal, MergeInternal;
  }

  lemma PageRepairedFromRight(f: TreeState, s: Site, path: seq<Step>, pageSize: nat)
    requires path != [] && path[0].node.Internal? && 0 == path[0].slot < |path[0].node.seps| && s == RightSite(path[0], s.l)
    requires CanMergeInternal(f.tree, s)
    ensures PageRepaired(f, s.l, path, pageSize)
            == if f.tree.pages[s.r].seps != [] then TreeState(BorrowInternal(f.tree, s, |f.tree.pages[s.l].seps| + 1), f.supply)
               else AfterEntry(Dropped(MergeInternal(f.tree, s), f.supply, s.r), s.p, path[1..], pageSize)
  {
    hide Struct, AfterEntry, BorrowInternal, MergeInternal;
  }

  /** An entry is taken out of its leaf; a leaf that is underfull then, and not the root, is repaired. */
  ghost function Deleted(f: TreeState, key: Bytes, c: nat, found: bool, idx: nat, path: seq<Step>, pageSize: nat): TreeState
    requires Spot(f.tree, key, c, found, idx, path)
  {
    var t, leaf := f.tree, f.tree.chain[c];
    if !found then f
    else
      var u := t.(pages := SetEntries(t.pages, leaf, RemoveAt(t.pages[leaf].entries, idx)));
      if path != [] && Underfull(u.pages[leaf], pageSize) then LeafRepaired(TreeState(u, f.supply), leaf, c, path, pageSize)
      else TreeState(u, f.supply)
  }

  /** The place of the key in the tree is unique, so this says what the tree is. */
  ghost predicate DeletedAs(f: TreeState, key: Bytes, pageSize: nat, f': TreeState) {
    && Struct(f.tree)
    && exists c: nat, found: bool, idx: nat, path: seq<Step> :: Spot(f.tree, key, c, found, idx, path)
         && f' == Deleted(f, key, c, found, idx, path, pageSize)
  }

  lemma DeletedIs(f: TreeState, key: Bytes, pageSize: nat, f': TreeState, c: nat, found: bool, idx: nat, path: seq<Step>)
    requires DeletedAs(f, key, pageSize, f') && Spot(f.tree, key, c, found, idx, path)
    ensures f' == Deleted(f, key, c, found, idx, path, pageSize)
  {
    hide Struct, Spot, Deleted;
    var c': nat, found': bool, idx': nat, path': seq<Step> :| Spot(f.tree, key, c', found', idx', path')
      && f' == Deleted(f, key, c', found', idx', path', pageSize);
    SpotUnique(f.tree, key, c, found, idx, path, c', found', idx', path');
  }
}
