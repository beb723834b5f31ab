/** The tree that an insert leaves, with its page numbers. */
module TreeGrowth {
  import opened Keys
  import opened TreeModel
  import opened TreeSplit
  import opened TreeRoot
  import opened TreeLeaf
  import opened TreeSize
  import opened TreePending
  import opened TreeFit

  /** A tree and the page numbers that are left. */
  datatype TreeState = TreeState(tree: Tree, supply: PageSupply)

  /** The leaf l is cut before entry mid; the upper half is page r, next on the chain. */
  ghost function CutLeafTree(u: Tree, l: PageId, mid: nat, r: PageId, c: nat): Tree
    requires l in u.pages && u.pages[l].Leaf? && mid < |u.pages[l].entries| && r !in u.pages && l in u.meta
    requires u.pages[l].next != 0 ==> u.pages[l].next in u.pages
    requires c < |u.chain|
  {
    Tree(HalveLeaf(u.pages, l, mid, r), u.root, SplitMeta(u, Site(0, 0, l, u.pages[l].entries[mid].key, r)),
         InsertAt(u.chain, c + 1, r))
  }

  /** The internal page l is cut at separator mid; what is above it is page r. */
  ghost function CutInternalTree(u: Tree, l: PageId, mid: nat, r: PageId): Tree
    requires l in u.pages && u.pages[l].Internal? && mid < |u.pages[l].seps| && l in u.meta
  {
    Tree(HalveInternal(u.pages, l, mid, r), u.root, SplitMeta(u, Site(0, 0, l, u.pages[l].seps[mid].key, r)), u.chain)
  }

  /** A separator for page r goes up from page l: into its parent, or into a new root. */
  ghost function Promoted(f: TreeState, l: PageId, key: Bytes, r: PageId, path: seq<Step>, pageSize: nat): TreeState
    decreases |path|, 0
  {
    var t := f.tree;
    if path != [] then Raised(f, path[0].page, path[0].slot, key, r, path[1..], pageSize)
    else if l in t.pages && r in t.pages && l in t.meta
    then TreeState(AttachRoot(t, l, key, r, NextId(f.supply)), AfterNext(f.supply))
    else f
  }

  /** A separator is put in slot i of page p: if p overflows it is cut at its middle separator, which goes up. */
  ghost function Raised(f: TreeState, p: PageId, i: nat, key: Bytes, r: PageId, up: seq<Step>, pageSize: nat): TreeState
    decreases |up|, 2
  {
    var t := f.tree;
    if p in t.pages && t.pages[p].Internal? && i <= |t.pages[p].seps| then
      var all := InsertAt(t.pages[p].seps, i, Sep(key, r));
      if SepsFit(all, pageSize) then TreeState(Attach(t, p, i, key, r), f.supply)
      else PageCut(f, p, all, |all| / 2, up, pageSize)
    else f
  }

  /** Page p, with the separators `all`, is cut at separator mid. */
  ghost function PageCut(f: TreeState, p: PageId, all: seq<Sep>, mid: nat, up: seq<Step>, pageSize: nat): TreeState
    decreases |up|, 1
  {
    var t, next := f.tree, NextId(f.supply);
    if p in t.pages && t.pages[p].Internal? && mid < |all| && p in t.meta then
      var u := t.(pages := t.pages[p := t.pages[p].(seps := all)]);
      Promoted(TreeState(CutInternalTree(u, p, mid, next), AfterNext(f.supply)), p, all[mid].key, next, up, pageSize)
    else f
  }

  /** Leaf l, with the entries `es`, is cut before entry mid, whose key goes up. */
  ghost function LeafCut(f: TreeState, l: PageId, es: seq<Entry>, mid: nat, c: nat, path: seq<Step>, pageSize: nat): TreeState {
    var t, next := f.tree, NextId(f.supply);
    if l in t.pages && t.pages[l].Leaf? && mid < |es| && l in t.meta && c < |t.chain| && next !in t.pages
       && (t.pages[l].next != 0 ==> t.pages[l].next in t.pages) then
      var u := t.(pages := SetEntries(t.pages, l, es));
      Promoted(TreeState(CutLeafTree(u, l, mid, next, c), AfterNext(f.supply)), l, es[mid].key, next, path, pageSize)
    else f
  }

  /** An entry is put at its place of a leaf: if the leaf overflows it is cut before its middle entry. */
  ghost function Inserted(f: TreeState, e: Entry, c: nat, found: bool, idx: nat, path: seq<Step>, pageSize: nat): TreeState
    requires Spot(f.tree, e.key, c, found, idx, path)
  {
    var t, leaf := f.tree, f.tree.chain[c];
    var es := PutEntry(t.pages[leaf].entries, found, idx, e);
    if EntriesFit(es, pageSize) then TreeState(t.(pages := SetEntries(t.pages, leaf, es)), f.supply)
    else LeafCut(f, leaf, es, |es| / 2, c, path, pageSize)
  }

  /** The place of the key in the tree is unique, so this says what the tree is. */
  ghost predicate InsertedAs(f: TreeState, e: Entry, pageSize: nat, f': TreeState) {
    && Struct(f.tree)
    && exists c: nat, found: bool, idx: nat, path: seq<Step> :: Spot(f.tree, e.key, c, found, idx, path)
         && f' == Inserted(f, e, c, found, idx, path, pageSize)
  }

  lemma InsertedIs(f: TreeState, e: Entry, pageSize: nat, f': TreeState, c: nat, found: bool, idx: nat, path: seq<Step>)
    requires InsertedAs(f, e, pageSize, f') && Spot(f.tree, e.key, c, found, idx, path)
    ensures f' == Inserted(f, e, c, found, idx, path, pageSize)
  {
    hide Struct, Spot, Inserted;
    var c': nat, found': bool, idx': nat, path': seq<Step> :| Spot(f.tree, e.key, c', found', idx', path')
      && f' == Inserted(f, e, c', found', idx', path', pageSize);
    SpotUnique(f.tree, e.key, c, found, idx, path, c', found', idx', path');
  }
}
