/** Exactly when an insert or a delete overflows. */
module TreeFit {
  import opened Keys
  import opened TreeModel
  import opened TreeSplit
  import opened TreeMerge
  import opened TreeRoot
  import opened TreeBorrow
  import opened TreeContents
  import opened TreeLeaf
  import opened TreeSize
  import opened TreeSized

  // No fit is checked when halves are rebuilt, a separator is replaced or two pages are merged, so a change can
  // fail at any level it travels to. Whether it does is decided, before anything is written, by the sizes of the
  // pages on the way from the leaf to the root and of their siblings.

  /** One step up: the parent page, the slot stepped up from, and the separators of the
      children left and right of it (none for leaves). */
  datatype Step = Step(page: PageId, slot: nat, node: Node, left: seq<Sep>, right: seq<Sep>)

  function SepsOf(n: Node): seq<Sep> {
    if n.Internal? then n.seps else []
  }

  function SepsAt(pages: map<PageId, Node>, id: PageId): seq<Sep> {
    if id in pages then SepsOf(pages[id]) else []
  }

  /** The step from a page to its parent. */
  ghost predicate IsStep(pages: map<PageId, Node>, id: PageId, st: Step) {
    && id in pages && st.page == pages[id].parent
    && st.page in pages && st.node == pages[st.page] && st.node.Internal?
    && st.slot <= |st.node.seps| && Child(st.node, st.slot) == id
    && st.left == (if st.slot > 0 then SepsAt(pages, Child(st.node, st.slot - 1)) else [])
    && st.right == (if st.slot < |st.node.seps| then SepsAt(pages, Child(st.node, st.slot + 1)) else [])
  }

  /** The steps from a page to the root. */
  ghost predicate IsPath(pages: map<PageId, Node>, root: PageId, id: PageId, path: seq<Step>)
    decreases |path|
  {
    if path == [] then id == root
    else id != root && IsStep(pages, id, path[0]) && IsPath(pages, root, path[0].page, path[1..])
  }

  lemma {:induction false} PathExists(t: Tree, id: PageId) returns (path: seq<Step>)
    requires Struct(t) && id in t.pages
    ensures IsPath(t.pages, t.root, id, path)
    decreases t.meta[t.root].level - t.meta[id].level
  {
    if id == t.root { return []; }
    var st := StepExists(t, id);
    assert t.meta[st.page].level <= t.meta[t.root].level;
    var up := PathExists(t, st.page);
    path := [st] + up;
    assert path[1..] == up;
  }

  /** As many steps as levels. */
  lemma {:induction false} PathLength(t: Tree, id: PageId, path: seq<Step>)
    requires Struct(t) && id in t.pages && IsPath(t.pages, t.root, id, path)
    ensures t.meta[id].level + |path| == t.meta[t.root].level
    decreases |path|
  {
    if path != [] {
      var i, p := path[0].slot, path[0].page;
      assert EdgeOk(t, p, i);
      PathLength(t, p, path[1..]);
    }
  }

  lemma StepExists(t: Tree, id: PageId) returns (st: Step)
    requires Struct(t) && id in t.pages && id != t.root
    ensures IsStep(t.pages, id, st) && t.meta[id].level + 1 == t.meta[st.page].level
  {
    assert HasSlot(t, id);
    var p := t.pages[id].parent;
    var i: nat :| IsSlot(t, p, i, id);
    assert EdgeOk(t, p, i);
    var n := t.pages[p];
    st := Step(p, i, n, if i > 0 then SepsAt(t.pages, Child(n, i - 1)) else [],
               if i < |n.seps| then SepsAt(t.pages, Child(n, i + 1)) else []);
  }

  lemma {:induction false} PathUnique(t: Tree, id: PageId, a: seq<Step>, b: seq<Step>)
    requires Struct(t) && IsPath(t.pages, t.root, id, a) && IsPath(t.pages, t.root, id, b)
    ensures a == b
    decreases |a|
  {
    if a != [] {
      SlotUnique(t, a[0].page, a[0].slot, b[0].slot, id);
      PathUnique(t, a[0].page, a[1..], b[1..]);
      assert a == [a[0]] + a[1..] && b == [b[0]] + b[1..];
    }
  }

  /** The pages at or above the level of id, other than id, are the same in both heaps;
      id itself still has its parent. */
  ghost predicate SameAbove(u: Tree, id: PageId, pages: map<PageId, Node>)
    requires Domains(u) && id in u.pages
  {
    && id in pages && pages[id].parent == u.pages[id].parent
    && (forall x {:trigger KeptAbove(u, pages, x)} :: x in u.pages && x != id && u.meta[x].level >= u.meta[id].level
          ==> KeptAbove(u, pages, x))
  }

  ghost predicate KeptAbove(u: Tree, pages: map<PageId, Node>, x: PageId)
    requires x in u.pages
  {
    x in pages && if u.pages[x].Leaf? then pages[x].Leaf? else pages[x] == u.pages[x]
  }

  lemma StepStays(u: Tree, id: PageId, pages: map<PageId, Node>, st: Step)
    requires Struct(u) && id in u.pages && id != u.root && SameAbove(u, id, pages)
    ensures IsStep(u.pages, id, st) <==> IsStep(pages, id, st)
    ensures IsStep(u.pages, id, st) ==> SameAbove(u, st.page, pages)
  {
    var known := StepExists(u, id);
    var p := known.page;
    assert KeptAbove(u, pages, p);
    if st.page == p && st.slot <= |u.pages[p].seps| && Child(u.pages[p], st.slot) == id {
      assert EdgeOk(u, p, st.slot);
      if st.slot > 0 { SiblingStays(u, id, pages, p, st.slot, st.slot - 1); }
      if st.slot < |u.pages[p].seps| { SiblingStays(u, id, pages, p, st.slot, st.slot + 1); }
    }
    if IsStep(u.pages, id, st) {
      forall x | x in u.pages && x != p && u.meta[x].level >= u.meta[p].level ensures KeptAbove(u, pages, x) {
      }
    }
  }

  lemma SiblingStays(u: Tree, id: PageId, pages: map<PageId, Node>, p: PageId, i: nat, j: nat)
    requires Struct(u) && id in u.pages && SameAbove(u, id, pages)
    requires IsSlot(u, p, i, id) && j <= |u.pages[p].seps| && i != j
    ensures SepsAt(pages, Child(u.pages[p], j)) == SepsAt(u.pages, Child(u.pages[p], j))
  {
    var c := Child(u.pages[p], j);
    assert EdgeOk(u, p, i) && EdgeOk(u, p, j);
    if c == id { SlotUnique(u, p, i, j, id); }
    assert KeptAbove(u, pages, c);
  }

  /** A change below a page leaves its path to the root as it was. */
  lemma {:induction false} PathStays(u: Tree, id: PageId, pages: map<PageId, Node>, path: seq<Step>)
    requires Struct(u) && id in u.pages && SameAbove(u, id, pages)
    ensures IsPath(u.pages, u.root, id, path) <==> IsPath(pages, u.root, id, path)
    decreases |path|
  {
    hide Struct;
    if path != [] && id != u.root {
      StepStays(u, id, pages, path[0]);
      if IsStep(u.pages, id, path[0]) { PathStays(u, path[0].page, pages, path[1..]); }
    }
  }

  // ── Insert ──

  predicate SepsFit(ss: seq<Sep>, pageSize: nat) {
    INTERNAL_HEADER_LEN + Sum(SepCosts(ss)) <= pageSize
  }

  predicate EntriesFit(es: seq<Entry>, pageSize: nat) {
    LEAF_HEADER_LEN + Sum(Costs(es)) <= pageSize
  }

  /** A separator for a new page finds room along the path: in the parent, or, when the parent
      overflows, in the two halves it is cut into by count with the middle one going up. Each
      cut and a new root take one of the `spare` page numbers. */
  predicate Room(path: seq<Step>, key: Bytes, spare: int, pageSize: nat)
    decreases |path|, 0
  {
    if path == [] then spare > 0 && SepsFit([Sep(key, 0)], pageSize)
    else
      && path[0].slot <= |SepsOf(path[0].node)|
      && SepsRoom(InsertAt(SepsOf(path[0].node), path[0].slot, Sep(key, 0)), path[1..], spare, pageSize)
  }

  predicate SepsRoom(all: seq<Sep>, up: seq<Step>, spare: int, pageSize: nat)
    decreases |up|, 2
  {
    SepsFit(all, pageSize) || HalvesRoom(all, up, spare, pageSize)
  }

  predicate HalvesRoom(all: seq<Sep>, up: seq<Step>, spare: int, pageSize: nat)
    decreases |up|, 1
  {
    var mid := |all| / 2;
    && all != [] && spare > 0
    && SepsFit(all[..mid], pageSize)
    && SepsFit(all[mid + 1..], pageSize)
    && Room(up, all[mid].key, spare - 1, pageSize)
  }

  predicate LeafRoom(es: seq<Entry>, path: seq<Step>, spare: int, pageSize: nat) {
    EntriesFit(es, pageSize) || LeafHalvesRoom(es, path, spare, pageSize)
  }

  predicate LeafHalvesRoom(es: seq<Entry>, path: seq<Step>, spare: int, pageSize: nat) {
    var mid := |es| / 2;
    && es != [] && spare > 0
    && EntriesFit(es[..mid], pageSize)
    && EntriesFit(es[mid..], pageSize)
    && Room(path, es[mid].key, spare - 1, pageSize)
  }

  /** Only the keys of separators count. */
  ghost predicate SameKeys(a: seq<Sep>, b: seq<Sep>) {
    |a| == |b| && forall i :: 0 <= i < |a| ==> a[i].key == b[i].key
  }

  lemma SameKeysFit(a: seq<Sep>, b: seq<Sep>, pageSize: nat)
    requires SameKeys(a, b)
    ensures SepsFit(a, pageSize) <==> SepsFit(b, pageSize)
  {
    assert SepCosts(a) == SepCosts(b);
  }

  lemma SameKeysRoom(a: seq<Sep>, b: seq<Sep>, up: seq<Step>, spare: int, pageSize: nat)
    requires SameKeys(a, b)
    ensures SepsFit(a, pageSize) <==> SepsFit(b, pageSize)
    ensures HalvesRoom(a, up, spare, pageSize) <==> HalvesRoom(b, up, spare, pageSize)
  {
    hide SepsFit, Room;
    var mid := |a| / 2;
    SameKeysFit(a, b, pageSize);
    if a != [] {
      SameKeysFit(a[..mid], b[..mid], pageSize);
      SameKeysFit(a[mid + 1..], b[mid + 1..], pageSize);
    }
  }

  /** Where a key belongs: the leaf at place c of the chain, slot idx of it, and the way up. */
  ghost predicate Spot(t: Tree, key: Bytes, c: nat, found: bool, idx: nat, path: seq<Step>) {
    && Domains(t) && Covers(t, c, key)
    && IsPlace(t.pages[t.chain[c]].entries, key, found, idx)
    && IsPath(t.pages, t.root, t.chain[c], path)
  }

  lemma SpotPlace(t: Tree, key: Bytes, c: nat, found: bool, idx: nat, path: seq<Step>)
    requires Spot(t, key, c, found, idx, path)
    ensures Domains(t) && Covers(t, c, key) && IsPlace(t.pages[t.chain[c]].entries, key, found, idx)
  {
  }

  /** What the leaf for the entry would hold fits in it, or its halves and what they
      send up fit. */
  ghost predicate InsertFits(t: Tree, e: Entry, spare: int, pageSize: nat) {
    exists c: nat, found: bool, idx: nat, path: seq<Step> :: Spot(t, e.key, c, found, idx, path)
      && LeafRoom(PutEntry(t.pages[t.chain[c]].entries, found, idx, e), path, spare, pageSize)
  }

  lemma SpotUnique(t: Tree, key: Bytes, c: nat, found: bool, idx: nat, path: seq<Step>,
                   c': nat, found': bool, idx': nat, path': seq<Step>)
    requires Struct(t) && Spot(t, key, c, found, idx, path) && Spot(t, key, c', found', idx', path')
    ensures c == c' && found == found' && idx == idx' && path == path'
  {
    if c < c' { ChainRises(t, c, c'); }
    if c' < c { ChainRises(t, c', c); }
    PlaceUnique(t.pages[t.chain[c]].entries, key, found, idx, found', idx');
    PathUnique(t, t.chain[c], path, path');
  }

  lemma PlaceUnique(es: seq<Entry>, key: Bytes, found: bool, idx: nat, found': bool, idx': nat)
    requires IsPlace(es, key, found, idx) && IsPlace(es, key, found', idx')
    ensures found == found' && idx == idx'
  {
    var low := if idx < idx' then idx else idx';
    var e := if low < |es| then es[low] else Entry(key, []);
  }

  lemma InsertFitsAt(t: Tree, e: Entry, spare: int, pageSize: nat, c: nat, found: bool, idx: nat, path: seq<Step>)
    requires Struct(t) && Spot(t, e.key, c, found, idx, path)
    ensures InsertFits(t, e, spare, pageSize) <==>
            LeafRoom(PutEntry(t.pages[t.chain[c]].entries, found, idx, e), path, spare, pageSize)
  {
    hide Struct, Spot, LeafRoom;
    forall c': nat, found': bool, idx': nat, path': seq<Step> | Spot(t, e.key, c', found', idx', path')
      ensures c == c' && found == found' && idx == idx' && path == path'
    {
      SpotUnique(t, e.key, c, found, idx, path, c', found', idx', path');
    }
  }

  // ── What the steps of an insert leave alone ──

  /** Only the page itself was rewritten. */
  lemma RewrittenPath(u: Tree, id: PageId, pages: map<PageId, Node>, path: seq<Step>)
    requires Struct(u) && id in u.pages && id in pages && pages[id].parent == u.pages[id].parent
    requires u.pages == pages[id := u.pages[id]]
    ensures IsPath(pages, u.root, id, path) <==> IsPath(u.pages, u.root, id, path)
  {
    forall x | x in u.pages && x != id && u.meta[x].level >= u.meta[id].level ensures KeptAbove(u, pages, x) {
      assert u.pages[x] == pages[x];
    }
    PathStays(u, id, pages, path);
  }

  lemma HalvedLeafPath(u: Tree, l: PageId, mid: nat, r: PageId, path: seq<Step>)
    requires Struct(u) && l in u.pages && u.pages[l].Leaf? && mid <= |u.pages[l].entries| && r !in u.pages
    requires var next := u.pages[l].next; next != 0 ==> next in u.pages && u.pages[next].Leaf? && next != l
    requires IsPath(u.pages, u.root, l, path)
    ensures IsPath(HalveLeaf(u.pages, l, mid, r), u.root, l, path)
  {
    var pages := HalveLeaf(u.pages, l, mid, r);
    forall x | x in u.pages && x != l && u.meta[x].level >= u.meta[l].level ensures KeptAbove(u, pages, x) {
    }
    PathStays(u, l, pages, path);
  }

  lemma HalvedInternalPath(u: Tree, p: PageId, mid: nat, r: PageId, path: seq<Step>)
    requires Struct(u) && p in u.pages && u.pages[p].Internal? && mid < |u.pages[p].seps| && r !in u.pages
    requires IsPath(u.pages, u.root, p, path)
    ensures IsPath(HalveInternal(u.pages, p, mid, r), u.root, p, path)
  {
    var pages := HalveInternal(u.pages, p, mid, r);
    forall k | mid < k <= |u.pages[p].seps|
      ensures var x := Child(u.pages[p], k); x in u.pages && u.meta[x].level < u.meta[p].level
    {
      assert EdgeOk(u, p, k);
    }
    forall x | x in u.pages && x != p && u.meta[x].level >= u.meta[p].level ensures KeptAbove(u, pages, x) {
      assert x !in MovedChildren(u.pages[p], mid);
    }
    assert p !in MovedChildren(u.pages[p], mid);
    PathStays(u, p, pages, path);
  }

  // ── Delete ──

  /** An internal page left with `ss` can be repaired: unless it is the root, or not underfull,
      or without siblings, it must take the separator beside it, and the parent must fit with
      the borrowed separator instead or be repairable without any. */
  predicate Repairs(ss: seq<Sep>, path: seq<Step>, pageSize: nat)
    decreases |path|
  {
    || path == []
    || !Underfull(Internal(0, 0, ss), pageSize)
    || (var st, parent := path[0], SepsOf(path[0].node);
        && st.slot <= |parent|
        && if st.slot > 0 then
             && SepsFit([parent[st.slot - 1]] + ss, pageSize)
             && (if st.left != [] then SepsFit(parent[st.slot - 1 := st.left[|st.left| - 1]], pageSize)
                 else Repairs(RemoveAt(parent, st.slot - 1), path[1..], pageSize))
           else if parent != [] then
             && SepsFit(ss + [parent[0]], pageSize)
             && (if st.right != [] then SepsFit(parent[0 := st.right[0]], pageSize)
                 else Repairs(RemoveAt(parent, 0), path[1..], pageSize))
           else true)
  }

  /** A leaf left with `es` can be repaired, its siblings holding `left` and `right`. */
  predicate LeafRepairs(es: seq<Entry>, left: seq<Entry>, right: seq<Entry>, path: seq<Step>, pageSize: nat) {
    || path == []
    || !Underfull(Leaf(0, 0, 0, es), pageSize)
    || (var st, parent := path[0], SepsOf(path[0].node);
        && st.slot <= |parent|
        && if st.slot > 0 then
             if LendsLast(left, es, pageSize) then SepsFit(parent[st.slot - 1 := Sep(left[|left| - 1].key, 0)], pageSize)
             else EntriesFit(left + es, pageSize) && Repairs(RemoveAt(parent, st.slot - 1), path[1..], pageSize)
           else if parent != [] then
             if LendsFirst(es, right, pageSize) then SepsFit(parent[0 := Sep(right[1].key, 0)], pageSize)
             else EntriesFit(es + right, pageSize) && Repairs(RemoveAt(parent, 0), path[1..], pageSize)
           else true)
  }

  /** The root needs no repair. */
  lemma RootRepairs(t: Tree, id: PageId, path: seq<Step>, pageSize: nat)
    requires Struct(t) && id in t.pages && t.pages[id].parent == 0 && IsPath(t.pages, t.root, id, path)
    ensures forall ss :: Repairs(ss, path, pageSize)
    ensures forall es, left, right :: LeafRepairs(es, left, right, path, pageSize)
  {
  }

  lemma LeafStays(n: Node, left: seq<Entry>, right: seq<Entry>, path: seq<Step>, pageSize: nat)
    requires n.Leaf? && (path == [] || !Underfull(n, pageSize))
    ensures LeafRepairs(n.entries, left, right, path, pageSize)
  {
    hide Sum;
    assert Underfull(Leaf(0, 0, 0, n.entries), pageSize) <==> Underfull(n, pageSize);
  }

  /** The repair of a page that has a left sibling. */
  lemma RepairsFromLeft(n: Node, path: seq<Step>, pageSize: nat)
    requires n.Internal? && Underfull(n, pageSize) && path != [] && 0 < path[0].slot <= |SepsOf(path[0].node)|
    ensures var parent, i := SepsOf(path[0].node), path[0].slot - 1;
            var left := path[0].left;
            Repairs(n.seps, path, pageSize) <==>
            SepsFit([parent[i]] + n.seps, pageSize)
            && (if left != [] then SepsFit(parent[i := left[|left| - 1]], pageSize)
                else Repairs(RemoveAt(parent, i), path[1..], pageSize))
  {
    hide Sum, SepsFit;
    assert Underfull(Internal(0, 0, n.seps), pageSize);
  }

  /** The repair of a first child; an only child stays as it is. */
  lemma RepairsFromRight(n: Node, path: seq<Step>, pageSize: nat)
    requires n.Internal? && Underfull(n, pageSize) && path != [] && path[0].slot == 0
    ensures var parent, right := SepsOf(path[0].node), path[0].right;
            Repairs(n.seps, path, pageSize) <==>
            parent == [] ||
            (SepsFit(n.seps + [parent[0]], pageSize)
             && (if right != [] then SepsFit(parent[0 := right[0]], pageSize)
                 else Repairs(RemoveAt(parent, 0), path[1..], pageSize)))
  {
    hide Sum, SepsFit;
    assert Underfull(Internal(0, 0, n.seps), pageSize);
  }

  /** The two ways to repair a leaf with a left sibling, whatever page the separator names. */
  lemma LeafRepairsFromLeft(n: Node, left: seq<Entry>, right: seq<Entry>, path: seq<Step>, pageSize: nat, r: PageId)
    requires n.Leaf? && Underfull(n, pageSize) && path != [] && 0 < path[0].slot <= |SepsOf(path[0].node)|
    ensures var parent, i := SepsOf(path[0].node), path[0].slot - 1;
            LeafRepairs(n.entries, left, right, path, pageSize) <==>
            if LendsLast(left, n.entries, pageSize) then SepsFit(parent[i := Sep(left[|left| - 1].key, r)], pageSize)
            else EntriesFit(left + n.entries, pageSize) && Repairs(RemoveAt(parent, i), path[1..], pageSize)
  {
    hide Sum, SepsFit, EntriesFit, Repairs;
    var parent, i := SepsOf(path[0].node), path[0].slot - 1;
    assert Underfull(Leaf(0, 0, 0, n.entries), pageSize);
    if LendsLast(left, n.entries, pageSize) {
      var key := left[|left| - 1].key;
      SameKeysFit(parent[i := Sep(key, r)], parent[i := Sep(key, 0)], pageSize);
    }
  }

  lemma LeafRepairsFromRight(n: Node, left: seq<Entry>, right: seq<Entry>, path: seq<Step>, pageSize: nat, r: PageId)
    requires n.Leaf? && Underfull(n, pageSize) && path != [] && path[0].slot == 0
    ensures var parent := SepsOf(path[0].node);
            LeafRepairs(n.entries, left, right, path, pageSize) <==>
            parent == [] ||
            if LendsFirst(n.entries, right, pageSize) then SepsFit(parent[0 := Sep(right[1].key, r)], pageSize)
            else EntriesFit(n.entries + right, pageSize) && Repairs(RemoveAt(parent, 0), path[1..], pageSize)
  {
    hide Sum, SepsFit, EntriesFit, Repairs;
    var parent := SepsOf(path[0].node);
    assert Underfull(Leaf(0, 0, 0, n.entries), pageSize);
    if parent != [] && LendsFirst(n.entries, right, pageSize) {
      SameKeysFit(parent[0 := Sep(right[1].key, r)], parent[0 := Sep(right[1].key, 0)], pageSize);
    }
  }

  predicate LendsLast(left: seq<Entry>, es: seq<Entry>, pageSize: nat) {
    |left| > 1 && EntriesFit([left[|left| - 1]] + es, pageSize)
  }

  predicate LendsFirst(es: seq<Entry>, right: seq<Entry>, pageSize: nat) {
    |right| > 1 && EntriesFit(es + [right[0]], pageSize)
  }

  /** Entries of the leaf left of the one the path starts from; none if it is the first. */
  function LeftEntries(pages: map<PageId, Node>, path: seq<Step>): seq<Entry> {
    if path == [] || path[0].node.Leaf? || !(0 < path[0].slot <= |path[0].node.seps|) then []
    else EntriesOf(pages, Child(path[0].node, path[0].slot - 1))
  }

  function RightEntries(pages: map<PageId, Node>, path: seq<Step>): seq<Entry> {
    if path == [] || path[0].node.Leaf? || !(path[0].slot < |path[0].node.seps|) then []
    else EntriesOf(pages, Child(path[0].node, path[0].slot + 1))
  }

  /** The key is absent, or its leaf can be repaired without its entry. */
  ghost predicate DeleteFits(t: Tree, key: Bytes, pageSize: nat) {
    exists c: nat, found: bool, idx: nat, path: seq<Step> :: Spot(t, key, c, found, idx, path)
      && (found ==> LeafRepairs(RemoveAt(t.pages[t.chain[c]].entries, idx), LeftEntries(t.pages, path),
                                RightEntries(t.pages, path), path, pageSize))
  }

  lemma DeleteFitsAt(t: Tree, key: Bytes, pageSize: nat, c: nat, found: bool, idx: nat, path: seq<Step>)
    requires Struct(t) && Spot(t, key, c, found, idx, path)
    ensures DeleteFits(t, key, pageSize) <==>
            (found ==> LeafRepairs(RemoveAt(t.pages[t.chain[c]].entries, idx), LeftEntries(t.pages, path),
                                   RightEntries(t.pages, path), path, pageSize))
  {
    hide Struct, LeafRepairs, LeftEntries, RightEntries;
    forall c': nat, found': bool, idx': nat, path': seq<Step> | Spot(t, key, c', found', idx', path')
      ensures c == c' && found == found' && idx == idx' && path == path'
    {
      SpotUnique(t, key, c, found, idx, path, c', found', idx', path');
    }
  }

  /** The first step of a path goes to the parent, from the page's slot there. */
  lemma PathSlot(t: Tree, id: PageId, p: PageId, i: nat, path: seq<Step>)
    requires Struct(t) && id in t.pages && id != t.root
    requires IsSlot(t, p, i, id) && IsPath(t.pages, t.root, id, path)
    ensures path != [] && path[0].page == p && path[0].slot == i && path[0].node == t.pages[p]
    ensures path[0].left == (if i > 0 then SepsAt(t.pages, Child(t.pages[p], i - 1)) else [])
    ensures path[0].right == (if i < |t.pages[p].seps| then SepsAt(t.pages, Child(t.pages[p], i + 1)) else [])
    ensures IsPath(t.pages, t.root, p, path[1..])
    ensures p in t.meta && id in t.meta && t.meta[p].level == t.meta[id].level + 1
  {
    assert EdgeOk(t, p, i);
    SlotUnique(t, p, path[0].slot, i, id);
  }

  /** Rewriting a leaf leaves its siblings as they were. */
  lemma SiblingsElsewhere(u: Tree, l: PageId, pages: map<PageId, Node>, path: seq<Step>)
    requires Struct(u) && l in u.pages && l in pages && u.pages == pages[l := u.pages[l]]
    requires IsPath(u.pages, u.root, l, path)
    ensures LeftEntries(u.pages, path) == LeftEntries(pages, path)
    ensures RightEntries(u.pages, path) == RightEntries(pages, path)
  {
    if path != [] {
      var p, i := path[0].page, path[0].slot;
      assert EdgeOk(u, p, i);
      if i > 0 && Child(u.pages[p], i - 1) == l { SlotUnique(u, p, i, i - 1, l); }
      if i < |u.pages[p].seps| && Child(u.pages[p], i + 1) == l { SlotUnique(u, p, i, i + 1, l); }
    }
  }

  lemma MergedLeafPath(t: Tree, s: Site, pages: map<PageId, Node>, path: seq<Step>)
    requires PairOk(t, s) && Neighbours(t.pages, s)
    requires s.p in pages && pages[s.p] == t.pages[s.p]
    requires pages[s.p := RemoveSep(pages[s.p], s.i)] == MergeLeafPages(t.pages, s)
    ensures IsPath(t.pages, t.root, s.p, path) <==> IsPath(pages, t.root, s.p, path)
  {
    PairFacts(t, s);
    var m := MergeLeafPages(t.pages, s);
    assert EdgeOk(t, s.p, s.i);
    forall x | x in t.pages && x != s.p && t.meta[x].level >= t.meta[s.p].level ensures KeptAbove(t, pages, x) {
      assert NodeOk(t.pages[x], t.meta[x]);
      assert x in m && m[x] == t.pages[x];
      assert pages[x] == m[x];
    }
    PathStays(t, s.p, pages, path);
  }

  lemma MergedInternalPath(t: Tree, s: Site, pages: map<PageId, Node>, path: seq<Step>)
    requires CanMergeInternal(t, s)
    requires s.p in pages && pages[s.p] == t.pages[s.p]
    requires pages[s.p := RemoveSep(pages[s.p], s.i)] == MergeInternalPages(t.pages, s)
    ensures IsPath(t.pages, t.root, s.p, path) <==> IsPath(pages, t.root, s.p, path)
  {
    PairFacts(t, s);
    var m := MergeInternalPages(t.pages, s);
    assert EdgeOk(t, s.p, s.i) && EdgeOk(t, s.p, s.i + 1);
    forall k | 0 <= k <= |t.pages[s.r].seps|
      ensures var x := Child(t.pages[s.r], k); x in t.pages && t.meta[x].level < t.meta[s.r].level
    {
      assert EdgeOk(t, s.r, k);
    }
    forall x | x in t.pages && x != s.p && t.meta[x].level >= t.meta[s.p].level ensures KeptAbove(t, pages, x) {
      assert x !in AllChildren(t.pages[s.r]);
      assert x in m && m[x] == t.pages[x];
      assert pages[x] == m[x];
    }
    PathStays(t, s.p, pages, path);
  }
}
