/** Splitting a child of an internal page. */
module TreeSplit {
  import opened Keys
  import opened TreeModel

  // The right half of child number i moves to a new page, and a separator for that page is inserted into the parent.

  function InsertAt<T>(s: seq<T>, i: nat, x: T): seq<T>
    requires i <= |s|
  {
    s[..i] + [x] + s[i..]
  }

  function InsertSep(n: Node, i: nat, s: Sep): Node
    requires n.Internal? && i <= |n.seps|
  {
    n.(seps := InsertAt(n.seps, i, s))
  }

  lemma InsertIntoEmpty(n: Node, s: Sep)
    requires n.Internal? && n.seps == []
    ensures InsertSep(n, 0, s) == n.(seps := [s])
  {
  }

  /** Where the children of a parent land when a separator is inserted at slot i. */
  lemma InsertSepShifts(n: Node, m: Meta, i: nat, s: Sep)
    requires n.Internal? && i <= |n.seps|
    ensures var n' := InsertSep(n, i, s);
            && |n'.seps| == |n.seps| + 1
            && (forall k :: 0 <= k <= i ==> Child(n', k) == Child(n, k) && Fence(n', m, k) == Fence(n, m, k))
            && Child(n', i + 1) == s.child && Fence(n', m, i + 1) == Rank(s.key)
            && (forall k :: i < k <= |n.seps| ==> Child(n', k + 1) == Child(n, k))
            && (forall k :: i < k <= |n.seps| + 1 ==> Fence(n', m, k + 1) == Fence(n, m, k))
  {
    var n' := InsertSep(n, i, s);
    forall k | i < k <= |n.seps| + 1
      ensures Fence(n', m, k + 1) == Fence(n, m, k)
    {
      if k <= |n.seps| { assert n'.seps[k] == n.seps[k - 1]; }
    }
  }

  /** Inserting a key strictly between two neighbouring fences keeps them rising. */
  lemma InsertSepRises(n: Node, m: Meta, i: nat, s: Sep)
    requires n.Internal? && i <= |n.seps| && FencesRise(n, m)
    requires Fence(n, m, i) < Rank(s.key) < Fence(n, m, i + 1)
    ensures FencesRise(InsertSep(n, i, s), m)
  {
    InsertSepShifts(n, m, i, s);
    var n' := InsertSep(n, i, s);
    forall a, b | 0 <= a < b <= |n'.seps| + 1
      ensures Fence(n', m, a) < Fence(n', m, b)
    {
      if a == i + 1 {
        if i + 1 < b - 1 { assert Fence(n, m, i + 1) < Fence(n, m, b - 1); }
      } else if b == i + 1 {
        if a < i { assert Fence(n, m, a) < Fence(n, m, i); }
      } else {
        assert Fence(n', m, a) == Fence(n, m, if a <= i then a else a - 1);
        assert Fence(n', m, b) == Fence(n, m, if b <= i then b else b - 1);
      }
    }
  }

  // ── What leaf and internal splits have in common ──

  /** Page l, child i of p, keeps the keys below `key`; the new page r takes the rest. */
  datatype Site = Site(p: PageId, i: nat, l: PageId, key: Bytes, r: PageId)

  ghost predicate SiteOk(t: Tree, s: Site) {
    && Struct(t)
    && IsSlot(t, s.p, s.i, s.l)
    && s.l in t.pages
    && t.meta[s.l].lo < Rank(s.key) < t.meta[s.l].hi
    && s.r !in t.pages && s.r != 0
  }

  ghost function SplitMeta(t: Tree, s: Site): map<PageId, Meta>
    requires s.l in t.meta
  {
    var m := t.meta[s.l];
    t.meta[s.l := m.(hi := Rank(s.key))][s.r := m.(lo := Rank(s.key))]
  }

  /** t' is t after a split, whatever the halves hold; the pages in `moved` are now children of r. */
  ghost predicate SplitShape(t: Tree, t': Tree, s: Site, moved: set<PageId>)
    requires SiteOk(t, s)
  {
    && t'.root == t.root
    && t'.pages.Keys == t.pages.Keys + {s.r}
    && t'.meta == SplitMeta(t, s)
    && t'.pages[s.p] == InsertSep(t.pages[s.p], s.i, Sep(s.key, s.r))
    && t'.pages[s.l].parent == s.p && t'.pages[s.r].parent == s.p
    && t'.pages[s.l].Leaf? == t'.pages[s.r].Leaf? == t.pages[s.l].Leaf?
    && (forall id :: id in t.pages && id != s.p && id != s.l ==>
          && SameBody(t.pages[id], t'.pages[id])
          && t'.pages[id].parent == if id in moved then s.r else t.pages[id].parent)
    && (forall id :: id in moved ==> id in t.pages && t.pages[id].parent == s.l)
  }

  lemma SplitNodes(t: Tree, t': Tree, s: Site, moved: set<PageId>)
    requires SiteOk(t, s) && SplitShape(t, t', s, moved)
    requires NodeOk(t'.pages[s.l], t'.meta[s.l]) && NodeOk(t'.pages[s.r], t'.meta[s.r])
    ensures Domains(t') && NodesOk(t')
  {
    assert EdgeOk(t, s.p, s.i);
    assert NodeOk(t.pages[s.p], t.meta[s.p]);
    InsertSepRises(t.pages[s.p], t.meta[s.p], s.i, Sep(s.key, s.r));
    forall id | id in t'.pages ensures NodeOk(t'.pages[id], t'.meta[id]) {
      if id != s.l && id != s.r && id != s.p { SameBodyOk(t.pages[id], t'.pages[id], t.meta[id]); }
    }
  }

  lemma SplitEdgeOfParent(t: Tree, t': Tree, s: Site, moved: set<PageId>, k: nat)
    requires SiteOk(t, s) && SplitShape(t, t', s, moved)
    requires Domains(t') && k <= |t'.pages[s.p].seps|
    ensures EdgeOk(t', s.p, k)
  {
    hide ParentsOk, RootOk, ChainOk, Rank;
    assert EdgeOk(t, s.p, s.i);
    InsertSepShifts(t.pages[s.p], t.meta[s.p], s.i, Sep(s.key, s.r));
    if k != s.i + 1 {
      var k' := if k <= s.i then k else k - 1;
      assert EdgeOk(t, s.p, k');
      if Child(t.pages[s.p], k') == s.l { SlotUnique(t, s.p, k', s.i, s.l); }
    }
  }

  lemma SplitEdgeElsewhere(t: Tree, t': Tree, s: Site, moved: set<PageId>, q: PageId, k: nat)
    requires SiteOk(t, s) && SplitShape(t, t', s, moved)
    requires Domains(t') && q in t.pages && q != s.p && q != s.l
    requires t'.pages[q].Internal? && k <= |t'.pages[q].seps|
    ensures EdgeOk(t', q, k)
  {
    assert EdgeOk(t, s.p, s.i);
    assert EdgeOk(t, q, k);
  }

  lemma SplitParent(t: Tree, t': Tree, s: Site, moved: set<PageId>, id: PageId)
    requires SiteOk(t, s) && SplitShape(t, t', s, moved)
    requires id in t.pages && id != t.root && t.pages[id].parent != s.l
    ensures HasSlot(t', id)
  {
    assert EdgeOk(t, s.p, s.i);
    InsertSepShifts(t.pages[s.p], t.meta[s.p], s.i, Sep(s.key, s.r));
    assert HasSlot(t, id);
    var k: nat :| IsSlot(t, t.pages[id].parent, k, id);
    assert t'.pages[id].parent == t.pages[id].parent;
    assert IsSlot(t', t'.pages[id].parent, if t.pages[id].parent == s.p && k > s.i then k + 1 else k, id);
  }

  lemma SplitRoot(t: Tree, t': Tree, s: Site, moved: set<PageId>)
    requires SiteOk(t, s) && SplitShape(t, t', s, moved)
    ensures Domains(t') && RootOk(t')
  {
    assert EdgeOk(t, s.p, s.i);
  }

  // ── Leaf split ──

  /** The leaf l is cut before its entry `mid`; the rest moves to r, linked after l. */
  function HalveLeaf(pages: map<PageId, Node>, l: PageId, mid: nat, r: PageId): map<PageId, Node>
    requires l in pages && pages[l].Leaf? && mid <= |pages[l].entries| && r !in pages
    requires pages[l].next != 0 ==> pages[l].next in pages
  {
    var n := pages[l];
    var halves := pages[r := Leaf(n.parent, l, n.next, n.entries[mid..])]
                       [l := n.(next := r, entries := n.entries[..mid])];
    if n.next != 0 then halves[n.next := WithPrev(halves[n.next], r)] else halves
  }

  function SplitLeafPages(pages: map<PageId, Node>, s: Site, mid: nat): map<PageId, Node>
    requires s.p in pages && pages[s.p].Internal? && s.i <= |pages[s.p].seps|
    requires s.l in pages && pages[s.l].Leaf? && mid < |pages[s.l].entries| && s.r !in pages
    requires pages[s.l].next != 0 ==> pages[s.l].next in pages
  {
    HalveLeaf(pages, s.l, mid, s.r)[s.p := InsertSep(pages[s.p], s.i, Sep(s.key, s.r))]
  }

  /** The leaf l sits at place c of the chain and is cut before its entry `mid`. */
  ghost predicate CanSplitLeaf(t: Tree, s: Site, mid: nat, c: nat) {
    && Struct(t)
    && IsSlot(t, s.p, s.i, s.l)
    && c < |t.chain| && t.chain[c] == s.l
    && s.l in t.pages && t.pages[s.l].Leaf?
    && 0 < mid < |t.pages[s.l].entries|
    && s.key == t.pages[s.l].entries[mid].key
    && s.r !in t.pages && s.r != 0
  }

  ghost function SplitLeaf(t: Tree, s: Site, mid: nat, c: nat): Tree
    requires CanSplitLeaf(t, s, mid, c)
  {
    assert LinkOk(t, c);
    Tree(SplitLeafPages(t.pages, s, mid), t.root, SplitMeta(t, s), InsertAt(t.chain, c + 1, s.r))
  }

  lemma SplitLeafSite(t: Tree, s: Site, mid: nat, c: nat)
    requires CanSplitLeaf(t, s, mid, c)
    ensures SiteOk(t, s)
  {
    var n := t.pages[s.l];
    assert NodeOk(n, t.meta[s.l]);
    assert Rank(n.entries[mid - 1].key) < Rank(n.entries[mid].key);
  }

  lemma SplitLeafShape(t: Tree, s: Site, mid: nat, c: nat)
    requires CanSplitLeaf(t, s, mid, c) && SiteOk(t, s)
    ensures SplitShape(t, SplitLeaf(t, s, mid, c), s, {})
  {
    assert EdgeOk(t, s.p, s.i);
    assert LinkOk(t, c);
    if c + 1 < |t.chain| {
      assert LinkOk(t, c + 1);
      assert NodeOk(t.pages[s.l], t.meta[s.l]);
    }
  }

  lemma SplitLeafHalves(t: Tree, s: Site, mid: nat, c: nat)
    requires CanSplitLeaf(t, s, mid, c) && SiteOk(t, s)
    ensures var t' := SplitLeaf(t, s, mid, c);
            var n := t.pages[s.l];
            && t'.pages[s.l] == n.(next := s.r, entries := n.entries[..mid])
            && t'.pages[s.r] == Leaf(s.p, s.l, n.next, n.entries[mid..])
            && NodeOk(t'.pages[s.l], t'.meta[s.l])
            && NodeOk(t'.pages[s.r], t'.meta[s.r])
  {
    assert EdgeOk(t, s.p, s.i);
    assert LinkOk(t, c);
    if c + 1 < |t.chain| { assert LinkOk(t, c + 1); }
    assert NodeOk(t.pages[s.l], t.meta[s.l]);
  }

  lemma ChainPlace(t: Tree, a: nat, b: nat)
    requires Domains(t) && NodesOk(t) && ChainOk(t)
    requires a < |t.chain| && b < |t.chain| && a != b
    ensures t.chain[a] != t.chain[b]
  {
    ChainRises(t, if a < b then a else b, if a < b then b else a);
  }

  /** The page r is linked into the leaf chain after l. */
  ghost predicate LinkedAfter(t: Tree, t': Tree, s: Site, c: nat)
    requires s.l in t.pages && t.pages[s.l].Leaf? && s.l in t.meta && c < |t.chain|
  {
    && t'.chain == InsertAt(t.chain, c + 1, s.r)
    && t'.meta == SplitMeta(t, s)
    && t'.pages.Keys == t.pages.Keys + {s.r}
    && t'.pages[s.l].Leaf? && t'.pages[s.l].prev == t.pages[s.l].prev && t'.pages[s.l].next == s.r
    && t'.pages[s.r].Leaf? && t'.pages[s.r].prev == s.l && t'.pages[s.r].next == t.pages[s.l].next
    && (forall id :: id in t.pages && t.pages[id].Leaf? && id != s.l ==>
          && t'.pages[id].Leaf?
          && t'.pages[id].next == t.pages[id].next
          && t'.pages[id].prev == if id == t.pages[s.l].next then s.r else t.pages[id].prev)
  }

  lemma SplitLeafLinked(t: Tree, s: Site, mid: nat, c: nat)
    requires CanSplitLeaf(t, s, mid, c) && SiteOk(t, s)
    ensures LinkedAfter(t, SplitLeaf(t, s, mid, c), s, c)
  {
    SplitLeafHalves(t, s, mid, c);
    assert LinkOk(t, c);
    if c + 1 < |t.chain| { assert LinkOk(t, c + 1); }
  }

  lemma LinkedAfterLink(t: Tree, t': Tree, s: Site, c: nat, k: nat)
    requires SiteOk(t, s) && c < |t.chain| && t.chain[c] == s.l && t.pages[s.l].Leaf?
    requires LinkedAfter(t, t', s, c) && Domains(t')
    requires k < |t.chain| && k != c
    ensures var k' := if k < c then k else k + 1;
            t'.chain[k'] == t.chain[k] && t'.chain[k'] in t'.pages
            && (k' > 0 ==> t'.chain[k' - 1] in t'.pages) && LinkOk(t', k')
  {
    hide NodesOk, EdgesOk, ParentsOk, RootOk, ChainOk, IsSlot;
    LinkAt(t, c);
    LinkAt(t, k);
    ChainPlace(t, k, c);
    if k > 0 && k != c + 1 { ChainPlace(t, k - 1, c); }
    if c + 1 < |t.chain| && k != c + 1 { ChainPlace(t, k, c + 1); }
  }

  /** The two halves are linked to their neighbours and to each other. */
  lemma NewLink(t: Tree, t': Tree, s: Site, c: nat, k: nat)
    requires SiteOk(t, s) && c < |t.chain| && t.chain[c] == s.l && t.pages[s.l].Leaf?
    requires LinkedAfter(t, t', s, c) && Domains(t')
    requires k == c || k == c + 1
    ensures t'.chain[k] in t'.pages && (k > 0 ==> t'.chain[k - 1] in t'.pages) && LinkOk(t', k)
  {
    hide NodesOk, EdgesOk, ParentsOk, RootOk, ChainOk, IsSlot;
    LinkAt(t, c);
    if c > 0 {
      LinkAt(t, c - 1);
      ChainPlace(t, c - 1, c);
    }
  }

  lemma SplitLeafChain(t: Tree, s: Site, mid: nat, c: nat)
    requires CanSplitLeaf(t, s, mid, c) && SiteOk(t, s)
    ensures Domains(SplitLeaf(t, s, mid, c)) && ChainOk(SplitLeaf(t, s, mid, c))
  {
    hide NodesOk, EdgesOk, ParentsOk, RootOk, IsSlot;
    SplitLeafLinked(t, s, mid, c);
    var t' := SplitLeaf(t, s, mid, c);
    assert forall k :: 0 <= k < |t'.chain| ==> t'.chain[k] in t'.pages;
    forall k {:trigger LinkOk(t', k)} | 0 <= k < |t'.chain|
      ensures LinkOk(t', k)
    {
      if k < c { LinkedAfterLink(t, t', s, c, k); }
      else if k > c + 1 { LinkedAfterLink(t, t', s, c, k - 1); }
      else { NewLink(t, t', s, c, k); }
    }
    forall id | id in t'.pages && t'.pages[id].Leaf?
      ensures OnChain(t', id)
    {
      SplitLeafOnChain(t, s, mid, c, id);
    }
  }

  lemma SplitLeafOnChain(t: Tree, s: Site, mid: nat, c: nat, id: PageId)
    requires CanSplitLeaf(t, s, mid, c) && SiteOk(t, s)
    requires var t' := SplitLeaf(t, s, mid, c); id in t'.pages && t'.pages[id].Leaf?
    ensures OnChain(SplitLeaf(t, s, mid, c), id)
  {
    SplitLeafShape(t, s, mid, c);
    var t' := SplitLeaf(t, s, mid, c);
    if id == s.r {
      assert t'.chain[c + 1] == id;
    } else {
      assert OnChain(t, id);
      var k :| 0 <= k < |t.chain| && t.chain[k] == id;
      assert t'.chain[if k <= c then k else k + 1] == id;
    }
  }

  lemma SplitLeafKeepsStruct(t: Tree, s: Site, mid: nat, c: nat)
    requires CanSplitLeaf(t, s, mid, c)
    ensures Struct(SplitLeaf(t, s, mid, c))
  {
    SplitLeafSite(t, s, mid, c);
    SplitLeafHalves(t, s, mid, c);
    SplitLeafShape(t, s, mid, c);
    SplitLeafChain(t, s, mid, c);
    var t' := SplitLeaf(t, s, mid, c);
    SplitNodes(t, t', s, {});
    SplitRoot(t, t', s, {});
    forall q, k {:trigger EdgeOk(t', q, k)} | q in t'.pages && t'.pages[q].Internal? && 0 <= k <= |t'.pages[q].seps|
      ensures EdgeOk(t', q, k)
    {
      if q == s.p { SplitEdgeOfParent(t, t', s, {}, k); } else { SplitEdgeElsewhere(t, t', s, {}, q, k); }
    }
    forall id | id in t'.pages && id != t'.root
      ensures HasSlot(t', id)
    {
      if id == s.r { SplitNewSlot(t, t', s, {}); } else { SplitLeafSlot(t, t', s, id); }
    }
  }

  lemma SplitNewSlot(t: Tree, t': Tree, s: Site, moved: set<PageId>)
    requires SiteOk(t, s) && SplitShape(t, t', s, moved)
    ensures HasSlot(t', s.r)
  {
    InsertSepShifts(t.pages[s.p], t.meta[s.p], s.i, Sep(s.key, s.r));
    assert IsSlot(t', s.p, s.i + 1, s.r);
  }

  /** No page hangs below a leaf. */
  lemma SplitLeafSlot(t: Tree, t': Tree, s: Site, id: PageId)
    requires SiteOk(t, s) && SplitShape(t, t', s, {}) && t.pages[s.l].Leaf?
    requires id in t.pages && id != t.root
    ensures HasSlot(t', id)
  {
    assert HasSlot(t, id);
    SplitParent(t, t', s, {}, id);
  }

  // ── Internal split ──

  /** The children of l from slot mid + 1 on. */
  function MovedChildren(n: Node, mid: nat): set<PageId>
    requires n.Internal?
  {
    set k {:trigger Child(n, k)} | mid < k <= |n.seps| :: Child(n, k)
  }

  lemma SameBodySameChildren(n: Node, n': Node, mid: nat)
    requires n.Internal? && SameBody(n, n')
    ensures MovedChildren(n, mid) == MovedChildren(n', mid)
  {
    assert forall k :: 0 <= k <= |n.seps| ==> Child(n, k) == Child(n', k);
  }

  /** Separator `mid` of l is promoted; what lies right of it moves to r. */
  function HalveInternal(pages: map<PageId, Node>, l: PageId, mid: nat, r: PageId): map<PageId, Node>
    requires l in pages && pages[l].Internal? && mid < |pages[l].seps|
  {
    var n := pages[l];
    Reparent(pages[r := Internal(n.parent, n.seps[mid].child, n.seps[mid + 1..])][l := n.(seps := n.seps[..mid])],
             MovedChildren(n, mid), r)
  }

  function SplitInternalPages(pages: map<PageId, Node>, s: Site, mid: nat): map<PageId, Node>
    requires s.p in pages && pages[s.p].Internal? && s.i <= |pages[s.p].seps|
    requires s.l in pages && pages[s.l].Internal? && mid < |pages[s.l].seps|
  {
    HalveInternal(pages, s.l, mid, s.r)[s.p := InsertSep(pages[s.p], s.i, Sep(s.key, s.r))]
  }

  ghost predicate CanSplitInternal(t: Tree, s: Site, mid: nat) {
    && Struct(t)
    && IsSlot(t, s.p, s.i, s.l)
    && s.l in t.pages && t.pages[s.l].Internal?
    && mid < |t.pages[s.l].seps|
    && s.key == t.pages[s.l].seps[mid].key
    && s.r !in t.pages && s.r != 0
  }

  lemma SplitInternalSite(t: Tree, s: Site, mid: nat)
    requires CanSplitInternal(t, s, mid)
    ensures SiteOk(t, s) && s.p != s.l
    ensures Fence(t.pages[s.l], t.meta[s.l], mid + 1) == Rank(s.key)
  {
    assert NodeOk(t.pages[s.l], t.meta[s.l]);
    assert EdgeOk(t, s.p, s.i);
    assert Fence(t.pages[s.l], t.meta[s.l], 0) < Fence(t.pages[s.l], t.meta[s.l], mid + 1)
        < Fence(t.pages[s.l], t.meta[s.l], |t.pages[s.l].seps| + 1);
  }

  ghost function SplitInternal(t: Tree, s: Site, mid: nat): Tree
    requires CanSplitInternal(t, s, mid)
  {
    SplitInternalSite(t, s, mid);
    Tree(SplitInternalPages(t.pages, s, mid), t.root, SplitMeta(t, s), t.chain)
  }

  /** A moved child is a child of l and of no other page. */
  lemma MovedBelow(t: Tree, s: Site, mid: nat, id: PageId)
    requires CanSplitInternal(t, s, mid) && id in MovedChildren(t.pages[s.l], mid)
    ensures id in t.pages && t.pages[id].parent == s.l && id != s.l && id != s.p
  {
    var k :| mid < k <= |t.pages[s.l].seps| && Child(t.pages[s.l], k) == id;
    assert EdgeOk(t, s.l, k) && EdgeOk(t, s.p, s.i);
  }

  lemma SplitInternalShape(t: Tree, s: Site, mid: nat)
    requires CanSplitInternal(t, s, mid)
    ensures SiteOk(t, s)
    ensures SplitShape(t, SplitInternal(t, s, mid), s, MovedChildren(t.pages[s.l], mid))
    ensures var t' := SplitInternal(t, s, mid);
            var n := t.pages[s.l];
            && t'.pages[s.l] == n.(seps := n.seps[..mid])
            && t'.pages[s.r] == Internal(s.p, n.seps[mid].child, n.seps[mid + 1..])
  {
    SplitInternalSite(t, s, mid);
    assert EdgeOk(t, s.p, s.i);
    var moved := MovedChildren(t.pages[s.l], mid);
    forall id | id in moved ensures id in t.pages && t.pages[id].parent == s.l && id != s.l && id != s.p {
      MovedBelow(t, s, mid, id);
    }
  }

  /** The halves of an internal page: which child and which fence goes where. */
  lemma HalvesShift(n: Node, m: Meta, mid: nat, l: Node, r: Node)
    requires n.Internal? && mid < |n.seps|
    requires l.Internal? && l.first == n.first && l.seps == n.seps[..mid]
    requires r.Internal? && r.first == n.seps[mid].child && r.seps == n.seps[mid + 1..]
    ensures var cut := Rank(n.seps[mid].key);
            && (forall k :: 0 <= k <= mid ==> Child(l, k) == Child(n, k))
            && (forall k :: 0 <= k <= mid + 1 ==> Fence(l, m.(hi := cut), k) == Fence(n, m, k))
            && (forall k :: 0 <= k <= |r.seps| ==> Child(r, k) == Child(n, k + mid + 1))
            && (forall k :: 0 <= k <= |r.seps| + 1 ==> Fence(r, m.(lo := cut), k) == Fence(n, m, k + mid + 1))
  {
  }

  lemma HalvesOk(n: Node, m: Meta, mid: nat, l: Node, r: Node)
    requires n.Internal? && mid < |n.seps| && NodeOk(n, m)
    requires l.Internal? && l.first == n.first && l.seps == n.seps[..mid]
    requires r.Internal? && r.first == n.seps[mid].child && r.seps == n.seps[mid + 1..]
    ensures var cut := Rank(n.seps[mid].key);
            NodeOk(l, m.(hi := cut)) && NodeOk(r, m.(lo := cut))
  {
    HalvesShift(n, m, mid, l, r);
    assert Fence(n, m, 0) < Fence(n, m, mid + 1) < Fence(n, m, |n.seps| + 1);
  }

  lemma SplitEdgeOfHalf(t: Tree, s: Site, mid: nat, q: PageId, k: nat)
    requires CanSplitInternal(t, s, mid)
    requires Domains(SplitInternal(t, s, mid))
    requires q == s.l || q == s.r
    requires SplitInternal(t, s, mid).pages[q].Internal? && k <= |SplitInternal(t, s, mid).pages[q].seps|
    ensures EdgeOk(SplitInternal(t, s, mid), q, k)
  {
    SplitInternalShape(t, s, mid);
    var t' := SplitInternal(t, s, mid);
    var n := t.pages[s.l];
    HalvesShift(n, t.meta[s.l], mid, t'.pages[s.l], t'.pages[s.r]);
    var k' := if q == s.l then k else k + mid + 1;
    assert EdgeOk(t, s.l, k');
    HalfChild(t, s, mid, k');
  }

  /** Child k of l moves exactly when it lies right of the cut. */
  lemma HalfChild(t: Tree, s: Site, mid: nat, k: nat)
    requires CanSplitInternal(t, s, mid) && k <= |t.pages[s.l].seps|
    ensures var c := Child(t.pages[s.l], k);
            && c in t.pages && c != s.l && c != s.p && c != s.r
            && (c in MovedChildren(t.pages[s.l], mid) <==> mid < k)
  {
    assert EdgeOk(t, s.l, k) && EdgeOk(t, s.p, s.i);
    var c := Child(t.pages[s.l], k);
    if c in MovedChildren(t.pages[s.l], mid) {
      var j :| mid < j <= |t.pages[s.l].seps| && Child(t.pages[s.l], j) == c;
      SlotUnique(t, s.l, j, k, c);
    }
  }

  lemma SplitInternalSlot(t: Tree, s: Site, mid: nat, id: PageId)
    requires CanSplitInternal(t, s, mid)
    requires id in t.pages && id != t.root
    ensures id in SplitInternal(t, s, mid).pages && HasSlot(SplitInternal(t, s, mid), id)
  {
    SplitInternalShape(t, s, mid);
    var t' := SplitInternal(t, s, mid);
    if t.pages[id].parent != s.l {
      SplitParent(t, t', s, MovedChildren(t.pages[s.l], mid), id);
    } else {
      assert HasSlot(t, id);
      var k: nat :| IsSlot(t, s.l, k, id);
      HalfChild(t, s, mid, k);
      HalvesShift(t.pages[s.l], t.meta[s.l], mid, t'.pages[s.l], t'.pages[s.r]);
      if mid < k { assert IsSlot(t', s.r, k - mid - 1, id); } else { assert IsSlot(t', s.l, k, id); }
    }
  }

  /** No leaf but for its parent changes when an internal page is cut. */
  lemma LeafUncut(t: Tree, s: Site, mid: nat, id: PageId)
    requires CanSplitInternal(t, s, mid) && id in t.pages && t.pages[id].Leaf?
    ensures var t' := SplitInternal(t, s, mid);
            && id in t'.pages && id in t'.meta && t'.meta[id] == t.meta[id]
            && t'.pages[id] == WithParent(t.pages[id], t'.pages[id].parent)
  {
    hide NodesOk, ParentsOk, RootOk, ChainOk;
    assert EdgeOk(t, s.p, s.i);
  }

  /** No leaf changes, except for the parent pointers of moved ones. */
  lemma SplitInternalChain(t: Tree, s: Site, mid: nat)
    requires CanSplitInternal(t, s, mid)
    ensures Domains(SplitInternal(t, s, mid)) && ChainOk(SplitInternal(t, s, mid))
  {
    hide NodesOk, EdgesOk, ParentsOk, RootOk;
    SplitInternalShape(t, s, mid);
    var t' := SplitInternal(t, s, mid);
    forall id | id in t.pages && t.pages[id].Leaf?
      ensures t'.pages[id] == WithParent(t.pages[id], t'.pages[id].parent) && t'.meta[id] == t.meta[id]
    {
      LeafUncut(t, s, mid, id);
    }
    forall k {:trigger LinkOk(t', k)} | 0 <= k < |t'.chain|
      ensures LinkOk(t', k)
    {
      assert LinkOk(t, k);
      if k > 0 { assert LinkOk(t, k - 1); }
    }
    forall id | id in t'.pages && t'.pages[id].Leaf?
      ensures OnChain(t', id)
    {
      assert OnChain(t, id);
    }
  }

  lemma SplitInternalKeepsStruct(t: Tree, s: Site, mid: nat)
    requires CanSplitInternal(t, s, mid)
    ensures Struct(SplitInternal(t, s, mid))
  {
    SplitInternalSite(t, s, mid);
    SplitInternalShape(t, s, mid);
    SplitInternalChain(t, s, mid);
    var t' := SplitInternal(t, s, mid);
    var moved := MovedChildren(t.pages[s.l], mid);
    assert NodeOk(t.pages[s.l], t.meta[s.l]);
    HalvesOk(t.pages[s.l], t.meta[s.l], mid, t'.pages[s.l], t'.pages[s.r]);
    SplitNodes(t, t', s, moved);
    SplitRoot(t, t', s, moved);
    forall q, k {:trigger EdgeOk(t', q, k)} | q in t'.pages && t'.pages[q].Internal? && 0 <= k <= |t'.pages[q].seps|
      ensures EdgeOk(t', q, k)
    {
      if q == s.p { SplitEdgeOfParent(t, t', s, moved, k); }
      else if q == s.l || q == s.r { SplitEdgeOfHalf(t, s, mid, q, k); }
      else { SplitEdgeElsewhere(t, t', s, moved, q, k); }
    }
    forall id | id in t'.pages && id != t'.root
      ensures HasSlot(t', id)
    {
      if id == s.r { SplitNewSlot(t, t', s, moved); } else { SplitInternalSlot(t, s, mid, id); }
    }
  }
}
