/** Merging two neighbouring children of a page. */
module TreeMerge {
  import opened Keys
  import opened TreeModel
  import opened TreeSplit

  // The right one is emptied into the left one and freed, and the separator between them leaves the parent.

  function RemoveAt<T>(s: seq<T>, i: nat): seq<T>
    requires i < |s|
  {
    s[..i] + s[i + 1..]
  }

  function RemoveSep(n: Node, i: nat): Node
    requires n.Internal? && i < |n.seps|
  {
    n.(seps := RemoveAt(n.seps, i))
  }

  /** Where the children of a parent land when separator i and the child right of it go. */
  lemma RemoveSepShifts(n: Node, m: Meta, i: nat)
    requires n.Internal? && i < |n.seps|
    ensures var n' := RemoveSep(n, i);
            && |n'.seps| == |n.seps| - 1
            && (forall k :: 0 <= k <= i ==> Child(n', k) == Child(n, k) && Fence(n', m, k) == Fence(n, m, k))
            && (forall k :: i < k <= |n'.seps| ==> Child(n', k) == Child(n, k + 1))
            && (forall k :: i < k <= |n'.seps| + 1 ==> Fence(n', m, k) == Fence(n, m, k + 1))
  {
    var n' := RemoveSep(n, i);
    forall k | i < k <= |n'.seps| + 1
      ensures Fence(n', m, k) == Fence(n, m, k + 1)
    {
      if k <= |n'.seps| { assert n'.seps[k - 1] == n.seps[k]; }
    }
  }

  lemma RemoveSepRises(n: Node, m: Meta, i: nat)
    requires n.Internal? && i < |n.seps| && FencesRise(n, m)
    ensures FencesRise(RemoveSep(n, i), m)
  {
    RemoveSepShifts(n, m, i);
  }

  // ── What leaf and internal merges have in common ──

  /** Pages l and r are children i and i + 1 of p, with `key` between them. */
  ghost predicate PairOk(t: Tree, s: Site) {
    && Struct(t)
    && IsSlot(t, s.p, s.i, s.l)
    && IsSlot(t, s.p, s.i + 1, s.r)
    && s.key == t.pages[s.p].seps[s.i].key
  }

  /** The pair lies under p, one level down, and the key ranges of l and r meet at the separator. */
  lemma PairFacts(t: Tree, s: Site)
    requires PairOk(t, s)
    ensures s.l in t.pages && s.r in t.pages && s.l != s.r && s.p != s.l && s.p != s.r && s.r != t.root && s.l != t.root
    ensures t.pages[s.l].parent == s.p && t.pages[s.r].parent == s.p
    ensures t.meta[s.l].level == t.meta[s.r].level && t.pages[s.l].Leaf? == t.pages[s.r].Leaf?
    ensures t.meta[s.l].hi == Rank(s.key) == t.meta[s.r].lo
    ensures t.meta[s.l].lo < Rank(s.key) < t.meta[s.r].hi
  {
    assert EdgeOk(t, s.p, s.i) && EdgeOk(t, s.p, s.i + 1);
    assert NodeOk(t.pages[s.p], t.meta[s.p]) && NodeOk(t.pages[s.l], t.meta[s.l]) && NodeOk(t.pages[s.r], t.meta[s.r]);
  }

  ghost function MergeMeta(t: Tree, s: Site): map<PageId, Meta>
    requires s.l in t.meta && s.r in t.meta
  {
    t.meta[s.l := t.meta[s.l].(hi := t.meta[s.r].hi)] - {s.r}
  }

  /** t' is t after a merge, whatever l holds now; the pages in `moved` left r for l. */
  ghost predicate MergeShape(t: Tree, t': Tree, s: Site, moved: set<PageId>)
    requires PairOk(t, s)
  {
    && s.l in t.pages && s.r in t.pages
    && t'.root == t.root
    && t'.pages.Keys == t.pages.Keys - {s.r}
    && t'.meta == MergeMeta(t, s)
    && s.p in t'.pages && t'.pages[s.p] == RemoveSep(t.pages[s.p], s.i)
    && s.l in t'.pages && t'.pages[s.l].parent == s.p && t'.pages[s.l].Leaf? == t.pages[s.l].Leaf?
    && (forall id :: id in t'.pages && id != s.p && id != s.l ==>
          && SameBody(t.pages[id], t'.pages[id])
          && t'.pages[id].parent == if id in moved then s.l else t.pages[id].parent)
    && (forall id :: id in moved ==> id in t.pages && t.pages[id].parent == s.r)
  }

  lemma MergeNodes(t: Tree, t': Tree, s: Site, moved: set<PageId>)
    requires PairOk(t, s) && MergeShape(t, t', s, moved)
    requires NodeOk(t'.pages[s.l], t'.meta[s.l])
    ensures Domains(t') && NodesOk(t')
  {
    PairFacts(t, s);
    assert NodeOk(t.pages[s.p], t.meta[s.p]);
    RemoveSepRises(t.pages[s.p], t.meta[s.p], s.i);
    forall id | id in t'.pages ensures NodeOk(t'.pages[id], t'.meta[id]) {
      if id != s.l && id != s.p { SameBodyOk(t.pages[id], t'.pages[id], t.meta[id]); }
    }
  }

  lemma MergeEdgeOfParent(t: Tree, t': Tree, s: Site, moved: set<PageId>, k: nat)
    requires PairOk(t, s) && MergeShape(t, t', s, moved)
    requires Domains(t') && k <= |t'.pages[s.p].seps|
    ensures EdgeOk(t', s.p, k)
  {
    PairFacts(t, s);
    RemoveSepShifts(t.pages[s.p], t.meta[s.p], s.i);
    var k' := if k <= s.i then k else k + 1;
    assert EdgeOk(t, s.p, k') && EdgeOk(t, s.p, s.i) && EdgeOk(t, s.p, s.i + 1);
    if Child(t.pages[s.p], k') == s.l { SlotUnique(t, s.p, k', s.i, s.l); }
    if Child(t.pages[s.p], k') == s.r { SlotUnique(t, s.p, k', s.i + 1, s.r); }
  }

  lemma MergeEdgeElsewhere(t: Tree, t': Tree, s: Site, moved: set<PageId>, q: PageId, k: nat)
    requires PairOk(t, s) && MergeShape(t, t', s, moved)
    requires Domains(t') && q in t'.pages && q != s.p && q != s.l
    requires t'.pages[q].Internal? && k <= |t'.pages[q].seps|
    ensures EdgeOk(t', q, k)
  {
    PairFacts(t, s);
    assert EdgeOk(t, q, k);
  }

  lemma MergeParent(t: Tree, t': Tree, s: Site, moved: set<PageId>, id: PageId)
    requires PairOk(t, s) && MergeShape(t, t', s, moved)
    requires id in t'.pages && id != t.root && t.pages[id].parent != s.l && t.pages[id].parent != s.r
    ensures HasSlot(t', id)
  {
    PairFacts(t, s);
    RemoveSepShifts(t.pages[s.p], t.meta[s.p], s.i);
    assert HasSlot(t, id);
    var k: nat :| IsSlot(t, t.pages[id].parent, k, id);
    assert t'.pages[id].parent == t.pages[id].parent;
    assert IsSlot(t', t'.pages[id].parent, if t.pages[id].parent == s.p && k > s.i then k - 1 else k, id);
  }

  lemma MergeRoot(t: Tree, t': Tree, s: Site, moved: set<PageId>)
    requires PairOk(t, s) && MergeShape(t, t', s, moved)
    ensures Domains(t') && RootOk(t')
  {
    PairFacts(t, s);
  }

  // ── Leaf merge ──

  function MergeLeafPages(pages: map<PageId, Node>, s: Site): map<PageId, Node>
    requires s.p in pages && pages[s.p].Internal? && s.i < |pages[s.p].seps|
    requires s.l in pages && pages[s.l].Leaf? && s.r in pages && pages[s.r].Leaf?
    requires pages[s.r].next != 0 ==> pages[s.r].next in pages
  {
    var merged := pages[s.l := pages[s.l].(next := pages[s.r].next, entries := pages[s.l].entries + pages[s.r].entries)];
    var next := pages[s.r].next;
    var linked := if next != 0 then merged[next := WithPrev(merged[next], s.l)] else merged;
    (linked - {s.r})[s.p := RemoveSep(pages[s.p], s.i)]
  }

  /** Neighbouring leaves l and r at places c and c + 1 of the chain. */
  ghost predicate CanMergeLeaf(t: Tree, s: Site, c: nat) {
    && PairOk(t, s)
    && s.l in t.pages && t.pages[s.l].Leaf?
    && s.r in t.pages && t.pages[s.r].Leaf?
    && c + 1 < |t.chain| && t.chain[c] == s.l && t.chain[c + 1] == s.r
  }

  /** Sibling leaves are neighbours on the chain. */
  lemma SiblingsAdjacent(t: Tree, s: Site) returns (c: nat)
    requires PairOk(t, s) && s.l in t.pages && t.pages[s.l].Leaf?
    ensures CanMergeLeaf(t, s, c)
  {
    PairFacts(t, s);
    assert OnChain(t, s.l) && OnChain(t, s.r);
    c :| 0 <= c < |t.chain| && t.chain[c] == s.l;
    var d :| 0 <= d < |t.chain| && t.chain[d] == s.r;
    if d < c { ChainRises(t, d, c); }
    if c + 1 < d {
      assert NodeOk(t.pages[t.chain[c + 1]], t.meta[t.chain[c + 1]]);
      ChainRises(t, c, c + 1);
      ChainRises(t, c + 1, d);
    }
  }

  ghost function MergeLeaf(t: Tree, s: Site, c: nat): Tree
    requires CanMergeLeaf(t, s, c)
  {
    PairFacts(t, s);
    assert LinkOk(t, c + 1);
    Tree(MergeLeafPages(t.pages, s), t.root, MergeMeta(t, s), RemoveAt(t.chain, c + 1))
  }

  lemma MergeLeafShape(t: Tree, s: Site, c: nat)
    requires CanMergeLeaf(t, s, c)
    ensures MergeShape(t, MergeLeaf(t, s, c), s, {})
    ensures MergeLeaf(t, s, c).pages[s.l]
            == t.pages[s.l].(next := t.pages[s.r].next, entries := t.pages[s.l].entries + t.pages[s.r].entries)
  {
    PairFacts(t, s);
    assert LinkOk(t, c) && LinkOk(t, c + 1);
    if c + 2 < |t.chain| {
      assert LinkOk(t, c + 2);
      ChainPlace(t, c, c + 2);
      ChainPlace(t, c + 1, c + 2);
    }
  }

  lemma MergedLeafOk(t: Tree, s: Site)
    requires PairOk(t, s) && s.l in t.pages && t.pages[s.l].Leaf?
    requires s.r in t.pages && t.pages[s.r].Leaf?
    ensures SortedIn(t.pages[s.l].entries + t.pages[s.r].entries, t.meta[s.l].lo, t.meta[s.r].hi)
  {
    PairFacts(t, s);
    assert NodeOk(t.pages[s.l], t.meta[s.l]) && NodeOk(t.pages[s.r], t.meta[s.r]);
  }

  /** The page r after l is taken out of the leaf chain. */
  ghost predicate Unlinked(t: Tree, t': Tree, s: Site, c: nat)
    requires s.l in t.pages && t.pages[s.l].Leaf? && s.r in t.pages && t.pages[s.r].Leaf?
    requires s.l in t.meta && s.r in t.meta && c + 1 < |t.chain|
  {
    && t'.chain == RemoveAt(t.chain, c + 1)
    && t'.meta == MergeMeta(t, s)
    && t'.pages.Keys == t.pages.Keys - {s.r}
    && s.l in t'.pages
    && t'.pages[s.l].Leaf? && t'.pages[s.l].prev == t.pages[s.l].prev && t'.pages[s.l].next == t.pages[s.r].next
    && (forall id :: id in t'.pages && id != s.l && t.pages[id].Leaf? ==>
          && t'.pages[id].Leaf?
          && t'.pages[id].next == t.pages[id].next
          && t'.pages[id].prev == if id == t.pages[s.r].next then s.l else t.pages[id].prev)
  }

  lemma MergeLeafUnlinked(t: Tree, s: Site, c: nat)
    requires CanMergeLeaf(t, s, c)
    ensures Unlinked(t, MergeLeaf(t, s, c), s, c)
  {
    PairFacts(t, s);
    MergeLeafShape(t, s, c);
    assert LinkOk(t, c) && LinkOk(t, c + 1);
    if c + 2 < |t.chain| {
      assert LinkOk(t, c + 2);
      ChainPlace(t, c, c + 2);
    }
  }

  lemma UnlinkedLink(t: Tree, t': Tree, s: Site, c: nat, k: nat)
    requires CanMergeLeaf(t, s, c)
    requires Unlinked(t, t', s, c) && Domains(t')
    requires k < |t.chain| && k != c + 1
    ensures var k' := if k <= c then k else k - 1;
            t'.chain[k'] == t.chain[k] && t'.chain[k'] in t'.pages
            && (k' > 0 ==> t'.chain[k' - 1] in t'.pages) && LinkOk(t', k')
  {
    hide Struct, IsSlot, LinkOk;
    if k <= c {
      UnlinkedBefore(t, t', s, c, k);
    } else {
      UnlinkedBeyond(t, t', s, c, k);
    }
  }

  lemma UnlinkedBefore(t: Tree, t': Tree, s: Site, c: nat, k: nat)
    requires CanMergeLeaf(t, s, c)
    requires Unlinked(t, t', s, c) && Domains(t')
    requires k <= c
    ensures t'.chain[k] == t.chain[k] && t'.chain[k] in t'.pages
            && (k > 0 ==> t'.chain[k - 1] in t'.pages) && LinkOk(t', k)
  {
    hide NodesOk, EdgesOk, ParentsOk, RootOk, ChainOk, IsSlot;
    LinkAt(t, c);
    LinkAt(t, c + 1);
    LinkAt(t, k);
    ChainPlace(t, k, c + 1);
    if k < c { ChainPlace(t, k, c); }
    if k > 0 {
      ChainPlace(t, k - 1, c + 1);
      ChainPlace(t, k - 1, c);
    }
    if c + 2 < |t.chain| { ChainPlace(t, k, c + 2); }
  }

  lemma UnlinkedBeyond(t: Tree, t': Tree, s: Site, c: nat, k: nat)
    requires CanMergeLeaf(t, s, c)
    requires Unlinked(t, t', s, c) && Domains(t')
    requires c + 2 <= k < |t.chain|
    ensures t'.chain[k - 1] == t.chain[k] && t'.chain[k - 1] in t'.pages
            && t'.chain[k - 2] in t'.pages && LinkOk(t', k - 1)
  {
    hide NodesOk, EdgesOk, ParentsOk, RootOk, ChainOk, IsSlot;
    LinkAt(t, c);
    LinkAt(t, c + 1);
    LinkAt(t, k);
    ChainPlace(t, k, c);
    ChainPlace(t, k, c + 1);
    if k > c + 2 {
      ChainPlace(t, k - 1, c);
      ChainPlace(t, k - 1, c + 1);
      ChainPlace(t, k, c + 2);
    }
  }

  lemma MergeLeafChain(t: Tree, s: Site, c: nat)
    requires CanMergeLeaf(t, s, c)
    ensures Domains(MergeLeaf(t, s, c)) && ChainOk(MergeLeaf(t, s, c))
  {
    MergeLeafUnlinked(t, s, c);
    PairFacts(t, s);
    var t' := MergeLeaf(t, s, c);
    forall k | 0 <= k < |t'.chain| ensures t'.chain[k] in t'.pages {
      UnlinkedLink(t, t', s, c, if k <= c then k else k + 1);
    }
    forall k {:trigger LinkOk(t', k)} | 0 <= k < |t'.chain| ensures LinkOk(t', k) {
      UnlinkedLink(t, t', s, c, if k <= c then k else k + 1);
    }
    forall id | id in t'.pages && t'.pages[id].Leaf?
      ensures OnChain(t', id)
    {
      MergeLeafOnChain(t, s, c, id);
    }
  }

  lemma MergeLeafOnChain(t: Tree, s: Site, c: nat, id: PageId)
    requires CanMergeLeaf(t, s, c)
    requires var t' := MergeLeaf(t, s, c); id in t'.pages && t'.pages[id].Leaf?
    ensures OnChain(MergeLeaf(t, s, c), id)
  {
    MergeLeafShape(t, s, c);
    var t' := MergeLeaf(t, s, c);
    assert OnChain(t, id);
    var k :| 0 <= k < |t.chain| && t.chain[k] == id;
    assert t'.chain[if k <= c then k else k - 1] == id;
  }

  lemma MergeLeafKeepsStruct(t: Tree, s: Site, c: nat)
    requires CanMergeLeaf(t, s, c)
    ensures Struct(MergeLeaf(t, s, c))
  {
    PairFacts(t, s);
    MergeLeafShape(t, s, c);
    MergedLeafOk(t, s);
    assert NodeOk(t.pages[s.l], t.meta[s.l]);
    MergeLeafChain(t, s, c);
    var t' := MergeLeaf(t, s, c);
    MergeNodes(t, t', s, {});
    MergeRoot(t, t', s, {});
    forall q, k {:trigger EdgeOk(t', q, k)} | q in t'.pages && t'.pages[q].Internal? && 0 <= k <= |t'.pages[q].seps|
      ensures EdgeOk(t', q, k)
    {
      if q == s.p { MergeEdgeOfParent(t, t', s, {}, k); } else { MergeEdgeElsewhere(t, t', s, {}, q, k); }
    }
    forall id | id in t'.pages && id != t'.root
      ensures HasSlot(t', id)
    {
      assert HasSlot(t, id);
      MergeParent(t, t', s, {}, id);
    }
  }

  // ── Internal merge ──

  function AllChildren(n: Node): set<PageId>
    requires n.Internal?
  {
    set k {:trigger Child(n, k)} | 0 <= k <= |n.seps| :: Child(n, k)
  }

  /** The children right of the cut are the children of the new page. */
  lemma MovedAreChildren(n: Node, mid: nat, r: Node)
    requires n.Internal? && mid < |n.seps|
    requires r.Internal? && r.first == n.seps[mid].child && r.seps == n.seps[mid + 1..]
    ensures MovedChildren(n, mid) == AllChildren(r)
  {
    HalvesShift(n, Meta(0, 0.0, 1.0), mid, n.(seps := n.seps[..mid]), r);
    forall id | id in MovedChildren(n, mid) ensures id in AllChildren(r) {
      var k :| mid < k <= |n.seps| && Child(n, k) == id;
      assert Child(r, k - mid - 1) == Child(n, (k - mid - 1) + mid + 1);
    }
    forall id | id in AllChildren(r) ensures id in MovedChildren(n, mid) {
      var k :| 0 <= k <= |r.seps| && Child(r, k) == id;
      assert Child(n, k + mid + 1) == id;
    }
  }

  lemma SameBodyAllChildren(n: Node, n': Node)
    requires n.Internal? && SameBody(n, n')
    ensures AllChildren(n) == AllChildren(n')
  {
    assert forall k :: 0 <= k <= |n.seps| ==> Child(n, k) == Child(n', k);
  }

  /** Two pages rebuilt and the upper half's children adopted: that is HalveInternal. */
  lemma HalveInternalSteps(pages: map<PageId, Node>, p: PageId, all: seq<Sep>, mid: nat, r: PageId)
    requires p in pages && pages[p].Internal? && mid < |all| && r !in pages
    ensures var n := pages[p];
            var right := Internal(n.parent, all[mid].child, all[mid + 1..]);
            HalveInternal(pages[p := n.(seps := all)], p, mid, r)
            == Reparent(pages[r := right][p := n.(seps := all[..mid])], AllChildren(Internal(0, right.first, right.seps)), r)
  {
    var n := pages[p];
    var right := Internal(n.parent, all[mid].child, all[mid + 1..]);
    MovedAreChildren(n.(seps := all), mid, right);
    SameBodyAllChildren(right, Internal(0, right.first, right.seps));
    assert pages[p := n.(seps := all)][r := right][p := n.(seps := all[..mid])] == pages[r := right][p := n.(seps := all[..mid])];
  }

  /** Adopting children one after the other. */
  lemma AdoptNext(base: map<PageId, Node>, first: PageId, seps: seq<Sep>, k: nat, p: PageId)
    requires k < |seps| && seps[k].child in base
    ensures var before := Reparent(base, AllChildren(Internal(0, first, seps[..k])), p);
            var after := Reparent(base, AllChildren(Internal(0, first, seps[..k + 1])), p);
            seps[k].child in before && after == before[seps[k].child := WithParent(before[seps[k].child], p)]
  {
    var n, n' := Internal(0, first, seps[..k]), Internal(0, first, seps[..k + 1]);
    assert forall j :: 0 <= j <= k ==> Child(n, j) == Child(n', j);
    assert Child(n', k + 1) == seps[k].child;
    assert AllChildren(n') == AllChildren(n) + {seps[k].child};
  }

  lemma AdoptFirst(base: map<PageId, Node>, first: PageId, p: PageId)
    requires first in base
    ensures Reparent(base, AllChildren(Internal(0, first, [])), p) == base[first := WithParent(base[first], p)]
  {
    assert Child(Internal(0, first, []), 0) == first;
    assert AllChildren(Internal(0, first, [])) == {first};
  }

  function MergeInternalPages(pages: map<PageId, Node>, s: Site): map<PageId, Node>
    requires s.p in pages && pages[s.p].Internal? && s.i < |pages[s.p].seps|
    requires s.l in pages && pages[s.l].Internal? && s.r in pages && pages[s.r].Internal?
  {
    var n, r := pages[s.l], pages[s.r];
    var merged := pages[s.l := n.(seps := n.seps + [Sep(s.key, r.first)] + r.seps)];
    (Reparent(merged, AllChildren(r), s.l) - {s.r})[s.p := RemoveSep(pages[s.p], s.i)]
  }

  ghost predicate CanMergeInternal(t: Tree, s: Site) {
    && PairOk(t, s)
    && s.l in t.pages && t.pages[s.l].Internal?
    && s.r in t.pages && t.pages[s.r].Internal?
  }

  ghost function MergeInternal(t: Tree, s: Site): Tree
    requires CanMergeInternal(t, s)
  {
    Tree(MergeInternalPages(t.pages, s), t.root, MergeMeta(t, s), t.chain)
  }

  /** A child of r is a child of no other page. */
  lemma ChildrenBelow(t: Tree, s: Site, id: PageId)
    requires CanMergeInternal(t, s) && id in AllChildren(t.pages[s.r])
    ensures id in t.pages && t.pages[id].parent == s.r && id != s.l && id != s.p && id != s.r
  {
    PairFacts(t, s);
    var k :| 0 <= k <= |t.pages[s.r].seps| && Child(t.pages[s.r], k) == id;
    assert EdgeOk(t, s.r, k) && EdgeOk(t, s.p, s.i);
  }

  lemma MergeInternalShape(t: Tree, s: Site)
    requires CanMergeInternal(t, s)
    ensures MergeShape(t, MergeInternal(t, s), s, AllChildren(t.pages[s.r]))
    ensures var n, r := t.pages[s.l], t.pages[s.r];
            MergeInternal(t, s).pages[s.l] == n.(seps := n.seps + [Sep(s.key, r.first)] + r.seps)
  {
    PairFacts(t, s);
    var moved := AllChildren(t.pages[s.r]);
    forall id | id in moved ensures id in t.pages && t.pages[id].parent == s.r && id != s.l && id != s.p && id != s.r {
      ChildrenBelow(t, s, id);
    }
  }

  /** Which child and which fence of the merged page comes from where. */
  lemma MergedShift(l: Node, r: Node, key: Bytes, ml: Meta, mr: Meta, n: Node)
    requires l.Internal? && r.Internal? && n.Internal?
    requires n.first == l.first && n.seps == l.seps + [Sep(key, r.first)] + r.seps
    requires ml.hi == mr.lo == Rank(key)
    ensures var m := ml.(hi := mr.hi);
            var d := |l.seps| + 1;
            && (forall k :: 0 <= k < d ==> Child(n, k) == Child(l, k))
            && (forall k :: 0 <= k <= d ==> Fence(n, m, k) == Fence(l, ml, k))
            && (forall k :: 0 <= k <= |r.seps| ==> Child(n, k + d) == Child(r, k))
            && (forall k :: 0 <= k <= |r.seps| + 1 ==> Fence(n, m, k + d) == Fence(r, mr, k))
  {
    var m := ml.(hi := mr.hi);
    var d := |l.seps| + 1;
    forall k | 0 <= k <= |r.seps| + 1 ensures Fence(n, m, k + d) == Fence(r, mr, k) {
      if 0 < k <= |r.seps| { assert n.seps[k + d - 1] == r.seps[k - 1]; }
    }
    forall k | 0 <= k <= |r.seps| ensures Child(n, k + d) == Child(r, k) {
      if 0 < k { assert n.seps[k + d - 1] == r.seps[k - 1]; }
    }
  }

  lemma MergedOk(l: Node, r: Node, key: Bytes, ml: Meta, mr: Meta, n: Node)
    requires l.Internal? && r.Internal? && n.Internal?
    requires n.first == l.first && n.seps == l.seps + [Sep(key, r.first)] + r.seps
    requires ml.hi == mr.lo == Rank(key)
    requires NodeOk(l, ml) && NodeOk(r, mr)
    ensures NodeOk(n, ml.(hi := mr.hi))
  {
    MergedShift(l, r, key, ml, mr, n);
    var m := ml.(hi := mr.hi);
    var d := |l.seps| + 1;
    forall a, b | 0 <= a < b <= |n.seps| + 1 ensures Fence(n, m, a) < Fence(n, m, b) {
      if a >= d {
        assert Fence(n, m, (a - d) + d) == Fence(r, mr, a - d) < Fence(r, mr, b - d) == Fence(n, m, (b - d) + d);
      } else if b > d {
        assert Fence(l, ml, a) < Fence(l, ml, d);
        assert Fence(r, mr, 0) < Fence(r, mr, b - d) == Fence(n, m, (b - d) + d);
      } else {
        assert Fence(l, ml, a) < Fence(l, ml, b);
      }
    }
  }

  lemma MergeEdgeOfMerged(t: Tree, s: Site, k: nat)
    requires CanMergeInternal(t, s)
    requires Domains(MergeInternal(t, s))
    requires s.l in MergeInternal(t, s).pages && MergeInternal(t, s).pages[s.l].Internal?
    requires k <= |MergeInternal(t, s).pages[s.l].seps|
    ensures EdgeOk(MergeInternal(t, s), s.l, k)
  {
    hide NodesOk, ParentsOk, RootOk, ChainOk;
    PairFacts(t, s);
    MergeInternalShape(t, s);
    var t' := MergeInternal(t, s);
    var l, r := t.pages[s.l], t.pages[s.r];
    var d := |l.seps| + 1;
    MergedShift(l, r, s.key, t.meta[s.l], t.meta[s.r], t'.pages[s.l]);
    if k < d {
      MergeKeptChild(t, s, k);
      assert EdgeOk(t, s.l, k);
    } else {
      var j := k - d;
      assert Child(t'.pages[s.l], j + d) == Child(r, j);
      assert Child(r, j) in AllChildren(r);
      ChildrenBelow(t, s, Child(r, j));
      assert EdgeOk(t, s.r, j);
    }
  }

  lemma MergeKeptChild(t: Tree, s: Site, k: nat)
    requires CanMergeInternal(t, s) && k <= |t.pages[s.l].seps|
    ensures var c := Child(t.pages[s.l], k);
            c in t.pages && c != s.l && c != s.p && c != s.r && c !in AllChildren(t.pages[s.r])
  {
    PairFacts(t, s);
    assert EdgeOk(t, s.l, k) && EdgeOk(t, s.p, s.i);
    var c := Child(t.pages[s.l], k);
    if c in AllChildren(t.pages[s.r]) { ChildrenBelow(t, s, c); }
  }

  lemma MergeInternalSlot(t: Tree, s: Site, id: PageId)
    requires CanMergeInternal(t, s)
    requires id in t.pages && id != t.root && id != s.r
    ensures id in MergeInternal(t, s).pages && HasSlot(MergeInternal(t, s), id)
  {
    PairFacts(t, s);
    MergeInternalShape(t, s);
    var t' := MergeInternal(t, s);
    var l, r := t.pages[s.l], t.pages[s.r];
    MergedShift(l, r, s.key, t.meta[s.l], t.meta[s.r], t'.pages[s.l]);
    assert HasSlot(t, id);
    if t.pages[id].parent == s.l {
      var k: nat :| IsSlot(t, s.l, k, id);
      MergeKeptChild(t, s, k);
      assert IsSlot(t', s.l, k, id);
    } else if t.pages[id].parent == s.r {
      var k: nat :| IsSlot(t, s.r, k, id);
      assert Child(r, k) in AllChildren(r);
      ChildrenBelow(t, s, id);
      assert IsSlot(t', s.l, k + (|l.seps| + 1), id);
    } else {
      MergeParent(t, t', s, AllChildren(r), id);
    }
  }

  lemma MergeInternalChain(t: Tree, s: Site)
    requires CanMergeInternal(t, s)
    ensures Domains(MergeInternal(t, s)) && ChainOk(MergeInternal(t, s))
  {
    PairFacts(t, s);
    MergeInternalShape(t, s);
    var t' := MergeInternal(t, s);
    forall id | id in t.pages && t.pages[id].Leaf?
      ensures id in t'.pages && t'.pages[id] == WithParent(t.pages[id], t'.pages[id].parent) && t'.meta[id] == t.meta[id]
    {
    }
    forall k | 0 <= k < |t'.chain| ensures t'.chain[k] in t'.pages {
      assert LinkOk(t, k);
    }
    forall k {:trigger LinkOk(t', k)} | 0 <= k < |t'.chain|
      ensures LinkOk(t', k)
    {
      assert LinkOk(t, k);
      if k > 0 { assert LinkOk(t, k - 1); }
    }
    forall id | id in t'.pages && t'.pages[id].Leaf?
      ensures OnChain(t', id)
    {
      assert OnChain(t, id);
    }
  }

  lemma MergeInternalKeepsStruct(t: Tree, s: Site)
    requires CanMergeInternal(t, s)
    ensures Struct(MergeInternal(t, s))
  {
    PairFacts(t, s);
    MergeInternalShape(t, s);
    MergeInternalChain(t, s);
    var t' := MergeInternal(t, s);
    var moved := AllChildren(t.pages[s.r]);
    assert NodeOk(t.pages[s.l], t.meta[s.l]) && NodeOk(t.pages[s.r], t.meta[s.r]);
    MergedOk(t.pages[s.l], t.pages[s.r], s.key, t.meta[s.l], t.meta[s.r], t'.pages[s.l]);
    MergeNodes(t, t', s, moved);
    MergeRoot(t, t', s, moved);
    forall q, k {:trigger EdgeOk(t', q, k)} | q in t'.pages && t'.pages[q].Internal? && 0 <= k <= |t'.pages[q].seps|
      ensures EdgeOk(t', q, k)
    {
      if q == s.p { MergeEdgeOfParent(t, t', s, moved, k); }
      else if q == s.l { MergeEdgeOfMerged(t, s, k); }
      else { MergeEdgeElsewhere(t, t', s, moved, q, k); }
    }
    forall id | id in t'.pages && id != t'.root
      ensures HasSlot(t', id)
    {
      MergeInternalSlot(t, s, id);
    }
  }
}
