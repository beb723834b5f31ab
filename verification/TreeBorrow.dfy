/** Borrowing is a merge followed by a split. */
module TreeBorrow {
  import opened Keys
  import opened TreeModel
  import opened TreeSplit
  import opened TreeMerge

  // One entry or one child moves to a sibling; the split gives the right page its old number back.

  // ── Leaves ──

  function BorrowLeafPages(pages: map<PageId, Node>, s: Site, mid: nat): map<PageId, Node>
    requires s.p in pages && pages[s.p].Internal? && s.i < |pages[s.p].seps|
    requires s.l in pages && pages[s.l].Leaf? && s.r in pages && pages[s.r].Leaf?
    requires mid < |pages[s.l].entries + pages[s.r].entries|
  {
    var all := pages[s.l].entries + pages[s.r].entries;
    pages[s.l := pages[s.l].(entries := all[..mid])]
         [s.r := pages[s.r].(entries := all[mid..])]
         [s.p := pages[s.p].(seps := pages[s.p].seps[s.i := Sep(all[mid].key, s.r)])]
  }

  ghost predicate CanBorrowLeaf(t: Tree, s: Site, c: nat, mid: nat) {
    && CanMergeLeaf(t, s, c)
    && 0 < mid < |t.pages[s.l].entries + t.pages[s.r].entries|
  }

  ghost function BorrowLeaf(t: Tree, s: Site, c: nat, mid: nat): Tree
    requires CanBorrowLeaf(t, s, c, mid)
  {
    var key := (t.pages[s.l].entries + t.pages[s.r].entries)[mid].key;
    Tree(BorrowLeafPages(t.pages, s, mid), t.root,
         t.meta[s.l := t.meta[s.l].(hi := Rank(key))][s.r := t.meta[s.r].(lo := Rank(key))], t.chain)
  }

  /** What the chain and the parent say about the pair, without the rest of the tree. */
  ghost predicate Neighbours(pages: map<PageId, Node>, s: Site) {
    && s.p in pages && s.l in pages && s.r in pages && s.p != s.l && s.p != s.r && s.l != s.r
    && pages[s.p].Internal? && s.i < |pages[s.p].seps| && pages[s.p].seps[s.i].child == s.r
    && pages[s.l].Leaf? && pages[s.l].parent == s.p && pages[s.l].next == s.r
    && pages[s.r].Leaf? && pages[s.r].parent == s.p && pages[s.r].prev == s.l
    && (var next := pages[s.r].next;
        next != 0 ==> next in pages && next != s.l && next != s.r && pages[next].Leaf? && pages[next].prev == s.r)
  }

  lemma PairIsNeighbours(t: Tree, s: Site, c: nat)
    requires CanMergeLeaf(t, s, c)
    ensures Neighbours(t.pages, s)
  {
    PairFacts(t, s);
    assert LinkOk(t, c) && LinkOk(t, c + 1);
    if c + 2 < |t.chain| {
      assert LinkOk(t, c + 2);
      ChainPlace(t, c, c + 2);
      ChainPlace(t, c + 1, c + 2);
    }
  }

  lemma SplitAfterMerge(pages: map<PageId, Node>, s: Site, s1: Site, mid: nat)
    requires Neighbours(pages, s)
    requires mid < |pages[s.l].entries + pages[s.r].entries|
    requires s1 == s.(key := (pages[s.l].entries + pages[s.r].entries)[mid].key)
    ensures SplitLeafPages(MergeLeafPages(pages, s), s1, mid) == BorrowLeafPages(pages, s, mid)
  {
    var m := MergeLeafPages(pages, s);
    assert m[s.p] == RemoveSep(pages[s.p], s.i);
    assert InsertSep(RemoveSep(pages[s.p], s.i), s.i, Sep(s1.key, s.r)).seps == pages[s.p].seps[s.i := Sep(s1.key, s.r)];
  }

  lemma BorrowLeafIsMergeSplit(t: Tree, s: Site, c: nat, mid: nat)
    requires CanBorrowLeaf(t, s, c, mid)
    ensures var t1 := MergeLeaf(t, s, c);
            var s1 := s.(key := (t.pages[s.l].entries + t.pages[s.r].entries)[mid].key);
            CanSplitLeaf(t1, s1, mid, c) && SplitLeaf(t1, s1, mid, c) == BorrowLeaf(t, s, c, mid)
  {
    PairFacts(t, s);
    MergeLeafKeepsStruct(t, s, c);
    MergeLeafShape(t, s, c);
    RemoveSepShifts(t.pages[s.p], t.meta[s.p], s.i);
    var t1 := MergeLeaf(t, s, c);
    var s1 := s.(key := (t.pages[s.l].entries + t.pages[s.r].entries)[mid].key);
    assert IsSlot(t1, s1.p, s1.i, s1.l);
    PairIsNeighbours(t, s, c);
    SplitAfterMerge(t.pages, s, s1, mid);
    assert SplitLeaf(t1, s1, mid, c).meta == BorrowLeaf(t, s, c, mid).meta;
  }

  lemma BorrowLeafKeepsStruct(t: Tree, s: Site, c: nat, mid: nat)
    requires CanBorrowLeaf(t, s, c, mid)
    ensures Struct(BorrowLeaf(t, s, c, mid))
  {
    BorrowLeafIsMergeSplit(t, s, c, mid);
    SplitLeafKeepsStruct(MergeLeaf(t, s, c), s.(key := (t.pages[s.l].entries + t.pages[s.r].entries)[mid].key), mid, c);
  }

  // ── Internal pages ──

  /** Separators of the two pages with the parent's separator between them. */
  function Joined(pages: map<PageId, Node>, s: Site): seq<Sep>
    requires s.l in pages && pages[s.l].Internal? && s.r in pages && pages[s.r].Internal?
  {
    pages[s.l].seps + [Sep(s.key, pages[s.r].first)] + pages[s.r].seps
  }

  /** Both pages rebuilt around separator mid, which goes to the parent; no child moved yet. */
  function Rotated(pages: map<PageId, Node>, s: Site, mid: nat): map<PageId, Node>
    requires s.p in pages && pages[s.p].Internal? && s.i < |pages[s.p].seps|
    requires s.l in pages && pages[s.l].Internal? && s.r in pages && pages[s.r].Internal?
    requires mid < |Joined(pages, s)|
  {
    var all := Joined(pages, s);
    pages[s.l := pages[s.l].(seps := all[..mid])]
         [s.r := Internal(s.p, all[mid].child, all[mid + 1..])]
         [s.p := pages[s.p].(seps := pages[s.p].seps[s.i := Sep(all[mid].key, s.r)])]
  }

  /** Only the children that change sides get a new parent pointer. */
  function BorrowInternalPages(pages: map<PageId, Node>, s: Site, mid: nat): map<PageId, Node>
    requires s.p in pages && pages[s.p].Internal? && s.i < |pages[s.p].seps|
    requires s.l in pages && pages[s.l].Internal? && s.r in pages && pages[s.r].Internal?
    requires mid < |Joined(pages, s)|
  {
    var n := pages[s.l].(seps := Joined(pages, s));
    Reparent(Reparent(Rotated(pages, s, mid), AllChildren(pages[s.r]), s.l), MovedChildren(n, mid), s.r)
  }

  ghost predicate CanBorrowInternal(t: Tree, s: Site, mid: nat) {
    && CanMergeInternal(t, s)
    && mid < |Joined(t.pages, s)|
  }

  ghost function BorrowInternal(t: Tree, s: Site, mid: nat): Tree
    requires CanBorrowInternal(t, s, mid)
  {
    var key := Joined(t.pages, s)[mid].key;
    Tree(BorrowInternalPages(t.pages, s, mid), t.root,
         t.meta[s.l := t.meta[s.l].(hi := Rank(key))][s.r := t.meta[s.r].(lo := Rank(key))], t.chain)
  }

  lemma SplitAfterMergeInternal(pages: map<PageId, Node>, s: Site, s1: Site, mid: nat)
    requires s.p in pages && s.l in pages && s.r in pages && s.p != s.l && s.p != s.r && s.l != s.r
    requires pages[s.p].Internal? && s.i < |pages[s.p].seps| && pages[s.p].seps[s.i].child == s.r
    requires pages[s.l].Internal? && pages[s.r].Internal? && pages[s.l].parent == s.p
    requires mid < |Joined(pages, s)| && s1 == s.(key := Joined(pages, s)[mid].key)
    requires s.p !in AllChildren(pages[s.r]) && s.l !in AllChildren(pages[s.r]) && s.r !in AllChildren(pages[s.r])
    requires var moved := MovedChildren(pages[s.l].(seps := Joined(pages, s)), mid);
             s.p !in moved && s.l !in moved && s.r !in moved
    ensures var m := MergeInternalPages(pages, s);
            && s.p in m && s.l in m && m[s.p].Internal? && m[s.l].Internal? && s.p != s.l && s.r !in m
            && s.i <= |m[s.p].seps| && mid < |m[s.l].seps|
            && SplitInternalPages(m, s1, mid) == BorrowInternalPages(pages, s, mid)
  {
    var m := MergeInternalPages(pages, s);
    SameBodySameChildren(m[s.l], pages[s.l].(seps := Joined(pages, s)), mid);
    assert InsertSep(m[s.p], s.i, Sep(s1.key, s.r)).seps == pages[s.p].seps[s.i := Sep(s1.key, s.r)];
  }

  lemma JoinedChild(t: Tree, s: Site, mid: nat, id: PageId)
    requires CanBorrowInternal(t, s, mid)
    requires id in MovedChildren(t.pages[s.l].(seps := Joined(t.pages, s)), mid) || id in AllChildren(t.pages[s.r])
    ensures id != s.l && id != s.r && id != s.p
  {
    if id in AllChildren(t.pages[s.r]) {
      ChildrenBelow(t, s, id);
    } else {
      var n := t.pages[s.l].(seps := Joined(t.pages, s));
      var k :| mid < k <= |n.seps| && Child(n, k) == id;
      PairFacts(t, s);
      JoinedChildOfLeft(t, s, k);
    }
  }

  /** A child of the joined page that is no child of r is a child of l. */
  lemma JoinedChildOfLeft(t: Tree, s: Site, k: nat)
    requires CanMergeInternal(t, s) && k <= |Joined(t.pages, s)|
    requires Child(t.pages[s.l].(seps := Joined(t.pages, s)), k) !in AllChildren(t.pages[s.r])
    ensures k <= |t.pages[s.l].seps|
    ensures var c := Child(t.pages[s.l].(seps := Joined(t.pages, s)), k);
            c == Child(t.pages[s.l], k) && c != s.l && c != s.p && c != s.r
  {
    var n := t.pages[s.l].(seps := Joined(t.pages, s));
    PairFacts(t, s);
    MergedShift(t.pages[s.l], t.pages[s.r], s.key, t.meta[s.l], t.meta[s.r], n);
    var d := |t.pages[s.l].seps| + 1;
    assert k >= d ==> Child(n, (k - d) + d) == Child(t.pages[s.r], k - d);
    MergeKeptChild(t, s, k);
  }

  lemma BorrowInternalKeepsStruct(t: Tree, s: Site, mid: nat)
    requires CanBorrowInternal(t, s, mid)
    ensures Struct(BorrowInternal(t, s, mid))
  {
    PairFacts(t, s);
    MergeInternalKeepsStruct(t, s);
    MergeInternalShape(t, s);
    RemoveSepShifts(t.pages[s.p], t.meta[s.p], s.i);
    var t1 := MergeInternal(t, s);
    var s1 := s.(key := Joined(t.pages, s)[mid].key);
    assert IsSlot(t1, s1.p, s1.i, s1.l);
    assert CanSplitInternal(t1, s1, mid);
    forall id | id in MovedChildren(t.pages[s.l].(seps := Joined(t.pages, s)), mid) || id in AllChildren(t.pages[s.r])
      ensures id != s.l && id != s.r && id != s.p
    {
      JoinedChild(t, s, mid, id);
    }
    SplitAfterMergeInternal(t.pages, s, s1, mid);
    assert SplitInternal(t1, s1, mid).meta == BorrowInternal(t, s, mid).meta;
    SplitInternalKeepsStruct(t1, s1, mid);
  }

  /** Borrowing from the left sibling moves one child: its last. */
  lemma BorrowFromLeftMovesOne(t: Tree, s: Site)
    requires CanMergeInternal(t, s) && |t.pages[s.l].seps| > 0
    ensures var mid := |t.pages[s.l].seps| - 1;
            var kept := Rotated(t.pages, s, mid);
            var c := t.pages[s.l].seps[mid].child;
            && Joined(t.pages, s)[..mid] == t.pages[s.l].seps[..mid]
            && Joined(t.pages, s)[mid + 1..] == [Sep(s.key, t.pages[s.r].first)] + t.pages[s.r].seps
            && Joined(t.pages, s)[mid] == t.pages[s.l].seps[mid]
            && c in kept && c != s.l && c != s.r && c != s.p && BorrowInternalPages(t.pages, s, mid) == kept[c := WithParent(kept[c], s.r)]
  {
    var mid := |t.pages[s.l].seps| - 1;
    var l, r := t.pages[s.l], t.pages[s.r];
    var all := Joined(t.pages, s);
    var n := l.(seps := all);
    assert all[..mid] == l.seps[..mid];
    assert all[mid + 1..] == [Sep(s.key, r.first)] + r.seps;
    PairFacts(t, s);
    MergedShift(l, r, s.key, t.meta[s.l], t.meta[s.r], n);
    MergeKeptChild(t, s, mid + 1);
    assert l.seps[mid].child == Child(l, mid + 1) == Child(n, mid + 1);
    forall id | id in AllChildren(r)
      ensures id in MovedChildren(n, mid) && id in t.pages && t.pages[id].parent == s.r && id != s.l && id != s.p && id != s.r
    {
      ChildrenBelow(t, s, id);
      var k :| 0 <= k <= |r.seps| && Child(r, k) == id;
      assert Child(n, k + (|l.seps| + 1)) == id;
    }
    forall id | id in MovedChildren(n, mid)
      ensures id in AllChildren(r) || id == Child(l, mid + 1)
    {
      var k :| mid < k <= |n.seps| && Child(n, k) == id;
      if k > mid + 1 {
        var d := |l.seps| + 1;
        assert Child(n, (k - d) + d) == Child(r, k - d);
      }
    }
  }

  /** Borrowing from the right sibling moves one child: its first. */
  lemma BorrowFromRightMovesOne(t: Tree, s: Site)
    requires CanMergeInternal(t, s) && |t.pages[s.r].seps| > 0
    ensures var mid := |t.pages[s.l].seps| + 1;
            var kept := Rotated(t.pages, s, mid);
            var c := t.pages[s.r].first;
            && Joined(t.pages, s)[..mid] == t.pages[s.l].seps + [Sep(s.key, c)]
            && Joined(t.pages, s)[mid + 1..] == t.pages[s.r].seps[1..]
            && Joined(t.pages, s)[mid] == t.pages[s.r].seps[0]
            && c in kept && c != s.l && c != s.r && c != s.p && BorrowInternalPages(t.pages, s, mid) == kept[c := WithParent(kept[c], s.l)]
  {
    var mid := |t.pages[s.l].seps| + 1;
    var l, r := t.pages[s.l], t.pages[s.r];
    var all := Joined(t.pages, s);
    var n := l.(seps := all);
    assert all[..mid] == l.seps + [Sep(s.key, r.first)];
    assert all[mid] == r.seps[0] && all[mid + 1..] == r.seps[1..];
    PairFacts(t, s);
    MergedShift(l, r, s.key, t.meta[s.l], t.meta[s.r], n);
    assert r.first == Child(r, 0) && r.first in AllChildren(r);
    forall id | id in AllChildren(r)
      ensures id in t.pages && t.pages[id].parent == s.r && id != s.l && id != s.p && id != s.r
      ensures id in MovedChildren(n, mid) <==> id != r.first
    {
      ChildrenBelow(t, s, id);
      var k :| 0 <= k <= |r.seps| && Child(r, k) == id;
      assert Child(n, k + mid) == id;
      if k == 0 && id in MovedChildren(n, mid) {
        var j :| mid < j <= |n.seps| && Child(n, j) == id;
        assert Child(n, (j - mid) + mid) == Child(r, j - mid);
        SlotUnique(t, s.r, 0, j - mid, id);
      }
      if k > 0 && id == r.first { SlotUnique(t, s.r, 0, k, id); }
    }
    forall id | id in MovedChildren(n, mid) ensures id in AllChildren(r) {
      var k :| mid < k <= |n.seps| && Child(n, k) == id;
      assert Child(n, (k - mid) + mid) == Child(r, k - mid);
    }
  }
}
