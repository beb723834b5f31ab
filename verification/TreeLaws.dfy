/** What an insert and a delete do to the leaves and to the page numbers, with the bytes of the pages counted out. */
module TreeLaws {
  import opened Keys
  import opened TreeModel
  import opened TreeSplit
  import opened TreeMerge
  import opened TreeRoot
  import opened TreeBorrow
  import opened TreePending
  import opened TreeLeaf
  import opened TreeSize
  import opened TreeSized
  import opened TreeFit
  import opened TreeGrowth
  import opened TreeShrink

  // A leaf takes 32 bytes and 8 for each entry besides its key and value, an internal page 24 and 12 for each separator
  // besides its key.

  function LeafBytes(es: seq<Entry>): nat {
    if es == [] then 32 else LeafBytes(es[1..]) + 8 + |es[0].key| + |es[0].value|
  }

  function InternalBytes(ss: seq<Sep>): nat {
    if ss == [] then 24 else InternalBytes(ss[1..]) + 12 + |ss[0].key|
  }

  /** Too little is left in a page: nothing, or less than a third of the page. */
  predicate LeafLow(es: seq<Entry>, pageSize: nat) {
    es == [] || LeafBytes(es) < pageSize / 3
  }

  predicate InternalLow(ss: seq<Sep>, pageSize: nat) {
    ss == [] || InternalBytes(ss) < pageSize / 3
  }

  /** A page fits when its bytes do, and is underfull when it is low. */
  lemma {:induction false} LeafBytesDecide(es: seq<Entry>, pageSize: nat)
    ensures EntriesFit(es, pageSize) <==> LeafBytes(es) <= pageSize
    ensures forall n: Node {:trigger Underfull(n, pageSize)} :: n.Leaf? && n.entries == es ==>
              (Underfull(n, pageSize) <==> LeafLow(es, pageSize))
  {
    LeafBytesAre(es);
  }

  lemma {:induction false} LeafBytesAre(es: seq<Entry>)
    ensures LEAF_HEADER_LEN + Sum(Costs(es)) == LeafBytes(es)
  {
    if es != [] {
      assert Costs(es)[1..] == Costs(es[1..]);
      LeafBytesAre(es[1..]);
    }
  }

  lemma InternalBytesDecide(ss: seq<Sep>, pageSize: nat)
    ensures SepsFit(ss, pageSize) <==> InternalBytes(ss) <= pageSize
    ensures forall n: Node {:trigger Underfull(n, pageSize)} :: n.Internal? && n.seps == ss ==>
              (Underfull(n, pageSize) <==> InternalLow(ss, pageSize))
  {
    InternalBytesAre(ss);
  }

  lemma {:induction false} InternalBytesAre(ss: seq<Sep>)
    ensures INTERNAL_HEADER_LEN + Sum(SepCosts(ss)) == InternalBytes(ss)
  {
    if ss != [] {
      assert SepCosts(ss)[1..] == SepCosts(ss[1..]);
      InternalBytesAre(ss[1..]);
    }
  }

  // ── Leaves and page numbers ──

  ghost predicate IsLeafOf(t: Tree, id: PageId, es: seq<Entry>) {
    id in t.pages && t.pages[id].Leaf? && t.pages[id].entries == es
  }

  /** The leaves other than those named hold what they held. */
  ghost predicate LeavesKept(t: Tree, t': Tree, changed: set<PageId>) {
    forall id {:trigger t.pages[id]} :: id in t.pages && t.pages[id].Leaf? && id !in changed ==> IsLeafOf(t', id, t.pages[id].entries)
  }

  /** Pages were given back, and none taken. */
  ghost predicate OnlyGaveBack(f: TreeState, f': TreeState) {
    && f'.supply.count == f.supply.count && |f'.supply.free| >= |f.supply.free|
    && f'.supply.free[|f'.supply.free| - |f.supply.free|..] == f.supply.free
    && (forall id {:trigger id in f.tree.pages} :: id in f.tree.pages ==> id in f'.tree.pages || id in f'.supply.free)
    && f'.tree.pages.Keys <= f.tree.pages.Keys
  }

  /** Only what one leaf holds is different. */
  ghost predicate OneLeafChanged(f: TreeState, f': TreeState, l: PageId, es: seq<Entry>) {
    && l in f.tree.pages && f.tree.pages[l].Leaf? && f'.supply == f.supply
    && f'.tree == f.tree.(pages := f.tree.pages[l := f.tree.pages[l].(entries := es)])
  }

  /** Two leaves hold something else, and no page was taken or given back. */
  ghost predicate EntryMoved(f: TreeState, f': TreeState, a: PageId, as': seq<Entry>, b: PageId, bs: seq<Entry>) {
    && f'.supply == f.supply && f'.tree.pages.Keys == f.tree.pages.Keys && f'.tree.chain == f.tree.chain
    && IsLeafOf(f'.tree, a, as') && IsLeafOf(f'.tree, b, bs) && LeavesKept(f.tree, f'.tree, {a, b})
  }

  /** A leaf was emptied into another and given back. */
  ghost predicate LeavesMerged(f: TreeState, f': TreeState, keep: PageId, es: seq<Entry>, gone: PageId) {
    && IsLeafOf(f'.tree, keep, es) && LeavesKept(f.tree, f'.tree, {keep, gone})
    && gone !in f'.tree.pages && gone in f'.supply.free && OnlyGaveBack(f, f')
  }

  lemma GaveBackTwice(f: TreeState, g: TreeState, h: TreeState)
    requires OnlyGaveBack(f, g) && OnlyGaveBack(g, h)
    ensures OnlyGaveBack(f, h)
  {
    var a, b, c := f.supply.free, g.supply.free, h.supply.free;
    assert c[|c| - |a|..] == c[|c| - |b|..][|b| - |a|..];
    forall id | id in f.tree.pages ensures id in h.tree.pages || id in c {
      if id in b { assert b == c[|c| - |b|..]; }
    }
  }

  lemma KeptTwice(t: Tree, u: Tree, v: Tree, a: set<PageId>)
    requires LeavesKept(t, u, a) && LeavesKept(u, v, {})
    ensures LeavesKept(t, v, a)
  {
    forall id | id in t.pages && t.pages[id].Leaf? && id !in a ensures IsLeafOf(v, id, t.pages[id].entries) {
      assert IsLeafOf(u, id, t.pages[id].entries);
      assert u.pages[id].Leaf?;
    }
  }

  // ── Deletes: the internal pages ──

  /** Nothing above the leaves changes what they hold, or takes a page. */
  ghost predicate OnlyAbove(f: TreeState, g: TreeState) {
    LeavesKept(f.tree, g.tree, {}) && OnlyGaveBack(f, g) && g.tree.chain == f.tree.chain
  }

  lemma ShrunkAbove(f: TreeState)
    requires CanShrink(f.tree) && f.tree.root in f.tree.pages && f.tree.pages[f.tree.root].first in f.tree.pages
    ensures OnlyAbove(f, Dropped(Shrink(f.tree), f.supply, f.tree.root))
  {
    hide Struct;
    var g := Dropped(Shrink(f.tree), f.supply, f.tree.root);
    assert g.supply.free[1..] == f.supply.free;
  }

  lemma BorrowedAbove(f: TreeState, s: Site, mid: nat)
    requires CanMergeInternal(f.tree, s) && mid < |Joined(f.tree.pages, s)|
    ensures OnlyAbove(f, TreeState(BorrowInternal(f.tree, s, mid), f.supply))
    ensures BorrowInternal(f.tree, s, mid).pages.Keys == f.tree.pages.Keys
  {
    PairFacts(f.tree, s);
    hide Struct, Joined;
    assert f.supply.free[0..] == f.supply.free;
  }

  lemma MergedAbove(f: TreeState, s: Site)
    requires CanMergeInternal(f.tree, s)
    ensures OnlyAbove(f, Dropped(MergeInternal(f.tree, s), f.supply, s.r))
    ensures s.r !in MergeInternal(f.tree, s).pages
  {
    PairFacts(f.tree, s);
    MergeInternalShape(f.tree, s);
    hide Struct, MergeInternal;
    var g := Dropped(MergeInternal(f.tree, s), f.supply, s.r);
    assert g.supply.free[1..] == f.supply.free;
  }

  lemma {:induction false} AfterEntryAbove(f: TreeState, p: PageId, up: seq<Step>, pageSize: nat)
    ensures OnlyAbove(f, AfterEntry(f, p, up, pageSize))
    decreases |up|, 1
  {
    hide OnlyAbove, Struct, Shrink, PageRepaired, Underfull;
    Same(f);
    var t := f.tree;
    if p !in t.pages || !t.pages[p].Internal? {
    } else if up == [] {
      if CanShrink(t) {
        RootFacts(t);
        if t.pages[t.root].first in t.pages { ShrunkAbove(f); }
      }
    } else if Underfull(t.pages[p], pageSize) {
      PageRepairedAbove(f, p, up, pageSize);
    }
  }

  lemma Same(f: TreeState)
    ensures OnlyAbove(f, f)
  {
    assert f.supply.free[0..] == f.supply.free;
  }

  lemma AboveTwice(f: TreeState, g: TreeState, h: TreeState)
    requires OnlyAbove(f, g) && OnlyAbove(g, h)
    ensures OnlyAbove(f, h)
  {
    hide LeavesKept, OnlyGaveBack;
    GaveBackTwice(f, g, h);
    KeptTwice(f.tree, g.tree, h.tree, {});
  }

  lemma {:induction false} PageRepairedAbove(f: TreeState, p: PageId, path: seq<Step>, pageSize: nat)
    ensures OnlyAbove(f, PageRepaired(f, p, path, pageSize))
    decreases |path|, 0
  {
    hide OnlyAbove, Struct, PairOk, BorrowInternal, MergeInternal, AfterEntry, Child;
    Same(f);
    if path == [] || !path[0].node.Internal? || path[0].slot > |path[0].node.seps| {
    } else if path[0].slot > 0 {
      var s := LeftSite(path[0], p);
      if CanMergeInternal(f.tree, s) {
        if f.tree.pages[s.l].seps != [] { BorrowedAbove(f, s, |f.tree.pages[s.l].seps| - 1); } else { MergedRepairedAbove(f, s, path, pageSize); }
      }
    } else if path[0].node.seps != [] {
      var s := RightSite(path[0], p);
      if CanMergeInternal(f.tree, s) {
        if f.tree.pages[s.r].seps != [] { BorrowedAbove(f, s, |f.tree.pages[s.l].seps| + 1); } else { MergedRepairedAbove(f, s, path, pageSize); }
      }
    }
  }

  lemma {:induction false} MergedRepairedAbove(f: TreeState, s: Site, path: seq<Step>, pageSize: nat)
    requires path != [] && CanMergeInternal(f.tree, s)
    ensures var g := AfterEntry(Dropped(MergeInternal(f.tree, s), f.supply, s.r), s.p, path[1..], pageSize);
            OnlyAbove(f, g) && s.r !in g.tree.pages && s.r in g.supply.free
    decreases |path|, -1
  {
    hide Struct, PairOk, MergeInternal, AfterEntry, LeavesKept;
    var m := Dropped(MergeInternal(f.tree, s), f.supply, s.r);
    MergedAbove(f, s);
    AfterEntryAbove(m, s.p, path[1..], pageSize);
    var g := AfterEntry(m, s.p, path[1..], pageSize);
    AboveTwice(f, m, g);
    GivenBackStays(m, g, s.r);
  }

  lemma GivenBackStays(f: TreeState, g: TreeState, id: PageId)
    requires OnlyGaveBack(f, g) && id in f.supply.free && id !in f.tree.pages
    ensures id in g.supply.free && id !in g.tree.pages
  {
    var a, b := f.supply.free, g.supply.free;
    assert id in b[|b| - |a|..];
  }

  /** An internal page and its sibling have exchanged a child: the one lost its last separator, or its first. */
  ghost predicate ChildMoved(f: TreeState, g: TreeState, lender: PageId, borrower: PageId) {
    && g.supply == f.supply && g.tree.pages.Keys == f.tree.pages.Keys
    && lender in f.tree.pages && borrower in f.tree.pages
    && f.tree.pages[lender].Internal? && g.tree.pages[lender].Internal?
    && f.tree.pages[borrower].Internal? && g.tree.pages[borrower].Internal?
    && |g.tree.pages[lender].seps| == |f.tree.pages[lender].seps| - 1
    && |g.tree.pages[borrower].seps| == |f.tree.pages[borrower].seps| + 1
  }

  ghost predicate GivenUp(g: TreeState, id: PageId) {
    id !in g.tree.pages && id in g.supply.free
  }

  /** What becomes of an internal page that has just lost a separator. The root gives way to its only child; another page
      that is low borrows a child from a sibling, the left one first, if it has two, or one of both pages is given back; a page
      that is not low, and one without siblings, stays. */
  lemma EntryLost(f: TreeState, p: PageId, up: seq<Step>, pageSize: nat)
    requires Struct(f.tree) && p in f.tree.pages && f.tree.pages[p].Internal? && IsPath(f.tree.pages, f.tree.root, p, up)
    ensures var g, ss := AfterEntry(f, p, up, pageSize), f.tree.pages[p].seps;
            if up == [] then
              if ss != [] then g == f
              else GivenUp(g, p) && g.tree.root == f.tree.pages[p].first && g.supply.free == [p] + f.supply.free
            else if !InternalLow(ss, pageSize) then g == f
            else
              var st := up[0];
              if st.slot > 0 then
                var l := Child(st.node, st.slot - 1);
                if l in f.tree.pages && f.tree.pages[l].Internal? && f.tree.pages[l].seps != [] then ChildMoved(f, g, l, p)
                else GivenUp(g, p)
              else if st.node.seps != [] then
                var r := Child(st.node, 1);
                if r in f.tree.pages && f.tree.pages[r].Internal? && f.tree.pages[r].seps != [] then ChildMoved(f, g, r, p)
                else GivenUp(g, r)
              else g == f
  {
    hide Struct, Shrink, BorrowInternal, MergeInternal;
    RootFacts(f.tree);
    InternalBytesDecide(f.tree.pages[p].seps, pageSize);
    if up == [] {
      if f.tree.pages[p].seps == [] { RootGoes(f); }
    } else if InternalLow(f.tree.pages[p].seps, pageSize) {
      LowPage(f, p, up, pageSize);
    }
  }

  lemma RootGoes(f: TreeState)
    requires Struct(f.tree) && f.tree.root in f.tree.pages && f.tree.pages[f.tree.root].Internal? && f.tree.pages[f.tree.root].seps == []
    ensures CanShrink(f.tree) && f.tree.pages[f.tree.root].first in f.tree.pages
    ensures f.tree.root !in Shrink(f.tree).pages && Shrink(f.tree).root == f.tree.pages[f.tree.root].first
  {
    assert EdgeOk(f.tree, f.tree.root, 0);
  }

  lemma LowPage(f: TreeState, p: PageId, up: seq<Step>, pageSize: nat)
    requires Struct(f.tree) && p in f.tree.pages && f.tree.pages[p].Internal? && up != [] && IsPath(f.tree.pages, f.tree.root, p, up)
    ensures var g, st := PageRepaired(f, p, up, pageSize), up[0];
            && st.node.Internal? && st.slot <= |st.node.seps|
            && if st.slot > 0 then
                 var l := Child(st.node, st.slot - 1);
                 if l in f.tree.pages && f.tree.pages[l].Internal? && f.tree.pages[l].seps != [] then ChildMoved(f, g, l, p)
                 else GivenUp(g, p)
               else if st.node.seps != [] then
                 var r := Child(st.node, 1);
                 if r in f.tree.pages && f.tree.pages[r].Internal? && f.tree.pages[r].seps != [] then ChildMoved(f, g, r, p)
                 else GivenUp(g, r)
               else g == f
  {
    hide Struct, BorrowInternal, MergeInternal, AfterEntry, IsPath, PageRepaired, GivenUp, ChildMoved;
    StepFacts(f.tree, p, up);
    var st := up[0];
    if st.slot > 0 {
      var s := LeftSite(st, p);
      PairThere(f.tree, p, up, s);
      PageRepairedFromLeft(f, s, up, pageSize);
      if f.tree.pages[s.l].seps != [] { Rotation(f, s, |f.tree.pages[s.l].seps| - 1); } else { MergedAway(f, s, up, pageSize); }
    } else if st.node.seps != [] {
      var s := RightSite(st, p);
      PairThere(f.tree, p, up, s);
      PageRepairedFromRight(f, s, up, pageSize);
      if f.tree.pages[s.r].seps != [] { Rotation(f, s, |f.tree.pages[s.l].seps| + 1); } else { MergedAway(f, s, up, pageSize); }
    } else {
      OnlyPage(f, p, up, pageSize);
    }
  }

  lemma StepFacts(t: Tree, p: PageId, up: seq<Step>)
    requires up != [] && IsPath(t.pages, t.root, p, up)
    ensures p in t.pages && IsStep(t.pages, p, up[0]) && up[0].node.Internal? && up[0].slot <= |up[0].node.seps|
  {
  }

  /** A page and its sibling. */
  lemma PairThere(t: Tree, id: PageId, up: seq<Step>, s: Site)
    requires Struct(t) && up != [] && IsPath(t.pages, t.root, id, up) && id in t.pages && up[0].node.Internal?
    requires up[0].slot <= |up[0].node.seps|
    requires (up[0].slot > 0 && s == LeftSite(up[0], id)) || (up[0].slot == 0 && up[0].node.seps != [] && s == RightSite(up[0], id))
    ensures PairOk(t, s) && s.l in t.pages && s.r in t.pages
    ensures t.pages[id].Leaf? ==> t.pages[s.l].Leaf? && t.pages[s.r].Leaf?
    ensures t.pages[id].Internal? ==> CanMergeInternal(t, s)
  {
    StepFacts(t, id, up);
    assert EdgeOk(t, s.p, s.i) && EdgeOk(t, s.p, s.i + 1);
    hide Struct;
    PairFacts(t, s);
  }

  lemma Rotation(f: TreeState, s: Site, mid: nat)
    requires CanMergeInternal(f.tree, s)
    requires mid == |f.tree.pages[s.l].seps| - 1 || (mid == |f.tree.pages[s.l].seps| + 1 && f.tree.pages[s.r].seps != [])
    ensures var g := TreeState(BorrowInternal(f.tree, s, mid), f.supply);
            if mid < |f.tree.pages[s.l].seps| then ChildMoved(f, g, s.l, s.r) else ChildMoved(f, g, s.r, s.l)
  {
    PairFacts(f.tree, s);
    hide Struct;
    BorrowedAbove(f, s, mid);
  }

  lemma MergedAway(f: TreeState, s: Site, path: seq<Step>, pageSize: nat)
    requires path != [] && CanMergeInternal(f.tree, s)
    ensures GivenUp(AfterEntry(Dropped(MergeInternal(f.tree, s), f.supply, s.r), s.p, path[1..], pageSize), s.r)
  {
    MergedRepairedAbove(f, s, path, pageSize);
  }

  // ── Deletes: the leaves ──

  /** What removing an entry of leaf l, which then holds `es`, does: nothing else, when the leaf is the root, is not low, or has
      no sibling; else the sibling on the left, or the right one of a first child, lends an entry if it has two and the entry
      fits, and otherwise the two leaves are merged and the right one is given back. */
  ghost predicate LeafAfterRemoval(f: TreeState, f': TreeState, l: PageId, es: seq<Entry>, path: seq<Step>, pageSize: nat) {
    if path == [] || !LeafLow(es, pageSize) then OneLeafChanged(f, f', l, es)
    else
      var st := path[0];
      st.node.Internal? && st.slot <= |st.node.seps| &&
      if st.slot > 0 then
        var left := Child(st.node, st.slot - 1);
        left in f.tree.pages && f.tree.pages[left].Leaf? &&
        var ls := f.tree.pages[left].entries;
        if |ls| >= 2 && LeafBytes([ls[|ls| - 1]] + es) <= pageSize
        then EntryMoved(f, f', left, ls[..|ls| - 1], l, [ls[|ls| - 1]] + es)
        else LeavesMerged(f, f', left, ls + es, l)
      else if st.node.seps != [] then
        var right := Child(st.node, 1);
        right in f.tree.pages && f.tree.pages[right].Leaf? &&
        var rs := f.tree.pages[right].entries;
        if |rs| >= 2 && LeafBytes(es + [rs[0]]) <= pageSize
        then EntryMoved(f, f', l, es + [rs[0]], right, rs[1..])
        else LeavesMerged(f, f', l, es + rs, right)
      else OneLeafChanged(f, f', l, es)
  }

  /** What a delete does; the leaf and the way up from it are determined by the key. */
  ghost predicate DeleteLaw(f: TreeState, key: Bytes, pageSize: nat, f': TreeState) {
    forall c: nat, idx: nat, path: seq<Step> {:trigger Spot(f.tree, key, c, true, idx, path)} :: Spot(f.tree, key, c, true, idx, path) ==>
      LeafAfterRemoval(f, f', f.tree.chain[c], RemoveAt(f.tree.pages[f.tree.chain[c]].entries, idx), path, pageSize)
  }

  lemma DeleteObeys(f: TreeState, key: Bytes, pageSize: nat, f': TreeState)
    requires DeletedAs(f, key, pageSize, f')
    ensures DeleteLaw(f, key, pageSize, f')
  {
    hide Spot, Deleted, LeafAfterRemoval, Struct;
    forall c: nat, idx: nat, path: seq<Step> | Spot(f.tree, key, c, true, idx, path)
      ensures Domains(f.tree) && c < |f.tree.chain| && f.tree.chain[c] in f.tree.pages && f.tree.pages[f.tree.chain[c]].Leaf?
      ensures idx < |f.tree.pages[f.tree.chain[c]].entries|
      ensures LeafAfterRemoval(f, f', f.tree.chain[c], RemoveAt(f.tree.pages[f.tree.chain[c]].entries, idx), path, pageSize)
    {
      SpotPlace(f.tree, key, c, true, idx, path);
      DeletedIs(f, key, pageSize, f', c, true, idx, path);
      RemovalObeys(f, key, c, idx, path, pageSize);
    }
  }

  lemma RemovalObeys(f: TreeState, key: Bytes, c: nat, idx: nat, path: seq<Step>, pageSize: nat)
    requires Struct(f.tree) && Spot(f.tree, key, c, true, idx, path)
    ensures LeafAfterRemoval(f, Deleted(f, key, c, true, idx, path, pageSize), f.tree.chain[c],
                             RemoveAt(f.tree.pages[f.tree.chain[c]].entries, idx), path, pageSize)
  {
    var t, l := f.tree, f.tree.chain[c];
    var es := RemoveAt(t.pages[l].entries, idx);
    var u := t.(pages := SetEntries(t.pages, l, es));
    LeafBytesDecide(es, pageSize);
    if path != [] && LeafLow(es, pageSize) {
      RemovedKeepsStruct(t, key, c, idx, path);
      hide Struct, LeafAfterRemoval, Spot, LeafRepaired;
      LowLeaf(f, l, es, c, path, pageSize);
    }
  }

  lemma RemovedKeepsStruct(t: Tree, key: Bytes, c: nat, idx: nat, path: seq<Step>)
    requires Struct(t) && Spot(t, key, c, true, idx, path)
    ensures Struct(t.(pages := SetEntries(t.pages, t.chain[c], RemoveAt(t.pages[t.chain[c]].entries, idx))))
    ensures t.chain[c] in t.pages && IsPath(t.pages, t.root, t.chain[c], path)
  {
    RemoveInLeaf(t, c, idx, key);
  }

  lemma LowLeaf(f: TreeState, l: PageId, es: seq<Entry>, c: nat, path: seq<Step>, pageSize: nat)
    requires l in f.tree.pages && f.tree.pages[l].Leaf? && c < |f.tree.chain| && f.tree.chain[c] == l
    requires Struct(f.tree) && Struct(f.tree.(pages := SetEntries(f.tree.pages, l, es)))
    requires path != [] && IsPath(f.tree.pages, f.tree.root, l, path) && LeafLow(es, pageSize)
    ensures LeafAfterRemoval(f, LeafRepaired(TreeState(f.tree.(pages := SetEntries(f.tree.pages, l, es)), f.supply), l, c, path, pageSize),
                             l, es, path, pageSize)
  {
    hide Struct, LeafRepaired, IsPath, AfterEntry, MergeLeaf, LeafBoundaryMoved, EntryMoved, LeavesMerged, LeafLow, EntriesFit;
    StepFacts(f.tree, l, path);
    var st, g := path[0], TreeState(f.tree.(pages := SetEntries(f.tree.pages, l, es)), f.supply);
    if st.slot > 0 {
      var s := LeftSite(st, l);
      PairThere(f.tree, l, path, s);
      PairStays(f.tree, l, es, s);
      var ls := f.tree.pages[s.l].entries;
      var d := LeafRepairedFromLeft(g, s, c, path, pageSize);
      if |ls| >= 2 { LeafBytesDecide([ls[|ls| - 1]] + es, pageSize); }
      if LendsLast(ls, es, pageSize) {
        BoundaryMoves(f, g, l, es, s, |ls| - 1);
        assert (ls + es)[..|ls| - 1] == ls[..|ls| - 1] && (ls + es)[|ls| - 1..] == [ls[|ls| - 1]] + es;
      } else {
        LeavesMerge(f, g, l, es, s, d, path, pageSize);
      }
    } else if st.node.seps != [] {
      var s := RightSite(st, l);
      PairThere(f.tree, l, path, s);
      PairStays(f.tree, l, es, s);
      var rs := f.tree.pages[s.r].entries;
      LeafRepairedFromRight(g, s, c, path, pageSize);
      if |rs| >= 2 { LeafBytesDecide(es + [rs[0]], pageSize); }
      if LendsFirst(es, rs, pageSize) {
        BoundaryMoves(f, g, l, es, s, |es| + 1);
        assert (es + rs)[..|es| + 1] == es + [rs[0]] && (es + rs)[|es| + 1..] == rs[1..];
      } else {
        LeavesMerge(f, g, l, es, s, c, path, pageSize);
      }
    } else {
      OnlyLeaf(g, l, c, path, pageSize);
    }
  }

  lemma PairStays(t: Tree, l: PageId, es: seq<Entry>, s: Site)
    requires l in t.pages && t.pages[l].Leaf? && PairOk(t, s) && (l == s.l || l == s.r) && s.l in t.pages && s.r in t.pages
    requires Struct(t.(pages := SetEntries(t.pages, l, es)))
    ensures PairOk(t.(pages := SetEntries(t.pages, l, es)), s) && s.l != s.r && s.p != s.l && s.p != s.r
  {
    PairFacts(t, s);
    hide Struct;
  }

  lemma BoundaryMoves(f: TreeState, g: TreeState, l: PageId, es: seq<Entry>, s: Site, mid: nat)
    requires l in f.tree.pages && f.tree.pages[l].Leaf? && g == TreeState(f.tree.(pages := SetEntries(f.tree.pages, l, es)), f.supply)
    requires PairOk(g.tree, s) && s.l in g.tree.pages && g.tree.pages[s.l].Leaf? && s.r in g.tree.pages && g.tree.pages[s.r].Leaf?
    requires s.l != s.r && s.p != s.l && s.p != s.r && (l == s.l || l == s.r)
    requires mid < |g.tree.pages[s.l].entries + g.tree.pages[s.r].entries|
    ensures var all := g.tree.pages[s.l].entries + g.tree.pages[s.r].entries;
            EntryMoved(f, TreeState(LeafBoundaryMoved(g.tree, s, mid), g.supply), s.l, all[..mid], s.r, all[mid..])
  {
    hide Struct;
  }

  lemma LeavesMerge(f: TreeState, g: TreeState, l: PageId, es: seq<Entry>, s: Site, d: nat, path: seq<Step>, pageSize: nat)
    requires l in f.tree.pages && f.tree.pages[l].Leaf? && g == TreeState(f.tree.(pages := SetEntries(f.tree.pages, l, es)), f.supply)
    requires CanMergeLeaf(g.tree, s, d) && s.l != s.r && s.p != s.l && s.p != s.r && (l == s.l || l == s.r) && path != []
    ensures LeavesMerged(f, AfterEntry(Dropped(MergeLeaf(g.tree, s, d), g.supply, s.r), s.p, path[1..], pageSize),
                         s.l, g.tree.pages[s.l].entries + g.tree.pages[s.r].entries, s.r)
  {
    hide Struct, AfterEntry, OnlyGaveBack;
    var m := Dropped(MergeLeaf(g.tree, s, d), g.supply, s.r);
    LeafEmptied(f, g, l, es, s, d);
    hide MergeLeaf;
    var h := AfterEntry(m, s.p, path[1..], pageSize);
    AfterEntryAbove(m, s.p, path[1..], pageSize);
    GaveBackTwice(f, m, h);
    KeptTwice(f.tree, m.tree, h.tree, {s.l, s.r});
    GivenBackStays(m, h, s.r);
  }

  lemma LeafEmptied(f: TreeState, g: TreeState, l: PageId, es: seq<Entry>, s: Site, d: nat)
    requires l in f.tree.pages && f.tree.pages[l].Leaf? && g == TreeState(f.tree.(pages := SetEntries(f.tree.pages, l, es)), f.supply)
    requires CanMergeLeaf(g.tree, s, d) && s.l != s.r && s.p != s.l && s.p != s.r && (l == s.l || l == s.r)
    ensures var m := Dropped(MergeLeaf(g.tree, s, d), g.supply, s.r);
            && LeavesKept(f.tree, m.tree, {s.l, s.r}) && OnlyGaveBack(f, m) && s.r !in m.tree.pages && s.r in m.supply.free
            && IsLeafOf(m.tree, s.l, g.tree.pages[s.l].entries + g.tree.pages[s.r].entries)
  {
    MergeLeafShape(g.tree, s, d);
    hide Struct, MergeLeaf;
    var m := Dropped(MergeLeaf(g.tree, s, d), g.supply, s.r);
    assert m.supply.free[1..] == f.supply.free;
  }

  // ── Inserts ──

  /** The page numbers that are left are distinct, and none is a leaf's. */
  ghost predicate Unused(f: TreeState) {
    && 0 < f.supply.count < PAGE_IDS
    && (forall i {:trigger f.supply.free[i]} :: 0 <= i < |f.supply.free| ==> 0 < f.supply.free[i] < f.supply.count)
    && (forall i, j :: 0 <= i < j < |f.supply.free| ==> f.supply.free[i] != f.supply.free[j])
    && (forall id {:trigger f.tree.pages[id]} :: id in f.tree.pages ==>
          0 < id < f.supply.count && id !in f.supply.free)
  }

  ghost predicate NoLeafNext(f: TreeState) {
    forall id {:trigger f.tree.pages[id]} :: id in f.tree.pages && f.tree.pages[id].Leaf? ==>
      0 < id < f.supply.count && id !in f.supply.free
  }

  /** Putting an entry in leaf l, at place c of the chain, which then holds `es`: nothing else, when it fits; else the leaf keeps
      the first half of the entries, and the others go to the next page number, next on the chain. */
  ghost predicate LeafAfterPut(f: TreeState, f': TreeState, l: PageId, c: nat, es: seq<Entry>, pageSize: nat) {
    if LeafBytes(es) <= pageSize then OneLeafChanged(f, f', l, es)
    else
      && IsLeafOf(f'.tree, l, es[..|es| / 2]) && IsLeafOf(f'.tree, NextId(f.supply), es[|es| / 2..])
      && NextId(f.supply) !in f.tree.pages && LeavesKept(f.tree, f'.tree, {l})
      && c < |f.tree.chain| && f'.tree.chain == f.tree.chain[..c + 1] + [NextId(f.supply)] + f.tree.chain[c + 1..]
  }

  ghost predicate InsertLaw(f: TreeState, e: Entry, pageSize: nat, f': TreeState) {
    forall c: nat, found: bool, idx: nat, path: seq<Step> {:trigger Spot(f.tree, e.key, c, found, idx, path)} ::
      Spot(f.tree, e.key, c, found, idx, path) ==>
        LeafAfterPut(f, f', f.tree.chain[c], c, PutEntry(f.tree.pages[f.tree.chain[c]].entries, found, idx, e), pageSize)
  }

  ghost predicate LeavesStay(f: TreeState, g: TreeState) {
    NoLeafNext(g) && LeavesKept(f.tree, g.tree, {}) && g.tree.chain == f.tree.chain
  }

  lemma StayTwice(f: TreeState, g: TreeState, h: TreeState)
    requires LeavesStay(f, g) && LeavesStay(g, h)
    ensures LeavesStay(f, h)
  {
    hide LeavesKept, NoLeafNext;
    KeptTwice(f.tree, g.tree, h.tree, {});
  }

  lemma {:induction false} PromotedAbove(f: TreeState, l: PageId, key: Bytes, r: PageId, path: seq<Step>, pageSize: nat)
    requires NoLeafNext(f)
    ensures LeavesStay(f, Promoted(f, l, key, r, path, pageSize))
    decreases |path|, 0
  {
    var t := f.tree;
    if path != [] {
      hide NoLeafNext, LeavesStay;
      RaisedAbove(f, path[0].page, path[0].slot, key, r, path[1..], pageSize);
    }
  }

  lemma {:induction false} RaisedAbove(f: TreeState, p: PageId, i: nat, key: Bytes, r: PageId, up: seq<Step>, pageSize: nat)
    requires NoLeafNext(f)
    ensures LeavesStay(f, Raised(f, p, i, key, r, up, pageSize))
    decreases |up|, 2
  {
    hide PageCut, SepsFit;
    var t := f.tree;
    if p in t.pages && t.pages[p].Internal? && i <= |t.pages[p].seps| {
      var all := InsertAt(t.pages[p].seps, i, Sep(key, r));
      if !SepsFit(all, pageSize) { PageCutAbove(f, p, all, |all| / 2, up, pageSize); }
    }
  }

  lemma {:induction false} PageCutAbove(f: TreeState, p: PageId, all: seq<Sep>, mid: nat, up: seq<Step>, pageSize: nat)
    requires NoLeafNext(f)
    ensures LeavesStay(f, PageCut(f, p, all, mid, up, pageSize))
    decreases |up|, 1
  {
    hide Promoted;
    var t, next := f.tree, NextId(f.supply);
    if p in t.pages && t.pages[p].Internal? && mid < |all| && p in t.meta {
      var u := t.(pages := t.pages[p := t.pages[p].(seps := all)]);
      var g := TreeState(CutInternalTree(u, p, mid, next), AfterNext(f.supply));
      CutAbove(f, p, all, mid);
      hide NoLeafNext, LeavesStay, CutInternalTree;
      PromotedAbove(g, p, all[mid].key, next, up, pageSize);
      StayTwice(f, g, Promoted(g, p, all[mid].key, next, up, pageSize));
    }
  }

  lemma CutAbove(f: TreeState, p: PageId, all: seq<Sep>, mid: nat)
    requires NoLeafNext(f) && p in f.tree.pages && f.tree.pages[p].Internal? && mid < |all| && p in f.tree.meta
    ensures var u := f.tree.(pages := f.tree.pages[p := f.tree.pages[p].(seps := all)]);
            LeavesStay(f, TreeState(CutInternalTree(u, p, mid, NextId(f.supply)), AfterNext(f.supply)))
  {
  }

  lemma InsertObeys(f: TreeState, e: Entry, pageSize: nat, f': TreeState)
    requires InsertedAs(f, e, pageSize, f') && InsertFits(f.tree, e, Spare(f.supply), pageSize) && Unused(f)
    ensures InsertLaw(f, e, pageSize, f')
  {
    hide Spot, Inserted, LeafAfterPut, Struct, Unused, LeafRoom;
    forall c: nat, found: bool, idx: nat, path: seq<Step> | Spot(f.tree, e.key, c, found, idx, path)
      ensures Domains(f.tree) && c < |f.tree.chain| && f.tree.chain[c] in f.tree.pages && f.tree.pages[f.tree.chain[c]].Leaf?
      ensures if found then idx < |f.tree.pages[f.tree.chain[c]].entries| else idx <= |f.tree.pages[f.tree.chain[c]].entries|
      ensures LeafAfterPut(f, f', f.tree.chain[c], c, PutEntry(f.tree.pages[f.tree.chain[c]].entries, found, idx, e), pageSize)
    {
      SpotPlace(f.tree, e.key, c, found, idx, path);
      InsertedIs(f, e, pageSize, f', c, found, idx, path);
      InsertFitsAt(f.tree, e, Spare(f.supply), pageSize, c, found, idx, path);
      PutObeys(f, e, c, found, idx, path, pageSize);
    }
  }

  lemma PutObeys(f: TreeState, e: Entry, c: nat, found: bool, idx: nat, path: seq<Step>, pageSize: nat)
    requires Struct(f.tree) && Spot(f.tree, e.key, c, found, idx, path) && Unused(f)
    requires LeafRoom(PutEntry(f.tree.pages[f.tree.chain[c]].entries, found, idx, e), path, Spare(f.supply), pageSize)
    ensures LeafAfterPut(f, Inserted(f, e, c, found, idx, path, pageSize), f.tree.chain[c], c,
                         PutEntry(f.tree.pages[f.tree.chain[c]].entries, found, idx, e), pageSize)
  {
    var t, l := f.tree, f.tree.chain[c];
    var es := PutEntry(t.pages[l].entries, found, idx, e);
    LeafBytesDecide(es, pageSize);
    if LeafBytes(es) > pageSize {
      assert LinkOk(t, c) && l in t.meta;
      assert t.pages[l].next != 0 ==> t.pages[l].next in t.pages by { if c + 1 < |t.chain| { assert LinkOk(t, c + 1); } }
      hide Struct, EntriesFit, Room, LeafCut, Spot;
      HalvesObey(f, l, c, es, path, pageSize);
    }
  }

  lemma NextUnused(f: TreeState)
    requires Unused(f) && Spare(f.supply) > 0
    ensures var next, s := NextId(f.supply), AfterNext(f.supply);
            && next !in f.tree.pages && 0 < next < s.count && next !in s.free
            && forall id :: id in f.tree.pages ==> 0 < id < s.count && id !in s.free
  {
    if f.supply.free != [] { assert 0 < f.supply.free[0] < f.supply.count; }
  }

  lemma LeafHalves(f: TreeState, l: PageId, c: nat, es: seq<Entry>, mid: nat)
    requires Unused(f) && Spare(f.supply) > 0 && c < |f.tree.chain| && l in f.tree.pages && f.tree.pages[l].Leaf? && l in f.tree.meta
    requires f.tree.pages[l].next != 0 ==> f.tree.pages[l].next in f.tree.pages
    requires mid < |es| && NextId(f.supply) !in f.tree.pages
    ensures var next, u := NextId(f.supply), f.tree.(pages := SetEntries(f.tree.pages, l, es));
            var t := CutLeafTree(u, l, mid, next, c);
            && LeavesKept(f.tree, t, {l}) && IsLeafOf(t, l, es[..mid]) && IsLeafOf(t, next, es[mid..])
            && NoLeafNext(TreeState(t, AfterNext(f.supply)))
            && t.chain == f.tree.chain[..c + 1] + [next] + f.tree.chain[c + 1..]
  {
    NextUnused(f);
    hide Unused, AfterNext, NextId, SplitMeta;
  }

  lemma HalvesObey(f: TreeState, l: PageId, c: nat, es: seq<Entry>, path: seq<Step>, pageSize: nat)
    requires Unused(f) && c < |f.tree.chain| && l in f.tree.pages && f.tree.pages[l].Leaf? && l in f.tree.meta && es != []
    requires f.tree.pages[l].next != 0 ==> f.tree.pages[l].next in f.tree.pages
    requires Spare(f.supply) > 0 && LeafBytes(es) > pageSize
    ensures LeafAfterPut(f, LeafCut(f, l, es, |es| / 2, c, path, pageSize), l, c, es, pageSize)
  {
    hide Promoted;
    var t, next, mid := f.tree, NextId(f.supply), |es| / 2;
    NextUnused(f);
    var u := t.(pages := SetEntries(t.pages, l, es));
    var g := TreeState(CutLeafTree(u, l, mid, next, c), AfterNext(f.supply));
    LeafHalves(f, l, c, es, mid);
    hide Unused, CutLeafTree, NoLeafNext, NextId, AfterNext;
    PromotedAbove(g, l, es[mid].key, next, path, pageSize);
    var h := Promoted(g, l, es[mid].key, next, path, pageSize);
    KeptTwice(t, g.tree, h.tree, {l});
  }

  /** A separator put in slot i of an internal page: the page has it, when it fits; else the page keeps the first half of the
      separators, the next page number gets those after the middle one, and that one goes up. */
  lemma SeparatorRaised(f: TreeState, p: PageId, i: nat, key: Bytes, r: PageId, up: seq<Step>, pageSize: nat)
    requires p in f.tree.pages && f.tree.pages[p].Internal? && i <= |f.tree.pages[p].seps| && p in f.tree.meta
    requires NextId(f.supply) !in f.tree.pages
    ensures var g, next := Raised(f, p, i, key, r, up, pageSize), NextId(f.supply);
            var all := f.tree.pages[p].seps[..i] + [Sep(key, r)] + f.tree.pages[p].seps[i..];
            if InternalBytes(all) <= pageSize then
              g == f.(tree := f.tree.(pages := f.tree.pages[p := f.tree.pages[p].(seps := all)]))
            else exists h: TreeState ::
              && g == Promoted(h, p, all[|all| / 2].key, next, up, pageSize) && h.supply == AfterNext(f.supply)
              && p in h.tree.pages && h.tree.pages[p].Internal? && h.tree.pages[p].seps == all[..|all| / 2]
              && next in h.tree.pages && h.tree.pages[next].Internal?
              && h.tree.pages[next].first == all[|all| / 2].child && h.tree.pages[next].seps == all[|all| / 2 + 1..]
  {
    hide Promoted;
    var all := InsertAt(f.tree.pages[p].seps, i, Sep(key, r));
    InternalBytesDecide(all, pageSize);
    if InternalBytes(all) > pageSize {
      var u := f.tree.(pages := f.tree.pages[p := f.tree.pages[p].(seps := all)]);
      var h := TreeState(CutInternalTree(u, p, |all| / 2, NextId(f.supply)), AfterNext(f.supply));
      assert Raised(f, p, i, key, r, up, pageSize) == Promoted(h, p, all[|all| / 2].key, NextId(f.supply), up, pageSize);
    }
  }
}
