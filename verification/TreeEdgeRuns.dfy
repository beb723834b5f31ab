/** Runs of inserts and deletes on a new file after which the leaf at an edge of the tree is empty. */
module TreeEdgeRuns {
  import opened Wrappers
  import opened Keys
  import opened TreeModel
  import opened TreeSplit
  import opened TreeMerge
  import opened TreeRoot
  import opened TreeBorrow
  import opened TreePending
  import opened TreeLeaf
  import opened TreeSize
  import opened TreeSized
  import opened TreeFit
  import opened TreeGrowth
  import opened TreeShrink
  import opened TreeEdges
  import opened TreeLimits
  import opened TreeContents
  import opened BPlusTree
  import opened BTreeRange
  import opened TreeOverflow

  // Four entries, one to a leaf, with keys so long that a page takes two separators: the tree has three levels.

  datatype Four = Four(e1: Entry, e2: Entry, e3: Entry, e4: Entry)

  ghost predicate IsLong(e: Entry) {
    |e.key| == 1990 && |e.value| == 100
  }

  ghost predicate FourOk(x: Four) {
    && IsLong(x.e1) && IsLong(x.e2) && IsLong(x.e3) && IsLong(x.e4)
    && Rank(x.e1.key) < Rank(x.e2.key) < Rank(x.e3.key) < Rank(x.e4.key)
  }

  /** What is known of a tree and its page numbers besides the ghost levels and ranges. */
  datatype Shape = Shape(pages: map<PageId, Node>, root: PageId, chain: seq<PageId>, supply: PageSupply)

  ghost predicate Has(f: TreeState, s: Shape) {
    f.tree.pages == s.pages && f.tree.root == s.root && f.tree.chain == s.chain && f.supply == s.supply
  }

  // ── Sizes ──

  lemma LeafSizes(a: Entry, b: Entry)
    requires IsLong(a) && IsLong(b)
    ensures EntriesFit([a], 4096) && !EntriesFit([a, b], 4096)
    ensures forall p, q, r :: !Underfull(Leaf(p, q, r, [a]), 4096) && Underfull(Leaf(p, q, r, []), 4096)
  {
    CostOfThree(a, b, b);
  }

  lemma PageSizes(a: Bytes, b: Bytes, c: Bytes)
    requires |a| == |b| == |c| == 1990
    ensures forall p :: SepsFit([Sep(a, p)], 4096)
    ensures forall p, q :: SepsFit([Sep(a, p), Sep(b, q)], 4096)
    ensures forall p, q, r :: !SepsFit([Sep(a, p), Sep(b, q), Sep(c, r)], 4096)
    ensures forall p, q :: Underfull(Internal(p, q, []), 4096)
  {
    hide Sum, SepCosts;
    forall p ensures SepsFit([Sep(a, p)], 4096) { SumOfOne(Entry([], []), Sep(a, p)); }
    forall p, q ensures SepsFit([Sep(a, p), Sep(b, q)], 4096) { TwoSeps(Sep(a, p), Sep(b, q)); }
    forall p, q, r ensures !SepsFit([Sep(a, p), Sep(b, q), Sep(c, r)], 4096) {
      var two, one := [Sep(a, p), Sep(b, q)], [Sep(c, r)];
      assert two + one == [Sep(a, p), Sep(b, q), Sep(c, r)];
      SepCostsConcat(two, one);
      TwoSeps(Sep(a, p), Sep(b, q));
      SumOfOne(Entry([], []), Sep(c, r));
    }
  }

  // ── Four inserts ──

  function Built(x: Four, n: nat): Shape
    requires 1 <= n <= 4
  {
    if n == 1 then Shape(map[1 := Leaf(0, 0, 0, [x.e1])], 1, [1], PageSupply([], 2))
    else if n == 2 then
      Shape(map[1 := Leaf(3, 0, 2, [x.e1]), 2 := Leaf(3, 1, 0, [x.e2]), 3 := Internal(0, 1, [Sep(x.e2.key, 2)])],
            3, [1, 2], PageSupply([], 4))
    else if n == 3 then
      Shape(map[1 := Leaf(3, 0, 2, [x.e1]), 2 := Leaf(3, 1, 4, [x.e2]), 4 := Leaf(3, 2, 0, [x.e3]),
                3 := Internal(0, 1, [Sep(x.e2.key, 2), Sep(x.e3.key, 4)])], 3, [1, 2, 4], PageSupply([], 5))
    else
      Shape(map[1 := Leaf(3, 0, 2, [x.e1]), 2 := Leaf(3, 1, 4, [x.e2]), 4 := Leaf(6, 2, 5, [x.e3]), 5 := Leaf(6, 4, 0, [x.e4]),
                3 := Internal(7, 1, [Sep(x.e2.key, 2)]), 6 := Internal(7, 4, [Sep(x.e4.key, 5)]),
                7 := Internal(0, 3, [Sep(x.e3.key, 6)])], 7, [1, 2, 4, 5], PageSupply([], 8))
  }

  /** A key above all others belongs at the end of the last leaf. */
  lemma LastSpot(t: Tree, e: Entry, key: Bytes, path: seq<Step>)
    requires Struct(t) && t.chain != [] && Rank(e.key) < Rank(key)
    requires var l := t.chain[|t.chain| - 1]; l in t.pages && t.pages[l].Leaf? && t.pages[l].entries == [e] && IsPath(t.pages, t.root, l, path)
    ensures Spot(t, key, |t.chain| - 1, false, 1, path)
  {
    var c := |t.chain| - 1;
    RankInRange(key);
    assert LinkOk(t, c) && NodeOk(t.pages[t.chain[c]], t.meta[t.chain[c]]);
    assert t.pages[t.chain[c]].entries[0] == e;
  }

  /** Two long entries split their leaf. */
  lemma Appended(f: TreeState, l: PageId, e: Entry, e': Entry, path: seq<Step>, f': TreeState)
    requires Struct(f.tree) && f.tree.chain != [] && f.tree.chain[|f.tree.chain| - 1] == l && l in f.tree.pages
    requires f.tree.pages[l].Leaf? && f.tree.pages[l].entries == [e] && IsPath(f.tree.pages, f.tree.root, l, path)
    requires IsLong(e) && IsLong(e') && Rank(e.key) < Rank(e'.key) && Spare(f.supply) > 0
    requires Room(path, e'.key, Spare(f.supply) - 1, 4096)
    ensures OpFits(f, Put(e'.key, e'.value), 4096)
    ensures OpStep(f, Put(e'.key, e'.value), 4096, f') ==> f' == LeafCut(f, l, [e, e'], 1, |f.tree.chain| - 1, path, 4096)
  {
    hide Struct, Rank, EntriesFit, Room, LeafCut, OpFits, OpStep, IsPath;
    LastSpot(f.tree, e, e'.key, path);
    LeafSizes(e, e');
    LeafSizes(e', e);
    var es := PutEntry([e], false, 1, e');
    assert es == [e, e'] && es[..1] == [e] && es[1..] == [e'];
    PutSplitting(f, e'.key, e'.value, f', |f.tree.chain| - 1, false, 1, path);
  }

  lemma SecondAppend(x: Four, f: TreeState, f': TreeState)
    requires FourOk(x) && Struct(f.tree) && Has(f, Built(x, 1))
    ensures OpFits(f, Put(x.e2.key, x.e2.value), 4096)
    ensures OpStep(f, Put(x.e2.key, x.e2.value), 4096, f') ==> Has(f', Built(x, 2))
  {
    hide Struct, Rank, SepsFit, OpFits, OpStep;
    PageSizes(x.e2.key, x.e2.key, x.e2.key);
    Appended(f, 1, x.e1, x.e2, [], f');
    if OpStep(f, Put(x.e2.key, x.e2.value), 4096, f') { SecondShape(x, f); }
  }

  lemma SecondShape(x: Four, f: TreeState)
    requires Struct(f.tree) && Has(f, Built(x, 1))
    ensures Has(LeafCut(f, 1, [x.e1, x.e2], 1, 0, [], 4096), Built(x, 2))
  {
    hide Rank, NodesOk, EdgesOk, ParentsOk, RootOk, ChainOk;
    var es := [x.e1, x.e2];
    assert es[..1] == [x.e1] && es[1..] == [x.e2];
    var u := f.tree.(pages := SetEntries(f.tree.pages, 1, es));
    var t := CutLeafTree(u, 1, 1, 2, 0);
    assert t.chain == [1, 2];
    assert t.pages == map[1 := Leaf(0, 0, 2, [x.e1]), 2 := Leaf(0, 1, 0, [x.e2])];
    assert AttachRoot(t, 1, x.e2.key, 2, 3).pages == Built(x, 2).pages;
  }

  lemma ThirdAppend(x: Four, f: TreeState, f': TreeState)
    requires FourOk(x) && Struct(f.tree) && Has(f, Built(x, 2))
    ensures OpFits(f, Put(x.e3.key, x.e3.value), 4096)
    ensures OpStep(f, Put(x.e3.key, x.e3.value), 4096, f') ==> Has(f', Built(x, 3))
  {
    hide Struct, Rank, SepsFit, OpFits, OpStep;
    PageSizes(x.e2.key, x.e3.key, x.e4.key);
    var path := [Step(3, 1, f.tree.pages[3], [], [])];
    assert IsStep(f.tree.pages, 2, path[0]) && path[1..] == [] && IsPath(f.tree.pages, 3, 3, []);
    assert InsertAt([Sep(x.e2.key, 2)], 1, Sep(x.e3.key, 0)) == [Sep(x.e2.key, 2), Sep(x.e3.key, 0)];
    assert Room(path, x.e3.key, Spare(f.supply) - 1, 4096);
    Appended(f, 2, x.e2, x.e3, path, f');
    if OpStep(f, Put(x.e3.key, x.e3.value), 4096, f') { ThirdShape(x, f, path); }
  }

  lemma ThirdShape(x: Four, f: TreeState, path: seq<Step>)
    requires FourOk(x) && Struct(f.tree) && Has(f, Built(x, 2)) && path == [Step(3, 1, f.tree.pages[3], [], [])]
    ensures Has(LeafCut(f, 2, [x.e2, x.e3], 1, 1, path, 4096), Built(x, 3))
  {
    hide Rank, NodesOk, EdgesOk, ParentsOk, RootOk, ChainOk, SepsFit;
    PageSizes(x.e2.key, x.e3.key, x.e4.key);
    var es := [x.e2, x.e3];
    assert es[..1] == [x.e2] && es[1..] == [x.e3];
    var u := f.tree.(pages := SetEntries(f.tree.pages, 2, es));
    var t := CutLeafTree(u, 2, 1, 4, 1);
    assert t.chain == [1, 2, 4];
    var all := [Sep(x.e2.key, 2), Sep(x.e3.key, 4)];
    assert InsertAt([Sep(x.e2.key, 2)], 1, Sep(x.e3.key, 4)) == all;
    assert Attach(t, 3, 1, x.e3.key, 4).pages == Built(x, 3).pages;
    var g := TreeState(t, PageSupply([], 5));
    assert path[1..] == [];
    assert Raised(g, 3, 1, x.e3.key, 4, [], 4096) == TreeState(Attach(t, 3, 1, x.e3.key, 4), g.supply);
    assert Promoted(g, 2, x.e3.key, 4, path, 4096) == Raised(g, 3, 1, x.e3.key, 4, [], 4096);
  }

  lemma FourthAppend(x: Four, f: TreeState, f': TreeState)
    requires FourOk(x) && Struct(f.tree) && Has(f, Built(x, 3))
    ensures OpFits(f, Put(x.e4.key, x.e4.value), 4096)
    ensures OpStep(f, Put(x.e4.key, x.e4.value), 4096, f') ==> Has(f', Built(x, 4))
  {
    hide Struct, Rank, SepsFit, OpFits, OpStep;
    PageSizes(x.e2.key, x.e3.key, x.e4.key);
    PageSizes(x.e3.key, x.e3.key, x.e4.key);
    PageSizes(x.e4.key, x.e3.key, x.e4.key);
    var path := [Step(3, 2, f.tree.pages[3], [], [])];
    assert IsStep(f.tree.pages, 4, path[0]) && path[1..] == [] && IsPath(f.tree.pages, 3, 3, []);
    var all := [Sep(x.e2.key, 2), Sep(x.e3.key, 4), Sep(x.e4.key, 0)];
    assert InsertAt([Sep(x.e2.key, 2), Sep(x.e3.key, 4)], 2, Sep(x.e4.key, 0)) == all;
    assert all[..1] == [Sep(x.e2.key, 2)] && all[2..] == [Sep(x.e4.key, 0)];
    assert Room([], x.e3.key, Spare(f.supply) - 2, 4096);
    assert HalvesRoom(all, [], Spare(f.supply) - 1, 4096);
    assert Room(path, x.e4.key, Spare(f.supply) - 1, 4096);
    Appended(f, 4, x.e3, x.e4, path, f');
    if OpStep(f, Put(x.e4.key, x.e4.value), 4096, f') { FourthShape(x, f, path); }
  }

  lemma FourthShape(x: Four, f: TreeState, path: seq<Step>)
    requires FourOk(x) && Struct(f.tree) && Has(f, Built(x, 3)) && path == [Step(3, 2, f.tree.pages[3], [], [])]
    ensures Has(LeafCut(f, 4, [x.e3, x.e4], 1, 2, path, 4096), Built(x, 4))
  {
    hide Rank, NodesOk, EdgesOk, ParentsOk, RootOk, ChainOk, SepsFit;
    PageSizes(x.e2.key, x.e3.key, x.e4.key);
    var es := [x.e3, x.e4];
    assert es[..1] == [x.e3] && es[1..] == [x.e4];
    var u := f.tree.(pages := SetEntries(f.tree.pages, 4, es));
    var t := CutLeafTree(u, 4, 1, 5, 2);
    assert t.chain == [1, 2, 4, 5];
    var all := [Sep(x.e2.key, 2), Sep(x.e3.key, 4), Sep(x.e4.key, 5)];
    assert InsertAt([Sep(x.e2.key, 2), Sep(x.e3.key, 4)], 2, Sep(x.e4.key, 5)) == all;
    var g := TreeState(t, PageSupply([], 6));
    assert path[1..] == [];
    RootCutInTwo(x, g, all);
    assert Raised(g, 3, 2, x.e4.key, 5, [], 4096) == PageCut(g, 3, all, 1, [], 4096);
    assert Promoted(g, 4, x.e4.key, 5, path, 4096) == Raised(g, 3, 2, x.e4.key, 5, [], 4096);
  }

  lemma RootCutInTwo(x: Four, g: TreeState, all: seq<Sep>)
    requires all == [Sep(x.e2.key, 2), Sep(x.e3.key, 4), Sep(x.e4.key, 5)]
    requires Has(g, Shape(map[1 := Leaf(3, 0, 2, [x.e1]), 2 := Leaf(3, 1, 4, [x.e2]), 4 := Leaf(3, 2, 5, [x.e3]),
                              5 := Leaf(3, 4, 0, [x.e4]), 3 := Internal(0, 1, [Sep(x.e2.key, 2), Sep(x.e3.key, 4)])],
                          3, [1, 2, 4, 5], PageSupply([], 6)))
    requires 3 in g.tree.meta
    ensures Has(PageCut(g, 3, all, 1, [], 4096), Built(x, 4))
  {
    var n := g.tree.pages[3].(seps := all);
    var u := g.tree.(pages := g.tree.pages[3 := n]);
    assert all[..1] == [Sep(x.e2.key, 2)] && all[2..] == [Sep(x.e4.key, 5)];
    assert Child(n, 2) == 4 && Child(n, 3) == 5 && MovedChildren(n, 1) == {4, 5};
    var t := CutInternalTree(u, 3, 1, 6);
    assert AttachRoot(t, 3, x.e3.key, 6, 7).pages == Built(x, 4).pages;
  }

  // ── Deletes ──

  ghost function Emptied(f: TreeState, l: PageId): TreeState
    requires l in f.tree.pages && f.tree.pages[l].Leaf?
  {
    TreeState(f.tree.(pages := SetEntries(f.tree.pages, l, [])), f.supply)
  }

  /** The only entry of a leaf is removed. */
  lemma Removing(f: TreeState, l: PageId, e: Entry, c: nat, path: seq<Step>, f': TreeState)
    requires Struct(f.tree) && c < |f.tree.chain| && f.tree.chain[c] == l && l in f.tree.pages
    requires f.tree.pages[l].Leaf? && f.tree.pages[l].entries == [e] && IsLong(e)
    requires path != [] && IsPath(f.tree.pages, f.tree.root, l, path)
    requires LeafRepairs([], LeftEntries(f.tree.pages, path), RightEntries(f.tree.pages, path), path, 4096)
    ensures Struct(Emptied(f, l).tree)
    ensures OpFits(f, Remove(e.key), 4096)
    ensures OpStep(f, Remove(e.key), 4096, f') ==> f' == LeafRepaired(Emptied(f, l), l, c, path, 4096)
  {
    RemovalSpot(f.tree, l, e, c, path);
    hide Struct, Rank, IsPath, LeafRepairs, LeftEntries, RightEntries, LeafRepaired, DeletedAs, DeleteFits, EntriesFit;
    assert RemoveAt([e], 0) == [];
    LeafSizes(e, e);
    DeleteFitsAt(f.tree, e.key, 4096, c, true, 0, path);
    RemoveInLeaf(f.tree, c, 0, e.key);
    hide Spot;
    if OpStep(f, Remove(e.key), 4096, f') { DeletedIs(f, e.key, 4096, f', c, true, 0, path); }
  }

  lemma RemovalSpot(t: Tree, l: PageId, e: Entry, c: nat, path: seq<Step>)
    requires Struct(t) && c < |t.chain| && t.chain[c] == l && l in t.pages && t.pages[l].Leaf? && t.pages[l].entries == [e]
    requires IsPath(t.pages, t.root, l, path)
    ensures Spot(t, e.key, c, true, 0, path)
  {
    assert NodeOk(t.pages[l], t.meta[l]) && t.pages[l].entries[0] == e;
  }

  // ── The last leaf ──

  /** After the first entry went, and after the last. */
  function RightBare(x: Four, last: bool): Shape {
    Shape(map[1 := Leaf(3, 0, 4, [x.e2]), 4 := Leaf(3, 1, 5, [x.e3]), 5 := Leaf(6, 4, 0, if last then [] else [x.e4]),
              3 := Internal(7, 1, [Sep(x.e3.key, 4)]), 6 := Internal(7, 5, []), 7 := Internal(0, 3, [Sep(x.e4.key, 6)])],
          7, [1, 4, 5], PageSupply([2], 8))
  }

  lemma FirstGoes(x: Four, f: TreeState, f': TreeState)
    requires FourOk(x) && Struct(f.tree) && Has(f, Built(x, 4))
    ensures OpFits(f, Remove(x.e1.key), 4096)
    ensures OpStep(f, Remove(x.e1.key), 4096, f') ==> Has(f', RightBare(x, false))
  {
    hide Struct, Rank, SepsFit, EntriesFit, OpFits, OpStep, Underfull, LeafRepaired;
    LeafSizes(x.e2, x.e2);
    PageSizes(x.e2.key, x.e3.key, x.e4.key);
    PageSizes(x.e3.key, x.e3.key, x.e4.key);
    PageSizes(x.e4.key, x.e3.key, x.e4.key);
    var pages := f.tree.pages;
    var up := [Step(7, 0, pages[7], [], [Sep(x.e4.key, 5)])];
    var path := [Step(3, 0, pages[3], [], [])] + up;
    assert IsStep(pages, 1, path[0]) && path[1..] == up;
    assert IsStep(pages, 3, up[0]) && up[1..] == [] && IsPath(pages, 7, 7, []) && IsPath(pages, 7, 3, up);
    assert [] + [x.e2] == [x.e2] && RemoveAt([Sep(x.e2.key, 2)], 0) == [];
    assert [] + [Sep(x.e3.key, 6)] == [Sep(x.e3.key, 6)] && [Sep(x.e3.key, 6)][0 := Sep(x.e4.key, 5)] == [Sep(x.e4.key, 5)];
    assert Repairs([], up, 4096);
    Removing(f, 1, x.e1, 0, path, f');
    FirstMerged(x, Emptied(f, 1), path, up);
  }

  function FirstPairMerged(x: Four): Shape {
    Shape(map[1 := Leaf(3, 0, 4, [x.e2]), 4 := Leaf(6, 1, 5, [x.e3]), 5 := Leaf(6, 4, 0, [x.e4]),
              3 := Internal(7, 1, []), 6 := Internal(7, 4, [Sep(x.e4.key, 5)]), 7 := Internal(0, 3, [Sep(x.e3.key, 6)])],
          7, [1, 4, 5], PageSupply([2], 8))
  }

  /** The empty first leaf is merged with the next, and its parent borrows from the page on its right. */
  lemma FirstMerged(x: Four, g: TreeState, path: seq<Step>, up: seq<Step>)
    requires FourOk(x) && Struct(g.tree)
    requires Has(g, Built(x, 4).(pages := Built(x, 4).pages[1 := Leaf(3, 0, 2, [])]))
    requires up == [Step(7, 0, g.tree.pages[7], [], [Sep(x.e4.key, 5)])]
    requires path == [Step(3, 0, g.tree.pages[3], [], [])] + up
    ensures Has(LeafRepaired(g, 1, 0, path, 4096), RightBare(x, false))
  {
    hide Struct, Rank, Underfull, MergeLeaf, BorrowInternal, LeafRepaired, PageRepaired;
    var s := Site(3, 0, 1, x.e2.key, 2);
    assert path[1..] == up;
    LeafRepairedFromRight(g, s, 0, path, 4096);
    MergeLeafKeepsStruct(g.tree, s, 0);
    var m := Dropped(MergeLeaf(g.tree, s, 0), g.supply, 2);
    FirstMergedShape(x, g, s);
    PageSizes(x.e2.key, x.e3.key, x.e4.key);
    var s2 := Site(7, 0, 3, x.e3.key, 6);
    PageRepairedFromRight(m, s2, up, 4096);
    FirstBorrowed(x, m, s2);
  }

  lemma FirstMergedShape(x: Four, g: TreeState, s: Site)
    requires CanMergeLeaf(g.tree, s, 0) && s == Site(3, 0, 1, x.e2.key, 2)
    requires Has(g, Built(x, 4).(pages := Built(x, 4).pages[1 := Leaf(3, 0, 2, [])]))
    ensures Has(Dropped(MergeLeaf(g.tree, s, 0), g.supply, 2), FirstPairMerged(x))
  {
    hide Rank, NodesOk, EdgesOk, ParentsOk, RootOk;
    var t := MergeLeaf(g.tree, s, 0);
    assert t.chain == [1, 4, 5];
    assert [] + [x.e2] == [x.e2] && RemoveAt([Sep(x.e2.key, 2)], 0) == [];
    assert t.pages == FirstPairMerged(x).pages;
  }

  lemma FirstBorrowed(x: Four, m: TreeState, s: Site)
    requires CanMergeInternal(m.tree, s) && s == Site(7, 0, 3, x.e3.key, 6) && Has(m, FirstPairMerged(x))
    ensures Has(TreeState(BorrowInternal(m.tree, s, 1), m.supply), RightBare(x, false))
  {
    hide Rank, NodesOk, EdgesOk, ParentsOk, RootOk, ChainOk, BorrowInternalPages;
    BorrowFromRightMovesOne(m.tree, s);
    var all := Joined(m.tree.pages, s);
    assert all == [Sep(x.e3.key, 4), Sep(x.e4.key, 5)] && all[..1] == [Sep(x.e3.key, 4)] && all[2..] == [];
    assert [Sep(x.e3.key, 6)][0 := Sep(x.e4.key, 6)] == [Sep(x.e4.key, 6)];
    var kept := Rotated(m.tree.pages, s, 1);
    assert kept == FirstPairMerged(x).pages[3 := Internal(7, 1, [Sep(x.e3.key, 4)])][6 := Internal(7, 5, [])]
                                           [7 := Internal(0, 3, [Sep(x.e4.key, 6)])];
    assert kept[4 := WithParent(kept[4], 3)] == RightBare(x, false).pages;
  }

  lemma LastGoes(x: Four, f: TreeState, f': TreeState)
    requires FourOk(x) && Struct(f.tree) && Has(f, RightBare(x, false))
    ensures OpFits(f, Remove(x.e4.key), 4096)
    ensures OpStep(f, Remove(x.e4.key), 4096, f') ==> Has(f', RightBare(x, true))
  {
    hide Struct, Rank, OpFits, OpStep, LeafRepaired;
    var pages := f.tree.pages;
    var up := [Step(7, 1, pages[7], [Sep(x.e3.key, 4)], [])];
    var path := [Step(6, 0, pages[6], [], [])] + up;
    assert IsStep(pages, 5, path[0]) && path[1..] == up;
    assert IsStep(pages, 6, up[0]) && up[1..] == [] && IsPath(pages, 7, 7, []) && IsPath(pages, 7, 6, up);
    Removing(f, 5, x.e4, 2, path, f');
    OnlyLeaf(Emptied(f, 5), 5, 2, path, 4096);
  }

  // ── The first leaf ──

  /** After the last entry went, and after the first. */
  function LeftBare(x: Four, first: bool): Shape {
    Shape(map[1 := Leaf(3, 0, 2, if first then [] else [x.e1]), 2 := Leaf(6, 1, 4, [x.e2]), 4 := Leaf(6, 2, 0, [x.e3]),
              3 := Internal(7, 1, []), 6 := Internal(7, 2, [Sep(x.e3.key, 4)]), 7 := Internal(0, 3, [Sep(x.e2.key, 6)])],
          7, [1, 2, 4], PageSupply([5], 8))
  }

  function LastPairMerged(x: Four): Shape {
    Shape(map[1 := Leaf(3, 0, 2, [x.e1]), 2 := Leaf(3, 1, 4, [x.e2]), 4 := Leaf(6, 2, 0, [x.e3]),
              3 := Internal(7, 1, [Sep(x.e2.key, 2)]), 6 := Internal(7, 4, []), 7 := Internal(0, 3, [Sep(x.e3.key, 6)])],
          7, [1, 2, 4], PageSupply([5], 8))
  }

  lemma FourthGoes(x: Four, f: TreeState, f': TreeState)
    requires FourOk(x) && Struct(f.tree) && Has(f, Built(x, 4))
    ensures OpFits(f, Remove(x.e4.key), 4096)
    ensures OpStep(f, Remove(x.e4.key), 4096, f') ==> Has(f', LeftBare(x, false))
  {
    hide Struct, Rank, SepsFit, EntriesFit, OpFits, OpStep, Underfull, LeafRepaired;
    LeafSizes(x.e3, x.e3);
    PageSizes(x.e2.key, x.e3.key, x.e4.key);
    PageSizes(x.e3.key, x.e3.key, x.e4.key);
    var pages := f.tree.pages;
    var up := [Step(7, 1, pages[7], [Sep(x.e2.key, 2)], [])];
    var path := [Step(6, 1, pages[6], [], [])] + up;
    assert IsStep(pages, 5, path[0]) && path[1..] == up;
    assert IsStep(pages, 6, up[0]) && up[1..] == [] && IsPath(pages, 7, 7, []) && IsPath(pages, 7, 6, up);
    assert [x.e3] + [] == [x.e3] && RemoveAt([Sep(x.e4.key, 5)], 0) == [];
    assert [Sep(x.e3.key, 6)] + [] == [Sep(x.e3.key, 6)] && [Sep(x.e3.key, 6)][0 := Sep(x.e2.key, 2)] == [Sep(x.e2.key, 2)];
    assert Repairs([], up, 4096);
    Removing(f, 5, x.e4, 3, path, f');
    LastMerged(x, Emptied(f, 5), path, up);
  }

  /** The empty last leaf is merged with the one before it, and its parent borrows from the page on its left. */
  lemma LastMerged(x: Four, g: TreeState, path: seq<Step>, up: seq<Step>)
    requires FourOk(x) && Struct(g.tree)
    requires Has(g, Built(x, 4).(pages := Built(x, 4).pages[5 := Leaf(6, 4, 0, [])]))
    requires up == [Step(7, 1, g.tree.pages[7], [Sep(x.e2.key, 2)], [])]
    requires path == [Step(6, 1, g.tree.pages[6], [], [])] + up
    ensures Has(LeafRepaired(g, 5, 3, path, 4096), LeftBare(x, false))
  {
    hide Struct, Rank, Underfull, MergeLeaf, BorrowInternal, LeafRepaired, PageRepaired;
    var s := Site(6, 0, 4, x.e4.key, 5);
    assert path[1..] == up;
    var d := LeafRepairedFromLeft(g, s, 3, path, 4096);
    MergeLeafKeepsStruct(g.tree, s, d);
    var m := Dropped(MergeLeaf(g.tree, s, d), g.supply, 5);
    LastMergedShape(x, g, s, d);
    PageSizes(x.e2.key, x.e3.key, x.e4.key);
    var s2 := Site(7, 0, 3, x.e3.key, 6);
    PageRepairedFromLeft(m, s2, up, 4096);
    LastBorrowed(x, m, s2);
  }

  lemma LastMergedShape(x: Four, g: TreeState, s: Site, d: nat)
    requires CanMergeLeaf(g.tree, s, d) && s == Site(6, 0, 4, x.e4.key, 5)
    requires Has(g, Built(x, 4).(pages := Built(x, 4).pages[5 := Leaf(6, 4, 0, [])]))
    ensures Has(Dropped(MergeLeaf(g.tree, s, d), g.supply, 5), LastPairMerged(x))
  {
    hide Rank, NodesOk, EdgesOk, ParentsOk, RootOk;
    assert d == 2;
    var t := MergeLeaf(g.tree, s, d);
    assert t.chain == [1, 2, 4];
    assert [x.e3] + [] == [x.e3] && RemoveAt([Sep(x.e4.key, 5)], 0) == [];
    assert t.pages == LastPairMerged(x).pages;
  }

  lemma LastBorrowed(x: Four, m: TreeState, s: Site)
    requires CanMergeInternal(m.tree, s) && s == Site(7, 0, 3, x.e3.key, 6) && Has(m, LastPairMerged(x))
    ensures Has(TreeState(BorrowInternal(m.tree, s, 0), m.supply), LeftBare(x, false))
  {
    hide Rank, NodesOk, EdgesOk, ParentsOk, RootOk, ChainOk, BorrowInternalPages;
    BorrowFromLeftMovesOne(m.tree, s);
    var all := Joined(m.tree.pages, s);
    assert all == [Sep(x.e2.key, 2), Sep(x.e3.key, 4)] && all[..0] == [] && all[1..] == [Sep(x.e3.key, 4)];
    assert [Sep(x.e3.key, 6)][0 := Sep(x.e2.key, 6)] == [Sep(x.e2.key, 6)];
    var kept := Rotated(m.tree.pages, s, 0);
    assert kept == LastPairMerged(x).pages[3 := Internal(7, 1, [])][6 := Internal(7, 2, [Sep(x.e3.key, 4)])]
                                          [7 := Internal(0, 3, [Sep(x.e2.key, 6)])];
    assert kept[2 := WithParent(kept[2], 6)] == LeftBare(x, false).pages;
  }

  lemma FirstToo(x: Four, f: TreeState, f': TreeState)
    requires FourOk(x) && Struct(f.tree) && Has(f, LeftBare(x, false))
    ensures OpFits(f, Remove(x.e1.key), 4096)
    ensures OpStep(f, Remove(x.e1.key), 4096, f') ==> Has(f', LeftBare(x, true))
  {
    hide Struct, Rank, OpFits, OpStep, LeafRepaired;
    var pages := f.tree.pages;
    var up := [Step(7, 0, pages[7], [], [Sep(x.e3.key, 4)])];
    var path := [Step(3, 0, pages[3], [], [])] + up;
    assert IsStep(pages, 1, path[0]) && path[1..] == up;
    assert IsStep(pages, 3, up[0]) && up[1..] == [] && IsPath(pages, 7, 7, []) && IsPath(pages, 7, 3, up);
    Removing(f, 1, x.e1, 0, path, f');
    OnlyLeaf(Emptied(f, 1), 1, 0, path, 4096);
  }

  // ── The runs ──

  function Entries(): Four {
    Four(Entry(Padded(1, 1989), Zeros(100)), Entry(Padded(2, 1989), Zeros(100)), Entry(Padded(3, 1989), Zeros(100)),
         Entry(Padded(4, 1989), Zeros(100)))
  }

  function PutOf(e: Entry): Op {
    Put(e.key, e.value)
  }

  /** Four inserts, and two deletes. */
  function EdgeOps(x: Four, first: bool): seq<Op> {
    [PutOf(x.e1), PutOf(x.e2), PutOf(x.e3), PutOf(x.e4)]
    + if first then [Remove(x.e4.key), Remove(x.e1.key)] else [Remove(x.e1.key), Remove(x.e4.key)]
  }

  function After(x: Four, first: bool, i: nat): Shape
    requires i <= 6
  {
    if i == 0 then Shape(map[1 := Leaf(0, 0, 0, [])], 1, [1], PageSupply([], 2))
    else if i <= 4 then Built(x, i)
    else if first then LeftBare(x, i == 6) else RightBare(x, i == 6)
  }

  lemma EntriesOk()
    ensures FourOk(Entries())
  {
    var x := Entries();
    FirstByteOrders(x.e1.key, x.e2.key);
    FirstByteOrders(x.e2.key, x.e3.key);
    FirstByteOrders(x.e3.key, x.e4.key);
  }

  lemma FirstAppend(x: Four, f: TreeState, f': TreeState)
    requires FourOk(x) && f == NewTree() && Struct(f.tree)
    ensures OpFits(f, PutOf(x.e1), 4096)
    ensures OpStep(f, PutOf(x.e1), 4096, f') ==> Has(f', Built(x, 1))
  {
    hide Struct, Rank, OpFits, OpStep, EntriesFit;
    LeafSizes(x.e1, x.e1);
    assert [] + [x.e1] == [x.e1];
    PutLast(f, [], x.e1.key, x.e1.value, f');
  }

  lemma EdgeStep(x: Four, first: bool, i: nat, f: TreeState, f': TreeState)
    requires FourOk(x) && i < 6 && Struct(f.tree) && Has(f, After(x, first, i)) && (i == 0 ==> f == NewTree())
    ensures OpFits(f, EdgeOps(x, first)[i], 4096)
    ensures OpStep(f, EdgeOps(x, first)[i], 4096, f') ==> Has(f', After(x, first, i + 1))
  {
    hide Struct, Rank, OpFits, OpStep, Built, LeftBare, RightBare, FourOk, Has;
    if i == 0 { FirstAppend(x, f, f'); }
    else if i == 1 { SecondAppend(x, f, f'); }
    else if i == 2 { ThirdAppend(x, f, f'); }
    else if i == 3 { FourthAppend(x, f, f'); }
    else if i == 4 { if first { FourthGoes(x, f, f'); } else { FirstGoes(x, f, f'); } }
    else { if first { FirstToo(x, f, f'); } else { LastGoes(x, f, f'); } }
  }

  lemma {:induction false} EdgeRun(x: Four, first: bool, states: seq<TreeState>, lost: bool, i: nat)
    requires FourOk(x) && Ran(states, EdgeOps(x, first), lost) && i <= 6
    ensures i < |states| && Has(states[i], After(x, first, i)) && Struct(states[i].tree)
  {
    hide Struct, OpFits, OpStep, ToMap, Contents, ApplyOps, EdgeOps, FourOk, Built, LeftBare, RightBare;
    SixOps(x, first);
    if i > 0 {
      EdgeRun(x, first, states, lost, i - 1);
      hide Has, After;
      EdgeStep(x, first, i - 1, states[i - 1], if i < |states| then states[i] else states[0]);
    }
  }

  lemma SixOps(x: Four, first: bool)
    ensures |EdgeOps(x, first)| == 6
  {
  }

  /** A new file after the operations. */
  method RunEdge(first: bool) returns (btree: BTree)
    ensures btree.Valid() && Has(btree.State(), After(Entries(), first, 6))
    ensures fresh(btree) && fresh(btree.store.Objects())
  {
    hide *;
    var x := Entries();
    var tree, lost, states := RunNew(EdgeOps(x, first));
    EntriesOk();
    EdgeEnd(x, first, states, lost);
    btree := tree;
  }

  lemma EdgeEnd(x: Four, first: bool, states: seq<TreeState>, lost: bool)
    requires FourOk(x) && Ran(states, EdgeOps(x, first), lost)
    ensures !lost && |states| == 7 && |EdgeOps(x, first)| == 6 && Has(states[6], After(x, first, 6))
  {
    hide Struct, OpFits, OpStep, ToMap, Contents, ApplyOps, EdgeOps, FourOk, Built, LeftBare, RightBare, Has, After;
    SixOps(x, first);
    EdgeRun(x, first, states, lost, 6);
  }

  lemma LeftContents(x: Four, t: Tree)
    requires Struct(t) && t.pages == LeftBare(x, true).pages && t.chain == [1, 2, 4]
    ensures Contents(t) == [x.e2, x.e3] && |ToMap(Contents(t))| == 2
  {
    hide Struct, Rank, Flatten, ToMap, SortedIn;
    var f := EntriesOfLeaves(t.pages, 1, 2, 4);
    TwoInOrder(t);
  }

  lemma EntriesOfLeaves(pages: map<PageId, Node>, a: PageId, b: PageId, c: PageId) returns (es: seq<Entry>)
    ensures es == EntriesOf(pages, a) + EntriesOf(pages, b) + EntriesOf(pages, c) == Flatten(pages, [a, b, c])
  {
    es := EntriesOf(pages, a) + EntriesOf(pages, b) + EntriesOf(pages, c);
    assert [a, b] + [c] == [a, b, c];
    FlattenTwo(pages, a, b);
    FlattenConcat(pages, [a, b], [c]);
    FlattenOne(pages, c);
  }

  lemma TwoInOrder(t: Tree)
    requires Struct(t) && |Contents(t)| == 2
    ensures |ToMap(Contents(t))| == 2
  {
    hide Struct, Rank, Flatten, ToMap;
    ContentsSorted(t);
    ToMapSize(Contents(t));
  }

  lemma RightContents(x: Four, t: Tree)
    requires Struct(t) && t.pages == RightBare(x, true).pages && t.chain == [1, 4, 5]
    ensures Contents(t) == [x.e2, x.e3] && |ToMap(Contents(t))| == 2
  {
    hide Struct, Rank, Flatten, ToMap, SortedIn;
    var f := EntriesOfLeaves(t.pages, 1, 4, 5);
    TwoInOrder(t);
  }

  /** The tree has two entries, and the first leaf none: `first` gives nothing, which is not the least key. */
  method FirstMisses() returns (btree: BTree, e: Option<Entry>)
    ensures btree.Valid() && |btree.Model()| == 2 && e == None && !IsLeast(btree.Model(), e)
  {
    hide Struct, ToMap, Flatten, IsLeast, BTree.StoreOk;
    btree := RunEdge(true);
    LeftContents(Entries(), btree.View());
    e := btree.First();
  }

  /** The mirror image. */
  method LastMisses() returns (btree: BTree, e: Option<Entry>)
    ensures btree.Valid() && |btree.Model()| == 2 && e == None && !IsGreatest(btree.Model(), e)
  {
    hide Struct, ToMap, Flatten, IsGreatest, BTree.StoreOk;
    btree := RunEdge(false);
    RightContents(Entries(), btree.View());
    e := btree.Last();
  }
}
