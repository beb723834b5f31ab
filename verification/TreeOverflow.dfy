/** Runs of the modelled operations on a tree in a new file, in which an insert or a delete overflows. */
module TreeOverflow {
  import opened Wrappers
  import opened Keys
  import opened TreeModel
  import opened TreeSplit
  import opened TreeMerge
  import opened TreeRoot
  import opened TreePending
  import opened TreeLeaf
  import opened TreeSize
  import opened TreeSized
  import opened TreeFit
  import opened TreeGrowth
  import opened TreeLimits
  import opened TreeContents
  import opened BPlusTree
  import opened BTreeRange
  import S = TreeStore

  function InsertOps(): seq<Op> {
    [Put([1], Zeros(1991)), Put([2], Zeros(1991)), Put([3], Zeros(3991))]
  }

  /** A key that starts with b, padded with zeros. */
  function Padded(b: byte, n: nat): Bytes {
    [b] + Zeros(n)
  }

  function DeleteOps(): seq<Op> {
    [Put([1], Zeros(2050)), Put(Padded(3, 2017), []), Put(Padded(5, 2017), []), Put([4], []), Put([6], []),
     Put([1], []), Put(Padded(2, 2030), []), Remove(Padded(3, 2017))]
  }

  /** Within the advertised limits, and small enough for a page of 4 KiB of its own. */
  predicate WithinLimits(op: Op) {
    && 0 < |op.key| <= MAX_BTREE_KEY_BYTES
    && (op.Put? ==> |op.value| <= MAX_BTREE_VALUE_BYTES && LEAF_HEADER_LEN + Cost(Entry(op.key, op.value)) <= 4096)
  }

  function NewTree(): TreeState {
    TreeState(OneLeaf(1, []), PageSupply([], 2))
  }

  /** A run, and whether it was lost. */
  ghost predicate Ran(states: seq<TreeState>, ops: seq<Op>, lost: bool) {
    && IsRun(states, ops, 4096, 0) && states[0] == NewTree()
    && (lost <==> StopsAt(states[|states| - 1], ops, |states| - 1, 4096))
    && (!lost ==> |states| == |ops| + 1)
  }

  // ── One step of a run ──

  /** An entry that fits in its leaf. */
  lemma PutFitting(f: TreeState, k: Bytes, v: Bytes, f': TreeState, c: nat, found: bool, idx: nat, path: seq<Step>)
    requires Struct(f.tree) && Spot(f.tree, k, c, found, idx, path)
    requires 0 < |k| <= MAX_BTREE_KEY_BYTES && |v| <= MAX_BTREE_VALUE_BYTES
    requires EntriesFit(PutEntry(f.tree.pages[f.tree.chain[c]].entries, found, idx, Entry(k, v)), 4096)
    ensures OpFits(f, Put(k, v), 4096)
    ensures OpStep(f, Put(k, v), 4096, f')
            ==> f' == TreeState(f.tree.(pages := SetEntries(f.tree.pages, f.tree.chain[c],
                       PutEntry(f.tree.pages[f.tree.chain[c]].entries, found, idx, Entry(k, v)))), f.supply)
  {
    hide Struct, Spot, EntriesFit, InsertedAs, InsertFits;
    InsertFitsAt(f.tree, Entry(k, v), Spare(f.supply), 4096, c, found, idx, path);
    if OpStep(f, Put(k, v), 4096, f') {
      InsertedIs(f, Entry(k, v), 4096, f', c, found, idx, path);
    }
  }

  /** An entry that splits its leaf. */
  lemma PutSplitting(f: TreeState, k: Bytes, v: Bytes, f': TreeState, c: nat, found: bool, idx: nat, path: seq<Step>)
    requires Struct(f.tree) && Spot(f.tree, k, c, found, idx, path)
    requires 0 < |k| <= MAX_BTREE_KEY_BYTES && |v| <= MAX_BTREE_VALUE_BYTES
    requires var es := PutEntry(f.tree.pages[f.tree.chain[c]].entries, found, idx, Entry(k, v));
             !EntriesFit(es, 4096) && LeafHalvesRoom(es, path, Spare(f.supply), 4096)
    ensures OpFits(f, Put(k, v), 4096)
    ensures OpStep(f, Put(k, v), 4096, f')
            ==> var es := PutEntry(f.tree.pages[f.tree.chain[c]].entries, found, idx, Entry(k, v));
                f' == LeafCut(f, f.tree.chain[c], es, |es| / 2, c, path, 4096)
  {
    hide Struct, Spot, EntriesFit, InsertedAs, InsertFits, LeafHalvesRoom, LeafCut;
    InsertFitsAt(f.tree, Entry(k, v), Spare(f.supply), 4096, c, found, idx, path);
    if OpStep(f, Put(k, v), 4096, f') {
      InsertedIs(f, Entry(k, v), 4096, f', c, found, idx, path);
    }
  }

  // ── The insert ──

  lemma PutLast(f: TreeState, es: seq<Entry>, k: Bytes, v: Bytes, f': TreeState)
    requires f.tree == OneLeaf(1, es) && Struct(f.tree) && 0 < |k| <= MAX_BTREE_KEY_BYTES && |v| <= MAX_BTREE_VALUE_BYTES
    requires IsPlace(es, k, false, |es|) && EntriesFit(es + [Entry(k, v)], 4096)
    ensures OpFits(f, Put(k, v), 4096)
    ensures OpStep(f, Put(k, v), 4096, f') ==> f' == TreeState(OneLeaf(1, es + [Entry(k, v)]), f.supply)
  {
    RankInRange(k);
    assert Spot(f.tree, k, 0, false, |es|, []);
    assert PutEntry(es, false, |es|, Entry(k, v)) == es + [Entry(k, v)];
    PutFitting(f, k, v, f', 0, false, |es|, []);
  }

  lemma RankInRange(k: Bytes)
    ensures 0.0 <= Rank(k) < 1.0
  {
  }

  /** The last of three inserts overflows: cut by count, the upper half is one entry too many. */
  lemma InsertOverflows(states: seq<TreeState>, lost: bool)
    requires Ran(states, InsertOps(), lost)
    ensures lost && |states| == 3 && forall op :: op in InsertOps() ==> WithinLimits(op)
  {
    hide Struct, Rank, OpFits, OpStep, EntriesFit, ToMap, Contents, ApplyOps;
    var ops := InsertOps();
    var e1, e2 := Entry([1], Zeros(1991)), Entry([2], Zeros(1991));
    EntriesOfTwo(e1, e2);
    PlacesInOrder();
    PutLast(states[0], [], [1], e1.value, if |states| > 1 then states[1] else states[0]);
    if |states| > 1 {
      assert [] + [e1] == [e1];
      PutLast(states[1], [e1], [2], e2.value, if |states| > 2 then states[2] else states[0]);
    }
    if |states| > 2 {
      assert [e1] + [e2] == [e1, e2];
      LastDoesNotFit(states[2]);
    }
  }

  lemma EntriesOfTwo(e1: Entry, e2: Entry)
    requires e1 == Entry([1], Zeros(1991)) && e2 == Entry([2], Zeros(1991))
    ensures EntriesFit([] + [e1], 4096) && EntriesFit([e1] + [e2], 4096)
  {
    CostOfThree(e1, e2, e2);
    assert [] + [e1] == [e1] && [e1] + [e2] == [e1, e2];
  }

  lemma PlacesInOrder()
    ensures IsPlace([], [1], false, 0)
    ensures forall v :: IsPlace([Entry([1], v)], [2], false, 1)
  {
    CompareIsRankOrder([1], [2]);
  }

  lemma LastDoesNotFit(f: TreeState)
    requires f.tree == OneLeaf(1, [Entry([1], Zeros(1991)), Entry([2], Zeros(1991))]) && Struct(f.tree)
    ensures !OpFits(f, Put([3], Zeros(3991)), 4096)
  {
    hide Struct, Rank;
    var es, e := f.tree.pages[1].entries, Entry([3], Zeros(3991));
    SplitByCountOverflows(es, e);
    RankInRange([3]);
    assert Spot(f.tree, e.key, 0, false, 2, []);
    InsertFitsAt(f.tree, e, Spare(f.supply), 4096, 0, false, 2, []);
  }

  /** Three inserts in a new file lose the tree. */
  method InsertCanOverflow() returns (lost: bool, ghost states: seq<TreeState>)
    ensures Ran(states, InsertOps(), lost) && lost && |states| == 3 && forall op :: op in InsertOps() ==> WithinLimits(op)
  {
    hide *;
    var tree;
    tree, lost, states := RunNew(InsertOps());
    InsertOverflows(states, lost);
  }

  /** A run on a tree in a new file. */
  method RunNew(ops: seq<Op>) returns (btree: BTree, lost: bool, ghost states: seq<TreeState>)
    ensures Ran(states, ops, lost) && (!lost ==> btree.Valid() && btree.State() == states[|ops|])
    ensures fresh(btree) && fresh(btree.store.Objects())
  {
    hide IsRun, StopsAt, S.PageStore.Valid, S.PageStore.Objects, Struct;
    var store := S.NewStore(4096, 3);
    var tree;
    tree, lost, states := RunOps(store, ops, Policy(0, 0, 0, 0));
    btree := tree.value;
  }

  // ── The delete ──

  lemma FirstByteOrders(a: Bytes, b: Bytes)
    requires a != [] && b != [] && a[0] < b[0]
    ensures Rank(a) < Rank(b)
  {
    CompareIsRankOrder(a, b);
  }

  /** Two leaves under a root. */
  ghost function TwoLeaves(k: Bytes, a: seq<Entry>, b: seq<Entry>): Tree {
    Tree(map[1 := Leaf(3, 0, 2, a), 2 := Leaf(3, 1, 0, b), 3 := Internal(0, 1, [Sep(k, 2)])], 3,
         map[1 := Meta(0, 0.0, Rank(k)), 2 := Meta(0, Rank(k), 1.0), 3 := Meta(1, 0.0, 1.0)], [1, 2])
  }

  ghost function ThreeLeaves(k: Bytes, k': Bytes, a: seq<Entry>, b: seq<Entry>, c: seq<Entry>): Tree {
    Tree(map[1 := Leaf(3, 0, 2, a), 2 := Leaf(3, 1, 4, b), 4 := Leaf(3, 2, 0, c),
             3 := Internal(0, 1, [Sep(k, 2), Sep(k', 4)])], 3,
         map[1 := Meta(0, 0.0, Rank(k)), 2 := Meta(0, Rank(k), Rank(k')), 4 := Meta(0, Rank(k'), 1.0),
             3 := Meta(1, 0.0, 1.0)], [1, 2, 4])
  }

  /** The second entry splits the root leaf. */
  lemma PutSplitsRoot(f: TreeState, a: Entry, k: Bytes, f': TreeState)
    requires f == TreeState(OneLeaf(1, [a]), PageSupply([], 2)) && Struct(f.tree)
    requires 0 < |k| <= MAX_BTREE_KEY_BYTES && IsPlace([a], k, false, 1)
    requires EntriesFit([a], 4096) && EntriesFit([Entry(k, [])], 4096) && !EntriesFit([a, Entry(k, [])], 4096)
    requires SepsFit([Sep(k, 0)], 4096)
    ensures OpFits(f, Put(k, []), 4096)
    ensures OpStep(f, Put(k, []), 4096, f') ==> f' == TreeState(TwoLeaves(k, [a], [Entry(k, [])]), PageSupply([], 4))
  {
    hide Struct, Rank, EntriesFit, SepsFit;
    var e := Entry(k, []);
    RankInRange(k);
    assert Spot(f.tree, k, 0, false, 1, []);
    var es := PutEntry([a], false, 1, e);
    assert es == [a, e] && es[..1] == [a] && es[1..] == [e];
    PutSplitting(f, k, [], f', 0, false, 1, []);
    hide OpFits, OpStep;
    RootCut(f, a, e);
  }

  lemma RootCut(f: TreeState, a: Entry, e: Entry)
    requires f == TreeState(OneLeaf(1, [a]), PageSupply([], 2))
    ensures LeafCut(f, 1, [a, e], 1, 0, [], 4096) == TreeState(TwoLeaves(e.key, [a], [e]), PageSupply([], 4))
  {
    hide Rank;
    assert [a, e][..1] == [a] && [a, e][1..] == [e];
    var u := f.tree.(pages := SetEntries(f.tree.pages, 1, [a, e]));
    var t := CutLeafTree(u, 1, 1, 2, 0);
    assert t.chain == [1, 2];
    assert t.pages == map[1 := Leaf(0, 0, 2, [a]), 2 := Leaf(0, 1, 0, [e])];
    var r := AttachRoot(t, 1, e.key, 2, 3);
    assert r.pages == TwoLeaves(e.key, [a], [e]).pages;
    assert r.meta == TwoLeaves(e.key, [a], [e]).meta;
  }

  /** An entry that fits in the second leaf. */
  lemma PutInSecond(f: TreeState, k: Bytes, a: seq<Entry>, b: seq<Entry>, key: Bytes, idx: nat, f': TreeState)
    requires f.tree == TwoLeaves(k, a, b) && Struct(f.tree) && 0 < |key| <= MAX_BTREE_KEY_BYTES
    requires Rank(k) <= Rank(key) && IsPlace(b, key, false, idx) && EntriesFit(InsertAt(b, idx, Entry(key, [])), 4096)
    ensures OpFits(f, Put(key, []), 4096)
    ensures OpStep(f, Put(key, []), 4096, f') ==> f' == TreeState(TwoLeaves(k, a, InsertAt(b, idx, Entry(key, []))), f.supply)
  {
    hide Struct, EntriesFit, Rank;
    var path := SecondPath(f.tree);
    SecondSpot(f.tree, k, a, b, key, false, idx);
    PutFitting(f, key, [], f', 1, false, idx, path);
    hide OpFits, OpStep;
    assert SetEntries(f.tree.pages, 2, InsertAt(b, idx, Entry(key, []))) == TwoLeaves(k, a, InsertAt(b, idx, Entry(key, []))).pages;
  }

  ghost function SecondPath(t: Tree): seq<Step>
    requires 3 in t.pages
  {
    [Step(3, 1, t.pages[3], [], [])]
  }

  lemma SecondSpot(t: Tree, k: Bytes, a: seq<Entry>, b: seq<Entry>, key: Bytes, found: bool, idx: nat)
    requires t == TwoLeaves(k, a, b) && Rank(k) <= Rank(key) && IsPlace(b, key, found, idx)
    ensures Spot(t, key, 1, found, idx, SecondPath(t))
  {
    hide Rank;
    RankInRange(key);
    assert t.meta.Keys == t.pages.Keys;
    assert IsStep(t.pages, 2, SecondPath(t)[0]);
    assert SecondPath(t)[1..] == [] && IsPath(t.pages, t.root, 3, []);
  }

  /** The entry splits the second leaf, and the root has room for one more separator. */
  lemma PutSplitsSecond(f: TreeState, k: Bytes, a: seq<Entry>, b: seq<Entry>, key: Bytes, f': TreeState)
    requires f == TreeState(TwoLeaves(k, a, b), PageSupply([], 4)) && Struct(f.tree) && 0 < |key| <= MAX_BTREE_KEY_BYTES
    requires |b| == 3 && Rank(k) <= Rank(key) && IsPlace(b, key, false, 3)
    requires EntriesFit(b[..2], 4096) && EntriesFit([b[2], Entry(key, [])], 4096) && !EntriesFit(b + [Entry(key, [])], 4096)
    requires SepsFit([Sep(k, 2), Sep(b[2].key, 4)], 4096)
    ensures OpFits(f, Put(key, []), 4096)
    ensures OpStep(f, Put(key, []), 4096, f')
            ==> f' == TreeState(ThreeLeaves(k, b[2].key, a, b[..2], [b[2], Entry(key, [])]), PageSupply([], 5))
  {
    hide Struct, EntriesFit, SepsFit, Rank;
    var e := Entry(key, []);
    var path := SecondPath(f.tree);
    SecondSpot(f.tree, k, a, b, key, false, 3);
    var es := PutEntry(b, false, 3, e);
    assert es == b + [e] && es[..2] == b[..2] && es[2..] == [b[2], e] && es[2] == b[2] && |es| == 4;
    assert SepsOf(path[0].node) == [Sep(k, 2)];
    assert InsertAt([Sep(k, 2)], 1, Sep(b[2].key, 0)) == [Sep(k, 2), Sep(b[2].key, 0)];
    SameKeysFit([Sep(k, 2), Sep(b[2].key, 0)], [Sep(k, 2), Sep(b[2].key, 4)], 4096);
    assert Room(path, b[2].key, Spare(f.supply) - 1, 4096);
    PutSplitting(f, key, [], f', 1, false, 3, path);
    hide OpFits, OpStep, LeafHalvesRoom;
    SecondCut(f, k, a, b, e);
  }

  lemma SecondCut(f: TreeState, k: Bytes, a: seq<Entry>, b: seq<Entry>, e: Entry)
    requires f == TreeState(TwoLeaves(k, a, b), PageSupply([], 4)) && |b| == 3
    requires SepsFit([Sep(k, 2), Sep(b[2].key, 4)], 4096)
    ensures LeafCut(f, 2, b + [e], 2, 1, SecondPath(f.tree), 4096)
            == TreeState(ThreeLeaves(k, b[2].key, a, b[..2], [b[2], e]), PageSupply([], 5))
  {
    hide Rank, SepsFit;
    var es := b + [e];
    assert es[..2] == b[..2] && es[2..] == [b[2], e];
    var u := f.tree.(pages := SetEntries(f.tree.pages, 2, es));
    var t := CutLeafTree(u, 2, 2, 4, 1);
    assert t.chain == [1, 2, 4];
    assert InsertAt([Sep(k, 2)], 1, Sep(b[2].key, 4)) == [Sep(k, 2), Sep(b[2].key, 4)];
    var r := Attach(t, 3, 1, b[2].key, 4);
    var goal := ThreeLeaves(k, b[2].key, a, b[..2], [b[2], e]);
    assert r.pages == goal.pages;
    assert r.meta == goal.meta;
    var g := TreeState(t, PageSupply([], 5));
    assert SecondPath(f.tree)[1..] == [];
    assert Raised(g, 3, 1, b[2].key, 4, [], 4096) == TreeState(r, g.supply);
    assert Promoted(g, 2, b[2].key, 4, SecondPath(f.tree), 4096) == Raised(g, 3, 1, b[2].key, 4, [], 4096);
  }

  /** An entry that fits in the first of three leaves. */
  lemma PutInFirst(f: TreeState, k: Bytes, k': Bytes, a: seq<Entry>, b: seq<Entry>, c: seq<Entry>, key: Bytes,
                   found: bool, idx: nat, f': TreeState)
    requires f.tree == ThreeLeaves(k, k', a, b, c) && Struct(f.tree) && 0 < |key| <= MAX_BTREE_KEY_BYTES
    requires Rank(key) < Rank(k) && IsPlace(a, key, found, idx) && EntriesFit(PutEntry(a, found, idx, Entry(key, [])), 4096)
    ensures OpFits(f, Put(key, []), 4096)
    ensures OpStep(f, Put(key, []), 4096, f')
            ==> f' == TreeState(ThreeLeaves(k, k', PutEntry(a, found, idx, Entry(key, [])), b, c), f.supply)
  {
    hide Struct, EntriesFit, Rank;
    var t := f.tree;
    var path := [Step(3, 0, t.pages[3], [], [])];
    RankInRange(key);
    assert t.meta.Keys == t.pages.Keys;
    assert IsStep(t.pages, 1, path[0]) && path[1..] == [] && IsPath(t.pages, t.root, 3, []);
    assert Spot(t, key, 0, found, idx, path);
    PutFitting(f, key, [], f', 0, found, idx, path);
    hide OpFits, OpStep;
    var a' := PutEntry(a, found, idx, Entry(key, []));
    assert SetEntries(t.pages, 1, a') == ThreeLeaves(k, k', a', b, c).pages;
  }

  lemma MiddleSpot(t: Tree, k: Bytes, k': Bytes, a: seq<Entry>, b: seq<Entry>, c: seq<Entry>)
    requires t == ThreeLeaves(k, k', a, b, c) && Rank(k) < Rank(k') && IsPlace(b, k, true, 0)
    ensures Spot(t, k, 1, true, 0, SecondPath(t))
  {
    hide Rank;
    RankInRange(k);
    assert t.meta.Keys == t.pages.Keys;
    assert IsStep(t.pages, 2, SecondPath(t)[0]) && SecondPath(t)[1..] == [] && IsPath(t.pages, t.root, 3, []);
  }

  /** The empty leaf borrows an entry whose key does not fit as a separator. */
  lemma BorrowTooLong(f: TreeState, k: Bytes, k': Bytes, a: seq<Entry>, b: seq<Entry>, c: seq<Entry>)
    requires f.tree == ThreeLeaves(k, k', a, b, c) && Struct(f.tree) && |k| == |k'| == 2018
    requires |a| == 2 && |a[1].key| == 2031 && a[1].value == [] && |b| == 2 && b[0].key == k && Rank(k) < Rank(k')
    requires |b[1].key| == 1 && b[1].value == [] && IsPlace(b, k, true, 0)
    ensures !OpFits(f, Remove(k), 4096)
  {
    hide Struct, Rank, Spot, DeleteFits, IsPath, Sum, Costs, SepCosts;
    var t := f.tree;
    var path := SecondPath(t);
    MiddleSpot(t, k, k', a, b, c);
    DeleteFitsAt(t, k, 4096, 1, true, 0, path);
    assert RemoveAt(b, 0) == [b[1]];
    CostOfThree(a[1], b[1], b[1]);
    CostOfThree(b[1], b[1], b[1]);
    assert [a[1]] + [b[1]] == [a[1], b[1]];
    TwoSeps(Sep(a[1].key, 0), Sep(k', 4));
    assert [Sep(k, 2), Sep(k', 4)][0 := Sep(a[1].key, 0)] == [Sep(a[1].key, 0), Sep(k', 4)];
  }

  // ── The run with the delete ──

  function K2(): Bytes { Padded(2, 2030) }

  function K3(): Bytes { Padded(3, 2017) }

  function K5(): Bytes { Padded(5, 2017) }

  function Bare(k: Bytes): Entry { Entry(k, []) }

  /** The tree after i operations. */
  ghost function After(i: nat): TreeState
    requires i <= 7
  {
    var a, k3, k5 := Entry([1], Zeros(2050)), Bare(K3()), Bare(K5());
    match i
    case 0 => NewTree()
    case 1 => TreeState(OneLeaf(1, [a]), PageSupply([], 2))
    case 2 => TreeState(TwoLeaves(K3(), [a], [k3]), PageSupply([], 4))
    case 3 => TreeState(TwoLeaves(K3(), [a], [k3, k5]), PageSupply([], 4))
    case 4 => TreeState(TwoLeaves(K3(), [a], [k3, Bare([4]), k5]), PageSupply([], 4))
    case 5 => TreeState(ThreeLeaves(K3(), K5(), [a], [k3, Bare([4])], [k5, Bare([6])]), PageSupply([], 5))
    case 6 => TreeState(ThreeLeaves(K3(), K5(), [Bare([1])], [k3, Bare([4])], [k5, Bare([6])]), PageSupply([], 5))
    case _ => TreeState(ThreeLeaves(K3(), K5(), [Bare([1]), Bare(K2())], [k3, Bare([4])], [k5, Bare([6])]), PageSupply([], 5))
  }

  lemma KeyRanks()
    ensures Rank([1]) < Rank(K2()) < Rank(K3()) < Rank([4]) < Rank(K5()) < Rank([6])
  {
    FirstByteOrders([1], K2());
    FirstByteOrders(K2(), K3());
    FirstByteOrders(K3(), [4]);
    FirstByteOrders([4], K5());
    FirstByteOrders(K5(), [6]);
  }

  lemma Sizes(a: Entry, k3: Entry, k5: Entry, b: Entry)
    requires a.key == [1] && |a.value| == 2050 && |k3.key| == |k5.key| == 2018 && k3.value == k5.value == [] && |b.key| == 1 && b.value == []
    ensures EntriesFit([a], 4096) && EntriesFit([k3], 4096) && !EntriesFit([a, k3], 4096)
    ensures EntriesFit([k3, k5], 4096) && EntriesFit([k3, b, k5], 4096) && EntriesFit([k3, b], 4096) && EntriesFit([k5, b], 4096)
    ensures forall e: Entry :: |e.key| == 1 && e.value == [] ==> !EntriesFit([k3, b, k5, e], 4096)
    ensures SepsFit([Sep(k3.key, 0)], 4096) && SepsFit([Sep(k3.key, 2), Sep(k5.key, 4)], 4096)
  {
    hide Sum, Costs, SepCosts;
    CostOfThree(a, k3, k3);
    CostOfThree(k3, k5, b);
    CostOfThree(k3, b, k5);
    CostOfThree(k5, b, b);
    SumOfOne(a, Sep(k3.key, 0));
    TwoSeps(Sep(k3.key, 2), Sep(k5.key, 4));
    forall e: Entry | |e.key| == 1 && e.value == [] ensures !EntriesFit([k3, b, k5, e], 4096) {
      CostsConcat([k3, b, k5], [e]);
      SumOfOne(e, Sep(k3.key, 0));
      assert [k3, b, k5] + [e] == [k3, b, k5, e];
    }
  }

  lemma ShortFits(e: Entry, k: Entry)
    requires |e.key| == 1 && e.value == [] && |k.key| == 2031 && k.value == []
    ensures EntriesFit([e], 4096) && EntriesFit([e, k], 4096)
  {
    hide Sum, Costs;
    CostOfThree(e, k, k);
  }

  lemma EarlyStep(i: nat, f': TreeState)
    requires i < 4 && Struct(After(i).tree)
    ensures OpFits(After(i), DeleteOps()[i], 4096)
    ensures OpStep(After(i), DeleteOps()[i], 4096, f') ==> f' == After(i + 1)
  {
    hide Struct, Rank, OpFits, OpStep, EntriesFit, SepsFit, Padded;
    var a, k3, k5 := Entry([1], Zeros(2050)), Bare(K3()), Bare(K5());
    PaddedLength();
    KeyRanks();
    Sizes(a, k3, k5, Bare([4]));
    match i {
      case 0 =>
        assert [] + [a] == [a];
        PutLast(After(0), [], [1], a.value, f');
      case 1 => PutSplitsRoot(After(1), a, K3(), f');
      case 2 =>
        assert InsertAt([k3], 1, k5) == [k3, k5];
        PutInSecond(After(2), K3(), [a], [k3], K5(), 1, f');
      case _ =>
        assert InsertAt([k3, k5], 1, Bare([4])) == [k3, Bare([4]), k5];
        PutInSecond(After(3), K3(), [a], [k3, k5], [4], 1, f');
    }
  }

  lemma LateStep(i: nat, f': TreeState)
    requires 4 <= i < 7 && Struct(After(i).tree)
    ensures OpFits(After(i), DeleteOps()[i], 4096)
    ensures OpStep(After(i), DeleteOps()[i], 4096, f') ==> f' == After(i + 1)
  {
    hide Struct, Rank, OpFits, OpStep, EntriesFit, SepsFit, Padded;
    var a, k3, k5 := Entry([1], Zeros(2050)), Bare(K3()), Bare(K5());
    var b, c := [k3, Bare([4])], [k5, Bare([6])];
    PaddedLength();
    KeyRanks();
    Sizes(a, k3, k5, Bare([4]));
    Sizes(a, k3, k5, Bare([6]));
    ShortFits(Bare([1]), Bare(K2()));
    match i {
      case 4 =>
        var all := [k3, Bare([4]), k5];
        assert all[..2] == b && all + [Bare([6])] == [k3, Bare([4]), k5, Bare([6])];
        PutSplitsSecond(After(4), K3(), [a], all, [6], f');
      case 5 =>
        assert PutEntry([a], true, 0, Bare([1])) == [Bare([1])];
        PutInFirst(After(5), K3(), K5(), [a], b, c, [1], true, 0, f');
      case _ =>
        assert PutEntry([Bare([1])], false, 1, Bare(K2())) == [Bare([1]), Bare(K2())];
        PutInFirst(After(6), K3(), K5(), [Bare([1])], b, c, K2(), false, 1, f');
    }
  }

  lemma PaddedLength()
    ensures |K2()| == 2031 && |K3()| == |K5()| == 2018
  {
  }

  lemma {:induction false} RunFollows(states: seq<TreeState>, lost: bool, i: nat)
    requires Ran(states, DeleteOps(), lost) && i <= 7
    ensures i < |states| && states[i] == After(i) && Struct(After(i).tree)
  {
    hide Struct, OpFits, OpStep, After, ToMap, Contents, ApplyOps, DeleteOps;
    EightOps();
    if i == 0 {
      assert After(0) == NewTree() by { AtStart(); }
    } else {
      RunFollows(states, lost, i - 1);
      var next := if i < |states| then states[i] else states[0];
      if i - 1 < 4 { EarlyStep(i - 1, next); } else { LateStep(i - 1, next); }
    }
  }

  lemma EightOps()
    ensures |DeleteOps()| == 8 && DeleteOps()[7] == Remove(K3())
  {
  }

  lemma AtStart()
    ensures After(0) == NewTree()
  {
  }

  /** The last operation of the run, a delete, overflows. */
  lemma DeleteOverflows(states: seq<TreeState>, lost: bool)
    requires Ran(states, DeleteOps(), lost)
    ensures lost && |states| == 8 && forall op :: op in DeleteOps() ==> WithinLimits(op)
  {
    hide Struct, OpFits, OpStep, Rank, Padded, ToMap, Contents, ApplyOps;
    RunFollows(states, lost, 7);
    EightOps();
    PaddedLength();
    KeyRanks();
    BorrowTooLong(After(7), K3(), K5(), [Bare([1]), Bare(K2())], [Bare(K3()), Bare([4])], [Bare(K5()), Bare([6])]);
  }

  /** Seven inserts and a delete in a new file lose the tree. */
  method DeleteCanOverflow() returns (lost: bool, ghost states: seq<TreeState>)
    ensures Ran(states, DeleteOps(), lost) && lost && |states| == 8 && forall op :: op in DeleteOps() ==> WithinLimits(op)
  {
    hide *;
    var tree;
    tree, lost, states := RunNew(DeleteOps());
    DeleteOverflows(states, lost);
  }
}
