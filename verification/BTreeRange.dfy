/** The range iterator over a B+tree, and runs of inserts and deletes that begin with an empty tree. */
module BTreeRange {
  import opened Wrappers
  import opened Keys
  import opened TreeModel
  import opened TreeContents
  import opened TreeLeaf
  import opened TreeSize
  import opened TreeSized
  import opened TreeFit
  import opened TreeOrder
  import opened TreeListing
  import opened TreeGrowth
  import opened TreeShrink
  import opened TreeLimits
  import opened BPlusTree
  import S = TreeStore

  /** Holds a position in a leaf; page 0 means the iteration is over. The tree must not change meanwhile. */
  class BTreeRangeIter {
    const btree: BTree
    var currPageId: PageId
    var currSlot: nat
    const endBound: Bound
    ghost var place: nat

    ghost predicate Valid()
      reads this, btree, btree.store.Objects()
    {
      && btree.Valid() && this !in btree.store.Objects()
      && Placed(btree.pages, btree.chain, currPageId, place, currSlot)
    }

    /** What the iterator has still to yield. */
    ghost function Remaining(): seq<Entry>
      reads this, btree
    {
      ToYield(btree.pages, btree.chain, currPageId, place, currSlot, endBound)
    }

    /** `BTree::range`: position the iterator at the first key inside the start bound. */
    constructor (btree: BTree, start: Bound, end: Bound)
      requires btree.Valid()
      modifies btree.store.Objects()
      ensures Valid() && btree.Same() && this.btree == btree && endBound == end
      ensures Remaining() == InBounds(Contents(btree.View()), start, end)
    {
      hide btree.StoreOk, Struct, Flatten, InBounds;
      var leaf, slot, c := StartOf(btree, start, end);
      this.btree := btree;
      currPageId := leaf;
      currSlot := slot;
      endBound := end;
      place := c;
      new;
      assert this !in btree.store.Objects();
    }

    method Next() returns (item: Option<Entry>)
      requires Valid()
      modifies this, btree.store.Objects()
      ensures Valid() && btree.Same()
      ensures item == Head(old(Remaining())) && Remaining() == Tail(old(Remaining()))
    {
      hide btree.StoreOk, btree.store.Objects, Struct, Flatten, InBounds, ToYield, Rest, LeafList, BelowEnd;
      ghost var t := btree.View();
      ChainIsLeafList(t);
      while currPageId != 0
        invariant Valid() && btree.Same() && Remaining() == old(Remaining())
        decreases if currPageId != 0 then |btree.chain| - place else 0
      {
        var n := btree.Peek(currPageId);
        if currSlot < |n.entries| {
          var entry := n.entries[currSlot];
          YieldStep(t, currPageId, place, currSlot, endBound);
          currSlot := currSlot + 1;
          if !BelowEnd(entry.key, endBound) {
            currPageId := 0;
            NoneLeft(t.pages, t.chain, place, currSlot, endBound);
            return None;
          }
          return Some(entry);
        }
        SkipLeaf(t.pages, t.chain, currPageId, place, currSlot, endBound);
        currPageId := n.next;
        currSlot := 0;
        place := place + 1;
      }
      NoneLeft(t.pages, t.chain, place, currSlot, endBound);
      return None;
    }
  }

  /** Where a range begins. */
  method StartOf(btree: BTree, start: Bound, ghost end: Bound) returns (leaf: PageId, slot: nat, ghost c: nat)
    requires btree.Valid()
    modifies btree.store.Objects()
    ensures btree.Valid() && btree.Same() && leaf != 0 && Placed(btree.pages, btree.chain, leaf, c, slot)
    ensures ToYield(btree.pages, btree.chain, leaf, c, slot, end) == InBounds(Contents(btree.View()), start, end)
  {
    hide btree.StoreOk, btree.store.Objects, Struct, Flatten, InBounds;
    slot, c := 0, 0;
    if start.Unbounded? {
      leaf := btree.FindFirstLeafPageId();
      ChainIsLeafList(btree.View());
      btree.LeafAt(0);
    } else {
      leaf := btree.FindLeafPageId(start.key);
      c := btree.PlaceOf(leaf);
      StructFacts(btree.View(), leaf);
      var n := btree.Peek(leaf);
      var found, idx := btree.PlaceInLeaf(n, start.key);
      PlaceIsStart(n.entries, start.key, found, idx);
      slot := if start.Excluded? && found then idx + 1 else idx;
    }
    RangeFromPosition(btree.View(), c, slot, start, end);
    RootFacts(btree.View());
  }

  function Head(s: seq<Entry>): Option<Entry> {
    if s == [] then None else Some(s[0])
  }

  function Tail(s: seq<Entry>): seq<Entry> {
    if s == [] then [] else s[1..]
  }

  ghost predicate Placed(pages: map<PageId, Node>, chain: seq<PageId>, curr: PageId, c: nat, slot: nat) {
    curr != 0 ==> c < |chain| && chain[c] == curr && curr in pages && pages[curr].Leaf? && slot <= |pages[curr].entries|
  }

  ghost function ToYield(pages: map<PageId, Node>, chain: seq<PageId>, curr: PageId, c: nat, slot: nat, end: Bound): seq<Entry>
  {
    if curr == 0 || !Placed(pages, chain, curr, c, slot) then [] else InBounds(Rest(pages, chain, c, slot), Unbounded, end)
  }

  lemma NoneLeft(pages: map<PageId, Node>, chain: seq<PageId>, c: nat, slot: nat, end: Bound)
    ensures ToYield(pages, chain, 0, c, slot, end) == []
  {
  }

  /** At the end of a leaf the iterator goes on at the start of the next. */
  lemma SkipLeaf(pages: map<PageId, Node>, chain: seq<PageId>, curr: PageId, c: nat, slot: nat, end: Bound)
    requires LeafList(pages, chain) && curr != 0 && Placed(pages, chain, curr, c, slot) && slot == |pages[curr].entries|
    ensures Placed(pages, chain, pages[curr].next, c + 1, 0)
    ensures ToYield(pages, chain, pages[curr].next, c + 1, 0, end) == ToYield(pages, chain, curr, c, slot, end)
  {
    RestAdvances(pages, chain, c);
  }

  /** The next entry is yielded or ends the iteration. */
  lemma YieldStep(t: Tree, curr: PageId, c: nat, slot: nat, end: Bound)
    requires Struct(t) && curr != 0 && Placed(t.pages, t.chain, curr, c, slot) && slot < |t.pages[curr].entries|
    ensures var e := t.pages[curr].entries[slot];
            ToYield(t.pages, t.chain, curr, c, slot, end)
            == if BelowEnd(e.key, end) then [e] + ToYield(t.pages, t.chain, curr, c, slot + 1, end) else []
  {
    RestSorted(t, c, slot);
    var e := t.pages[curr].entries[slot];
    var rest := Rest(t.pages, t.chain, c, slot);
    assert rest[0] == e && rest[1..] == Rest(t.pages, t.chain, c, slot + 1);
    if !BelowEnd(e.key, end) { PastEnd(rest, end); }
  }

  /** Exhausting the iterator yields every entry inside the bounds once, in key order, and ends. */
  method Collect(btree: BTree, start: Bound, end: Bound) returns (out: seq<Entry>)
    requires btree.Valid()
    modifies btree.store.Objects()
    ensures btree.Valid() && btree.Same()
    ensures out == InBounds(Contents(btree.View()), start, end)
    ensures ListsWithin(out, btree.Model(), start, end)
  {
    hide btree.Valid, btree.store.Objects, InBounds, ToYield, ListsWithin, ToMap, Contents;
    AllListed(btree, start, end);
    var iter := new BTreeRangeIter(btree, start, end);
    out := Exhaust(iter);
  }

  method Exhaust(iter: BTreeRangeIter) returns (out: seq<Entry>)
    requires iter.Valid()
    modifies iter, iter.btree.store.Objects()
    ensures iter.Valid() && iter.btree.Same() && out == old(iter.Remaining())
  {
    hide iter.btree.Valid, iter.btree.store.Objects, InBounds, ToYield;
    ghost var all := iter.Remaining();
    out := [];
    while true
      invariant iter.Valid() && iter.btree.Same()
      invariant all == out + iter.Remaining()
      decreases |iter.Remaining()|
    {
      ghost var rest := iter.Remaining();
      var item := iter.Next();
      if item.None? { return; }
      HeadMoves(out, rest);
      out := out + [item.value];
    }
  }

  lemma AllListed(btree: BTree, start: Bound, end: Bound)
    requires btree.Valid()
    ensures ListsWithin(InBounds(Contents(btree.View()), start, end), btree.Model(), start, end)
  {
    hide btree.StoreOk, Struct;
    TreeLists(btree.View(), start, end);
  }

  lemma HeadMoves<T>(a: seq<T>, b: seq<T>)
    requires b != []
    ensures a + b == a + [b[0]] + b[1..]
  {
  }

  // ── Runs ──

  datatype Op = Put(key: Bytes, value: Bytes) | Remove(key: Bytes)

  /** Keys of legal length are put and removed; other operations are refused and change nothing. */
  function ApplyOp(m: map<Bytes, Bytes>, op: Op): map<Bytes, Bytes> {
    if op.key == [] || |op.key| > MAX_BTREE_KEY_BYTES then m
    else match op
      case Put(k, v) => if |v| > MAX_BTREE_VALUE_BYTES then m else m[k := v]
      case Remove(k) => m - {k}
  }

  /** The finite map after a run. */
  function ApplyOps(m: map<Bytes, Bytes>, ops: seq<Op>): map<Bytes, Bytes> {
    if ops == [] then m else ApplyOp(ApplyOps(m, ops[..|ops| - 1]), ops[|ops| - 1])
  }

  /** The operation keeps to the policy; a delete needs keys of one length. */
  predicate OpSized(pol: Policy, op: Op) {
    match op
    case Put(k, v) => EntrySized(pol, Entry(k, v))
    case Remove(_) => pol.keyMin == pol.keyMax
  }

  /** Nothing the operation rebuilds overflows its page, and the pager has the pages it needs. */
  ghost predicate OpFits(f: TreeState, op: Op, pageSize: nat) {
    if op.key == [] || |op.key| > MAX_BTREE_KEY_BYTES then true
    else match op
      case Put(k, v) => |v| > MAX_BTREE_VALUE_BYTES || InsertFits(f.tree, Entry(k, v), Spare(f.supply), pageSize)
      case Remove(k) => DeleteFits(f.tree, k, pageSize)
  }

  /** What an operation that fits makes of a tree and its page numbers. */
  ghost predicate OpStep(f: TreeState, op: Op, pageSize: nat, f': TreeState) {
    if op.key == [] || |op.key| > MAX_BTREE_KEY_BYTES then f' == f
    else match op
      case Put(k, v) => if |v| > MAX_BTREE_VALUE_BYTES then f' == f else InsertedAs(f, Entry(k, v), pageSize, f')
      case Remove(k) =>
        && DeletedAs(f, k, pageSize, f')
        && f'.supply.count == f.supply.count && (k !in ToMap(Contents(f.tree)) ==> f' == f)
  }

  method RunOp(btree: BTree, op: Op, ghost pol: Policy) returns (lost: bool)
    requires btree.Valid()
    modifies btree, btree.store.Objects()
    ensures lost <==> !old(OpFits(btree.State(), op, btree.pageSize))
    ensures !lost ==> btree.Valid() && btree.Model() == ApplyOp(old(btree.Model()), op)
    ensures !lost ==> OpStep(old(btree.State()), op, btree.pageSize, btree.State())
    ensures old(btree.Roomy(pol)) && OpSized(pol, op)
            ==> if lost then old(Spare(btree.store.supply)) < old(btree.meta[btree.root].level) + 2 else btree.Roomy(pol)
  {
    hide btree.Sound, btree.store.Objects, InsertFits, DeleteFits, ToMap, Contents, InsertedAs, DeletedAs, Sized,
         PolicyOk, EntrySized;
    match op {
      case Put(k, v) =>
        var r := btree.Insert(k, v, pol);
        lost := r == Overflow;
      case Remove(k) =>
        var r, removed := btree.Delete(k, pol);
        lost := r == Overflow;
    }
  }

  /** The trees of a run, in a file with some other live pages: each state before an operation that fits leads to the
      next one. */
  ghost predicate IsRun(states: seq<TreeState>, ops: seq<Op>, pageSize: nat, others: nat) {
    && 0 < |states| <= |ops| + 1
    && (forall i :: 0 <= i < |states| - 1 ==> OpFits(states[i], ops[i], pageSize) && OpStep(states[i], ops[i], pageSize, states[i + 1]))
    && (forall i :: 0 <= i < |states| ==> Whole(states[i], others) && ToMap(Contents(states[i].tree)) == ApplyOps(map[], ops[..i]))
  }

  /** A valid tree, and no page number lost: all are pages of the tree, or others, or spare, or 0 for the header, or the
      one that a file never reaches. */
  ghost predicate Whole(f: TreeState, others: nat) {
    Struct(f.tree) && |f.tree.pages| + others + Spare(f.supply) + 2 == PAGE_IDS
  }

  /** The run stops at an operation that does not fit. */
  ghost predicate StopsAt(f: TreeState, ops: seq<Op>, n: nat, pageSize: nat) {
    n < |ops| && !OpFits(f, ops[n], pageSize)
  }

  /** Any run of inserts and deletes on a new tree. In every state of the run the tree is the finite map so far; the
      run is lost exactly when an operation does not fit the tree before it. A run that keeps to a size policy is
      lost only for want of page numbers. */
  method RunOps(store: S.PageStore, ops: seq<Op>, ghost pol: Policy)
    returns (btree: Option<BTree>, lost: bool, ghost states: seq<TreeState>)
    requires store.Valid() && store.held == map[] && store.nodes == map[] && (store.PageSize() == 4096 || store.PageSize() == 8192)
    modifies store.Objects()
    ensures btree.Some? <==> Spare(old(store.supply)) > 0
    ensures btree.Some? ==> fresh(btree.value) && btree.value.store == store
    ensures btree.Some? ==> IsRun(states, ops, store.PageSize(), |store.others|)
    ensures btree.Some? ==> states[0] == TreeState(OneLeaf(NextId(old(store.supply)), []), AfterNext(old(store.supply)))
    ensures btree.Some? ==> (lost <==> StopsAt(states[|states| - 1], ops, |states| - 1, store.PageSize()))
    ensures btree.Some? && !lost ==> |states| == |ops| + 1 && btree.value.Valid() && btree.value.State() == states[|ops|]
    ensures btree.Some? && !lost ==> btree.value.Model() == ApplyOps(map[], ops)
    ensures PolicyOk(pol, store.PageSize()) && (forall i :: 0 <= i < |ops| ==> OpSized(pol, ops[i])) && btree.Some? && lost
            ==> var last := states[|states| - 1];
                last.tree.root in last.tree.meta && Spare(last.supply) < last.tree.meta[last.tree.root].level + 2
  {
    hide store.Valid, store.Objects, OpFits, OpStep, Struct, Contents, ToMap, ApplyOp, ApplyOps, OpSized, PolicyOk,
         Sized;
    var size := store.PageSize();
    btree := CreateTree(store);
    lost, states := false, [];
    if btree.None? { return; }
    var t := btree.value;
    ghost var sized := PolicyOk(pol, size) && (forall i :: 0 <= i < |ops| ==> OpSized(pol, ops[i]));
    t.PageCount();
    states := [t.State()];
    FirstState(states, ops, size, |store.others|);
    var i := 0;
    while i < |ops|
      invariant i <= |ops| && t.Valid() && fresh(t) && t.store == store && t.pageSize == size
      invariant IsRun(states, ops, size, |store.others|) && |states| == i + 1 && states[i] == t.State()
      invariant states[0] == TreeState(OneLeaf(NextId(old(store.supply)), []), AfterNext(old(store.supply)))
      invariant sized ==> t.Roomy(pol)
    {
      RootFacts(t.View());
      lost := RunOp(t, ops[i], pol);
      if lost { return; }
      t.PageCount();
      NextState(states, ops, size, |store.others|, t.State());
      states := states + [t.State()];
      i := i + 1;
    }
    assert ops[..i] == ops;
  }

  lemma FirstState(states: seq<TreeState>, ops: seq<Op>, pageSize: nat, others: nat)
    requires |states| == 1 && Whole(states[0], others) && ToMap(Contents(states[0].tree)) == map[]
    ensures IsRun(states, ops, pageSize, others)
  {
    hide Whole, ToMap, Contents;
  }

  lemma NextState(states: seq<TreeState>, ops: seq<Op>, pageSize: nat, others: nat, f: TreeState)
    requires IsRun(states, ops, pageSize, others) && |states| <= |ops|
    requires var n := |states| - 1;
             && OpFits(states[n], ops[n], pageSize) && OpStep(states[n], ops[n], pageSize, f)
             && Whole(f, others) && ToMap(Contents(f.tree)) == ApplyOp(ToMap(Contents(states[n].tree)), ops[n])
    ensures IsRun(states + [f], ops, pageSize, others)
  {
    hide Whole, ToMap, Contents, OpFits, OpStep, ApplyOp;
    assert ops[..|states|][..|states| - 1] == ops[..|states| - 1];
  }
}
