/** Two trees in one file. */
module TreeShare {
  import opened Wrappers
  import opened Keys
  import opened TreeModel
  import opened TreeSize
  import opened TreeContents
  import opened TreeLeaf
  import opened TreeFit
  import opened TreeGrowth
  import opened TreeSized
  import opened BPlusTree
  import opened BTreeRange
  import S = TreeStore

  // Each tree works in the same pool and takes its pages from the same pager; the pages of the other are none of its own.

  /** A whole tree on live pages that are none of the store's. */
  ghost predicate InFile(store: S.PageStore, t: Tree) {
    && Struct(t) && AllFit(t.pages, store.PageSize())
    && forall id {:trigger t.pages[id]} :: id in t.pages ==> id in store.others && S.Holds(store.others[id], t.pages[id])
  }

  /** The other tree is opened in the same pool. */
  method Switch(t: BTree, root: PageId, ghost u: Tree) returns (other: BTree)
    requires t.Valid() && InFile(t.store, u) && root == u.root
    ensures fresh(other) && fresh(other.store) && other.store.pool == t.store.pool && other.pageSize == t.pageSize
    ensures other.Valid() && other.State() == TreeState(u, t.store.supply)
    ensures InFile(other.store, t.View()) && t.View() == old(t.View())
  {
    hide Struct, S.Holds, S.PageStore.Valid;
    var store := S.Beside(t.store, u.pages);
    other := new BTree(store, root, u.meta, u.chain);
  }

  /** An operation on the first tree or on the second. */
  datatype TwoOp = TwoOp(first: bool, op: Op)

  /** The operations on one of the trees, in order. */
  function OpsOn(ops: seq<TwoOp>, first: bool): seq<Op> {
    if ops == [] then []
    else
      var last := ops[|ops| - 1];
      OpsOn(ops[..|ops| - 1], first) + if last.first == first then [last.op] else []
  }

  /** The tree at work is the map of its operations, and so is the other one. */
  ghost predicate BothOk(t: BTree, first: bool, u: Tree, ops: seq<TwoOp>)
    reads t, t.store.Objects()
  {
    && t.Valid() && InFile(t.store, u)
    && t.Model() == ApplyOps(map[], OpsOn(ops, first)) && ToMap(Contents(u)) == ApplyOps(map[], OpsOn(ops, !first))
  }

  /** The next operation, on either tree. */
  method RunTwoOp(t: BTree, first: bool, root: PageId, ghost u: Tree, ghost ops: seq<TwoOp>, next: TwoOp, ghost pol: Policy)
    returns (lost: bool, t': BTree, root': PageId, ghost u': Tree)
    requires BothOk(t, first, u, ops) && root == u.root
    modifies t, t.store.Objects()
    ensures root' == u'.root && t'.pageSize == t.pageSize && t'.store.pool == t.store.pool
    ensures t' == t || fresh(t')
    ensures t'.store == t.store || fresh(t'.store)
    ensures lost <==> !OpFits(if next.first == first then old(t.State()) else TreeState(u, old(t.store.supply)), next.op, t.pageSize)
    ensures !lost ==> BothOk(t', next.first, u', ops + [next])
  {
    hide S.PageStore.Valid, InFile, OpFits, OpStep, ApplyOp, ToMap, Contents;
    t', root', u' := t, root, u;
    if next.first != first {
      root', u' := t.root, t.View();
      t' := Switch(t, root, u);
    }
    lost := RunOp(t', next.op, pol);
    OneMoreOp(ops, next);
  }

  lemma OneMoreOp(ops: seq<TwoOp>, next: TwoOp)
    ensures ApplyOps(map[], OpsOn(ops + [next], next.first)) == ApplyOp(ApplyOps(map[], OpsOn(ops, next.first)), next.op)
    ensures OpsOn(ops + [next], !next.first) == OpsOn(ops, !next.first)
  {
    hide ApplyOp;
    var more := ops + [next];
    assert more[..|more| - 1] == ops;
    var mine := OpsOn(ops, next.first);
    assert (mine + [next.op])[..|mine + [next.op]| - 1] == mine;
  }

  /** Any run of operations on two new trees, in any order: each is the map of its own operations, and the run is lost
      exactly at the first operation that does not fit its tree. No page is in both. */
  method RunTwo(store: S.PageStore, ops: seq<TwoOp>, ghost pol: Policy)
    returns (lost: bool, done: nat, ghost a: TreeState, ghost b: TreeState)
    requires store.Valid() && store.held == map[] && store.nodes == map[] && (store.PageSize() == 4096 || store.PageSize() == 8192)
    requires Spare(store.supply) >= 2
    modifies store.Objects()
    ensures done <= |ops| && (lost <==> done < |ops|)
    ensures lost ==> !OpFits(if ops[done].first then a else b, ops[done].op, store.PageSize())
    ensures Struct(a.tree) && ToMap(Contents(a.tree)) == ApplyOps(map[], OpsOn(ops[..done], true))
    ensures Struct(b.tree) && ToMap(Contents(b.tree)) == ApplyOps(map[], OpsOn(ops[..done], false))
    ensures a.tree.pages.Keys !! b.tree.pages.Keys && a.supply == b.supply
  {
    hide S.PageStore.Valid, InFile, OpFits, OpStep, ApplyOp, ApplyOps, ToMap, Contents, Struct, BothOk;
    var t, root, u := NewTwo(store);
    var first := true;
    lost, done := false, 0;
    a, b := BothTrees(t, first, u, []);
    assert ops[..0] == [];
    while done < |ops|
      invariant done <= |ops| && !lost && root == u.root && BothOk(t, first, u, ops[..done])
      invariant fresh(t) && t.store.pool == store.pool && (t.store == store || fresh(t.store)) && t.pageSize == store.PageSize()
      invariant Pair(t, first, u, ops[..done], a, b)
    {
      assert ops[..done + 1] == ops[..done] + [ops[done]];
      var t', root';
      ghost var u';
      lost, t', root', u' := RunTwoOp(t, first, root, u, ops[..done], ops[done], pol);
      if lost { return; }
      t, root, u, first, done := t', root', u', ops[done].first, done + 1;
      a, b := BothTrees(t, first, u, ops[..done]);
    }
    assert ops[..done] == ops;
  }

  /** The two trees, first and second. */
  ghost predicate Pair(t: BTree, first: bool, u: Tree, ops: seq<TwoOp>, a: TreeState, b: TreeState)
    reads t, t.store
  {
    && (if first then a == t.State() && b == TreeState(u, t.store.supply) else b == t.State() && a == TreeState(u, t.store.supply))
    && Struct(a.tree) && ToMap(Contents(a.tree)) == ApplyOps(map[], OpsOn(ops, true))
    && Struct(b.tree) && ToMap(Contents(b.tree)) == ApplyOps(map[], OpsOn(ops, false))
    && a.tree.pages.Keys !! b.tree.pages.Keys
  }

  lemma BothTrees(t: BTree, first: bool, u: Tree, ops: seq<TwoOp>) returns (a: TreeState, b: TreeState)
    requires BothOk(t, first, u, ops)
    ensures Pair(t, first, u, ops, a, b)
  {
    hide S.PageStore.Valid, Struct, ToMap, Contents, ApplyOps;
    t.PagesConserved();
    a, b := t.State(), TreeState(u, t.store.supply);
    if !first { a, b := b, a; }
  }

  method NewTwo(store: S.PageStore) returns (t: BTree, root: PageId, ghost u: Tree)
    requires store.Valid() && store.held == map[] && store.nodes == map[] && (store.PageSize() == 4096 || store.PageSize() == 8192)
    requires Spare(store.supply) >= 2
    modifies store.Objects()
    ensures fresh(t) && t.store.pool == store.pool && fresh(t.store) && t.pageSize == store.PageSize()
    ensures root == u.root && BothOk(t, true, u, [])
  {
    hide S.PageStore.Valid, ToMap, Contents, Struct;
    var other := CreateTree(store);
    root, u := other.value.root, other.value.View();
    var store' := S.Beside(store, map[]);
    var created := CreateTree(store');
    t := created.value;
  }
}
