/** The B+tree in the buffer pool: search, insert with splits that travel up, delete with borrowing, merging and
    root collapse. Pages are read and written through guards, and no operation holds more than three. */
module BPlusTree {
  import opened Wrappers
  import opened Keys
  import opened TreeModel
  import opened TreeSplit
  import opened TreeMerge
  import opened TreeRoot
  import opened TreeBorrow
  import opened TreePending
  import opened TreeContents
  import opened TreeLeaf
  import opened TreeSize
  import opened TreeSized
  import opened TreeFit
  import opened TreeLimits
  import opened TreeOrder
  import opened TreeListing
  import opened TreeGrowth
  import opened TreeShrink
  import opened TreeLaws
  import opened TreeEdges
  import S = TreeStore

  const MAX_BTREE_KEY_BYTES: nat := 4096
  const MAX_BTREE_VALUE_BYTES: nat := 65536

  /** `Overflow`: a page was rebuilt from more bytes than it has, so that the program panics, or leaves a page that
      fails validation, or reports corruption; or a split found no page number left. The tree is lost. */
  datatype Outcome = Done | EmptyKey | KeyTooLarge | ValueTooLarge | Overflow

  datatype Stats = Stats(depth: nat, leafPages: nat, internalPages: nat, totalKeys: nat, minKey: Option<Bytes>, maxKey: Option<Bytes>)

  /** Push the entries from a slot on until the results are full. */
  method PushSlots(results: seq<Entry>, es: seq<Entry>, start: nat, limit: nat) returns (r: seq<Entry>)
    requires start <= |es| && |results| < limit
    ensures r == results + FirstFew(es[start..], limit - |results|)
  {
    r := results;
    var slot := start;
    while slot < |es|
      invariant start <= slot <= |es| && |r| < limit
      invariant r == results + es[start..slot]
    {
      r := r + [es[slot]];
      slot := slot + 1;
      assert es[start..slot] == es[start..slot - 1] + [es[slot - 1]];
      if |r| == limit {
        assert es[start..slot] == es[start..][..limit - |results|];
        break;
      }
    }
    assert slot == |es| ==> es[start..slot] == es[start..];
  }

  /** Walk the keys of one leaf, each above the last one seen; count them. */
  method WalkLeaf(entries: seq<Entry>, ghost seen: seq<Entry>, start: nat, min: Option<Bytes>, last: Option<Bytes>)
    returns (ok: bool, minKey: Option<Bytes>, lastKey: Option<Bytes>, count: nat)
    requires EntriesSorted(seen + entries) && SeenKeys(seen, start, min, last)
    ensures ok && SeenKeys(seen + entries, count, minKey, lastKey)
  {
    minKey, lastKey, count := min, last, start;
    var i := 0;
    assert seen + entries[..0] == seen;
    while i < |entries|
      invariant i <= |entries| && SeenKeys(seen + entries[..i], count, minKey, lastKey)
    {
      var k := entries[i].key;
      assert seen + entries[..i + 1] == seen + entries[..i] + [entries[i]];
      assert (seen + entries)[count] == entries[i];
      assert count > 0 ==> (seen + entries)[count - 1] == (seen + entries[..i])[count - 1];
      if lastKey.Some? {
        CompareIsRankOrder(k, lastKey.value);
        if Compare(k, lastKey.value) != Greater { return false, minKey, lastKey, count; }
      } else {
        minKey := Some(k);
      }
      lastKey := Some(k);
      count := count + 1;
      i := i + 1;
    }
    assert entries[..i] == entries;
    return true, minKey, lastKey, count;
  }

  /** What a walk over the entries `seen` knows. */
  ghost predicate SeenKeys(seen: seq<Entry>, count: nat, min: Option<Bytes>, last: Option<Bytes>) {
    && count == |seen|
    && min == (if seen == [] then None else Some(seen[0].key))
    && last == (if seen == [] then None else Some(seen[|seen| - 1].key))
  }

  /** The separator bounds of a subtree. */
  predicate Inside(key: Bytes, min: Option<Bytes>, max: Option<Bytes>) {
    (min.Some? ==> Compare(key, min.value) != Less) && (max.Some? ==> Compare(key, max.value) == Less)
  }

  method CheckBounds(es: seq<Entry>, min: Option<Bytes>, max: Option<Bytes>) returns (ok: bool)
    ensures ok <==> forall i :: 0 <= i < |es| ==> Inside(es[i].key, min, max)
  {
    for i := 0 to |es|
      invariant forall j :: 0 <= j < i ==> Inside(es[j].key, min, max)
    {
      if min.Some? && Compare(es[i].key, min.value) == Less { return false; }
      if max.Some? && Compare(es[i].key, max.value) != Less { return false; }
    }
    return true;
  }

  lemma NoKeySeen()
    ensures SeenKeys([], 0, None, None)
  {
  }

  lemma PrefixSorted(a: seq<Entry>, all: seq<Entry>)
    requires a <= all && EntriesSorted(all)
    ensures EntriesSorted(a)
  {
    assert forall i :: 0 <= i < |a| ==> a[i] == all[i];
  }

  // ── Searching one page ──

  ghost predicate SepsSorted(ss: seq<Sep>) {
    forall i, j :: 0 <= i < j < |ss| ==> Rank(ss[i].key) < Rank(ss[j].key)
  }

  ghost predicate EntriesSorted(es: seq<Entry>) {
    forall i, j :: 0 <= i < j < |es| ==> Rank(es[i].key) < Rank(es[j].key)
  }

  method SearchEntries(es: seq<Entry>, key: Bytes) returns (found: bool, idx: nat)
    requires EntriesSorted(es)
    ensures IsPlace(es, key, found, idx)
  {
    var low, high := 0, |es|;
    while low < high
      invariant 0 <= low <= high <= |es|
      invariant forall i :: 0 <= i < low ==> Rank(es[i].key) < Rank(key)
      invariant forall i :: high <= i < |es| ==> Rank(key) < Rank(es[i].key)
    {
      var mid := low + (high - low) / 2;
      CompareIsRankOrder(es[mid].key, key);
      match Compare(es[mid].key, key) {
        case Less => low := mid + 1;
        case Greater => high := mid;
        case Equal => return true, mid;
      }
    }
    return false, low;
  }

  /** The searched place is where a range that includes the key starts. */
  lemma PlaceIsStart(es: seq<Entry>, key: Bytes, found: bool, idx: nat)
    requires IsPlace(es, key, found, idx)
    ensures StartsAt(es, Included(key), idx)
    ensures StartsAt(es, Excluded(key), if found then idx + 1 else idx)
  {
    forall i | 0 <= i < |es|
      ensures AboveStart(es[i].key, Included(key)) <==> Rank(key) <= Rank(es[i].key)
      ensures AboveStart(es[i].key, Excluded(key)) <==> Rank(key) < Rank(es[i].key)
    {
      StartByRank(es[i].key, Included(key));
      StartByRank(es[i].key, Excluded(key));
    }
  }

  /** The child to follow for a key; a key equal to a separator goes right. */
  method FindChild(n: Node, key: Bytes) returns (child: PageId, slot: nat)
    requires n.Internal? && SepsSorted(n.seps)
    ensures slot <= |n.seps| && child == Child(n, slot)
    ensures slot > 0 ==> Rank(n.seps[slot - 1].key) <= Rank(key)
    ensures slot < |n.seps| ==> Rank(key) < Rank(n.seps[slot].key)
  {
    hide Rank, Compare;
    var low, high := 0, |n.seps|;
    while low < high
      invariant 0 <= low <= high <= |n.seps|
      invariant low > 0 ==> Rank(n.seps[low - 1].key) < Rank(key)
      invariant high < |n.seps| ==> Rank(key) < Rank(n.seps[high].key)
    {
      var mid := low + (high - low) / 2;
      CompareIsRankOrder(n.seps[mid].key, key);
      match Compare(n.seps[mid].key, key) {
        case Less => low := mid + 1;
        case Greater => high := mid;
        case Equal => return n.seps[mid].child, mid + 1;
      }
    }
    if low == 0 { return n.first, 0; } else { return n.seps[low - 1].child, low; }
  }

  /** Where a separator goes among sorted separators. */
  method SearchSeps(ss: seq<Sep>, key: Bytes) returns (idx: nat)
    requires SepsSorted(ss)
    ensures idx <= |ss|
    ensures forall i :: 0 <= i < idx ==> Rank(ss[i].key) < Rank(key)
    ensures forall i :: idx <= i < |ss| ==> Rank(key) <= Rank(ss[i].key)
  {
    var low, high := 0, |ss|;
    while low < high
      invariant 0 <= low <= high <= |ss|
      invariant forall i :: 0 <= i < low ==> Rank(ss[i].key) < Rank(key)
      invariant forall i :: high <= i < |ss| ==> Rank(key) < Rank(ss[i].key)
    {
      var mid := low + (high - low) / 2;
      CompareIsRankOrder(ss[mid].key, key);
      match Compare(ss[mid].key, key) {
        case Less => low := mid + 1;
        case Greater => high := mid;
        case Equal => return mid;
      }
    }
    return low;
  }

  lemma RisingSepsSorted(n: Node, m: Meta)
    requires n.Internal? && FencesRise(n, m)
    ensures SepsSorted(n.seps)
  {
    forall i, j | 0 <= i < j < |n.seps| ensures Rank(n.seps[i].key) < Rank(n.seps[j].key) {
      assert Fence(n, m, i + 1) < Fence(n, m, j + 1);
    }
  }

  /** When the page with a new separator at slot i is sorted, the search finds slot i. */
  lemma PlaceIsSlot(ss: seq<Sep>, i: nat, s: Sep, idx: nat)
    requires i <= |ss| && SepsSorted(InsertAt(ss, i, s))
    requires idx <= |ss|
    requires forall k :: 0 <= k < idx ==> Rank(ss[k].key) < Rank(s.key)
    requires forall k :: idx <= k < |ss| ==> Rank(s.key) <= Rank(ss[k].key)
    ensures idx == i && SepsSorted(ss)
  {
    WithoutOneSorted(ss, i, s);
    if idx < |ss| {
      var next := ss[idx];
      assert i <= idx;
    }
    if i < |ss| {
      var next := ss[i];
      assert idx <= i;
    }
  }

  lemma WithoutOneSorted(ss: seq<Sep>, i: nat, s: Sep)
    requires i <= |ss| && SepsSorted(InsertAt(ss, i, s))
    ensures SepsSorted(ss)
    ensures forall k :: 0 <= k < i ==> Rank(ss[k].key) < Rank(s.key)
    ensures forall k :: i <= k < |ss| ==> Rank(s.key) < Rank(ss[k].key)
  {
    var all := InsertAt(ss, i, s);
    assert forall k :: 0 <= k < i ==> all[k] == ss[k];
    assert forall k :: i <= k < |ss| ==> all[k + 1] == ss[k];
    assert all[i] == s;
    forall a, b | 0 <= a < b < |ss| ensures Rank(ss[a].key) < Rank(ss[b].key) {
      assert all[if a < i then a else a + 1] == ss[a] && all[if b < i then b else b + 1] == ss[b];
    }
  }

  /** Entries of two leaves, with the boundary one entry to the left or to the right. */
  lemma LentLast(left: seq<Entry>, right: seq<Entry>)
    requires left != []
    ensures var mid := |left| - 1;
            && (left + right)[..mid] == left[..mid] && (left + right)[mid..] == [left[mid]] + right
            && Sum(Costs(left[..mid])) <= Sum(Costs(left))
            && Sum(Costs([left[mid]] + right)) == Cost(left[mid]) + Sum(Costs(right))
  {
    var mid := |left| - 1;
    LeafTail(left, mid);
    CostsConcat([left[mid]], right);
    SumOfOne(left[mid], Sep([], 0));
  }

  lemma LentFirst(left: seq<Entry>, right: seq<Entry>)
    requires right != []
    ensures var mid := |left| + 1;
            && (left + right)[..mid] == left + [right[0]] && (left + right)[mid..] == right[1..]
            && Sum(Costs(right[1..])) <= Sum(Costs(right))
            && Sum(Costs(left + [right[0]])) == Cost(right[0]) + Sum(Costs(left))
  {
    LeafTail(right, 1);
    CostsConcat(left, [right[0]]);
    SumOfOne(right[0], Sep([], 0));
  }

  /** The position of a page among the children of its parent. */
  method ChildPosition(n: Node, c: PageId, ghost t: Tree, ghost p: PageId) returns (idx: nat)
    requires p in t.pages && n == t.pages[p] && n.Internal? && exists i: nat :: IsSlot(t, p, i, c)
    ensures IsSlot(t, p, idx, c)
  {
    ghost var i: nat :| IsSlot(t, p, i, c);
    idx := 0;
    while idx <= |n.seps| && Child(n, idx) != c
      invariant idx <= i
      decreases i - idx
    {
      idx := idx + 1;
    }
  }

  // ── The tree ──

  class BTree {
    const store: S.PageStore
    const pageSize: nat
    var root: PageId
    /** What the pages hold, and what is known of their places in the tree. */
    ghost var pages: map<PageId, Node>
    ghost var meta: map<PageId, Meta>
    ghost var chain: seq<PageId>

    ghost function View(): Tree
      reads this
    {
      Tree(pages, root, meta, chain)
    }

    ghost function State(): TreeState
      reads this, store
    {
      TreeState(View(), store.supply)
    }

    /** The finite map the tree stands for. */
    ghost function Model(): map<Bytes, Bytes>
      reads this
    {
      ToMap(Contents(View()))
    }

    /** The pages of the tree are live pages of the file, and have their nodes there. */
    ghost predicate StoreOk()
      reads this, store.Objects()
    {
      && store.Valid() && this !in store.Objects()
      && pages == store.nodes && pageSize == store.PageSize()
      && AllFit(pages, pageSize)
    }

    ghost predicate Sound()
      reads this, store.Objects()
    {
      && (pageSize == 4096 || pageSize == 8192)
      && Struct(View())
      && StoreOk()
    }

    /** No page is held: all pins are gone. */
    ghost predicate Valid()
      reads this, store.Objects()
    {
      Sound() && store.held == map[]
    }

    /** The tree, and the page numbers that are left, are as before. */
    twostate predicate Same()
      reads this, store
    {
      root == old(root) && pages == old(pages) && meta == old(meta) && chain == old(chain) && store.supply == old(store.supply)
    }

    /** The tree that is in the pool. */
    constructor (store: S.PageStore, root: PageId, ghost meta: map<PageId, Meta>, ghost chain: seq<PageId>)
      requires store.Valid() && store.held == map[] && (store.PageSize() == 4096 || store.PageSize() == 8192)
      requires Struct(Tree(store.nodes, root, meta, chain)) && AllFit(store.nodes, store.PageSize())
      ensures Valid() && this.store == store && pageSize == store.PageSize()
      ensures State() == TreeState(Tree(store.nodes, root, meta, chain), store.supply)
    {
      hide store.Valid, Struct;
      this.store := store;
      pageSize := store.PageSize();
      this.root := root;
      pages := store.nodes;
      this.meta := meta;
      this.chain := chain;
      new;
      assert this !in store.Objects();
    }

    // ── Pages ──

    method Fetch(id: PageId, exclusive: bool) returns (n: Node)
      requires StoreOk() && id in pages && id !in store.held && |store.held| < 3
      modifies store.Objects()
      ensures StoreOk() && Same() && n == pages[id] && store.held == old(store.held)[id := exclusive]
    {
      hide store.Valid, store.Objects;
      n := store.Fetch(id, exclusive);
    }

    method Drop(id: PageId)
      requires StoreOk() && id in store.held
      modifies store.Objects()
      ensures StoreOk() && Same() && store.held == old(store.held) - {id}
    {
      hide store.Valid, store.Objects;
      store.Release(id);
    }

    /** Fetches a page, reads it, and drops the guard. */
    method Peek(id: PageId) returns (n: Node)
      requires StoreOk() && store.held == map[] && id in pages
      modifies store.Objects()
      ensures StoreOk() && store.held == map[] && Same() && n == pages[id]
    {
      hide StoreOk, store.Objects;
      n := Fetch(id, false);
      Drop(id);
    }

    /** The node on a page that is held. */
    method Reread(id: PageId) returns (n: Node)
      requires StoreOk() && id in store.held
      ensures StoreOk() && Same() && store.held == old(store.held) && id in pages && n == pages[id]
    {
      hide store.Valid;
      n := store.Read(id);
    }

    /** Rebuilds a page in place. */
    method Rebuild(id: PageId, n: Node)
      requires StoreOk() && id in store.held && store.held[id] && Fits(n, pageSize)
      modifies `pages, store.Objects()
      ensures pages == old(pages)[id := n] && StoreOk()
      ensures root == old(root) && meta == old(meta) && chain == old(chain)
      ensures store.supply == old(store.supply) && store.held == old(store.held)
    {
      hide store.Valid, store.Objects;
      FitUpdate(pages, pageSize, id, n);
      store.Rebuild(id, n);
      pages := pages[id := n];
    }

    /** A page from the free list, or a new one at the end of the file. */
    method NewPage(n: Node) returns (ok: bool, id: PageId)
      requires StoreOk() && Fits(n, pageSize) && |store.held| < 3
      modifies `pages, store.Objects()
      ensures StoreOk() && (ok <==> old(Spare(store.supply)) > 0)
      ensures root == old(root) && meta == old(meta) && chain == old(chain)
      ensures !ok ==> Same() && store.held == old(store.held)
      ensures ok ==> id == old(NextId(store.supply)) && store.supply == old(AfterNext(store.supply))
      ensures ok ==> id != 0 && id !in old(pages) && id !in old(store.held)
      ensures ok ==> pages == old(pages)[id := n] && store.held == old(store.held)[id := true]
    {
      hide store.Valid, store.Objects;
      ok, id := store.New(n);
      if ok {
        FitUpdate(pages, pageSize, id, n);
        pages := pages[id := n];
      }
    }

    /** Only a page that nobody holds is deleted. */
    method DeletePage(id: PageId)
      requires StoreOk() && id in pages && id !in store.held
      modifies `pages, store.Objects()
      ensures pages == old(pages) - {id} && StoreOk()
      ensures root == old(root) && meta == old(meta) && chain == old(chain)
      ensures store.supply == GivenBack(old(store.supply), id) && store.held == old(store.held)
    {
      hide store.Valid, store.Objects;
      FitWithout(pages, pageSize, id);
      store.Delete(id);
      pages := pages - {id};
    }

    lemma NextIsFresh()
      requires StoreOk()
      ensures NextId(store.supply) != 0 && NextId(store.supply) !in pages
    {
      hide store.Valid, store.Objects;
      store.NextIsFresh();
    }

    /** Each page number of the file is in use by this tree or by somebody else, or free, and only once: none is lost. */
    lemma PagesConserved()
      requires StoreOk()
      ensures pages.Keys !! store.others.Keys
      ensures forall p: nat :: p in pages || p in store.others <==> 0 < p < store.supply.count && p !in store.supply.free
      ensures |pages| + |store.others| + |store.supply.free| + 1 == store.supply.count
    {
      hide store.Valid, store.Objects;
      store.PagesConserved();
    }

    lemma PageCount()
      requires StoreOk()
      ensures |pages| + |store.others| + Spare(store.supply) + 2 == PAGE_IDS
    {
      hide StoreOk;
      PagesConserved();
    }

    method SetParentPointer(child: PageId, parent: PageId)
      requires StoreOk() && store.held == map[] && child in pages
      modifies `pages, store.Objects()
      ensures pages == old(pages)[child := WithParent(old(pages)[child], parent)] && StoreOk() && store.held == map[]
      ensures root == old(root) && meta == old(meta) && chain == old(chain) && store.supply == old(store.supply)
    {
      hide store.Valid, store.Objects;
      assert Fits(pages[child], pageSize);
      FitUpdate(pages, pageSize, child, WithParent(pages[child], parent));
      store.Take(child, true);
      store.SetParent(child, parent);
      store.Release(child);
      pages := pages[child := WithParent(pages[child], parent)];
    }

    method SetPrevPointer(leaf: PageId, prev: PageId)
      requires StoreOk() && store.held == map[] && leaf in pages && pages[leaf].Leaf?
      modifies `pages, store.Objects()
      ensures pages == old(pages)[leaf := WithPrev(old(pages)[leaf], prev)] && StoreOk() && store.held == map[]
      ensures root == old(root) && meta == old(meta) && chain == old(chain) && store.supply == old(store.supply)
    {
      hide store.Valid, store.Objects;
      assert Fits(pages[leaf], pageSize);
      FitUpdate(pages, pageSize, leaf, WithPrev(pages[leaf], prev));
      store.Take(leaf, true);
      store.SetPrev(leaf, prev);
      store.Release(leaf);
      pages := pages[leaf := WithPrev(pages[leaf], prev)];
    }

    /** set_parent_pointer on a page that already has that parent. */
    method SetSameParent(child: PageId, parent: PageId)
      requires StoreOk() && store.held == map[] && child in pages && pages[child].parent == parent
      modifies `pages, store.Objects()
      ensures StoreOk() && store.held == map[] && Same()
    {
      hide StoreOk, store.Objects;
      assert WithParent(pages[child], parent) == pages[child];
      SetParentPointer(child, parent);
    }

    /** set_parent_pointer for every child of a page. */
    method AdoptChildren(first: PageId, seps: seq<Sep>, parent: PageId)
      requires StoreOk() && store.held == map[] && first in pages && forall k :: 0 <= k < |seps| ==> seps[k].child in pages
      modifies `pages, store.Objects()
      ensures pages == Reparent(old(pages), AllChildren(Internal(0, first, seps)), parent) && StoreOk() && store.held == map[]
      ensures root == old(root) && meta == old(meta) && chain == old(chain) && store.supply == old(store.supply)
    {
      hide StoreOk, store.Objects;
      AdoptFirst(pages, first, parent);
      SetParentPointer(first, parent);
      var k := 0;
      while k < |seps|
        invariant 0 <= k <= |seps| && StoreOk() && store.held == map[]
        invariant pages == Reparent(old(pages), AllChildren(Internal(0, first, seps[..k])), parent)
        invariant root == old(root) && meta == old(meta) && chain == old(chain) && store.supply == old(store.supply)
      {
        AdoptNext(old(pages), first, seps, k, parent);
        SetParentPointer(seps[k].child, parent);
        k := k + 1;
      }
      assert seps[..k] == seps;
    }

    // ── Search ──

    /** Where the key belongs in a leaf. */
    method PlaceInLeaf(n: Node, key: Bytes) returns (found: bool, idx: nat)
      requires StoreOk() && n.Leaf? && EntriesSorted(n.entries)
      ensures StoreOk() && Same() && store.held == old(store.held) && IsPlace(n.entries, key, found, idx)
    {
      hide store.Valid;
      found, idx := SearchEntries(n.entries, key);
    }

    /** The slot in which page p takes a separator that belongs in slot i. */
    method PlaceInPage(p: PageId, n: Node, ghost i: nat, s: Sep) returns (idx: nat)
      requires StoreOk() && p in pages && n == pages[p] && n.Internal? && i <= |n.seps|
      requires Struct(Attach(View(), p, i, s.key, s.child))
      ensures StoreOk() && Same() && store.held == old(store.held) && idx == i
    {
      hide store.Valid, Struct;
      AttachedSlot(View(), p, i, s.key, s.child);
      RisingSepsSorted(InsertSep(n, i, s), meta[p]);
      WithoutOneSorted(n.seps, i, s);
      idx := SearchSeps(n.seps, s.key);
      PlaceIsSlot(n.seps, i, s, idx);
    }

    /** The leaf whose range covers the key. */
    method FindLeafPageId(key: Bytes) returns (leaf: PageId)
      requires Valid()
      modifies store.Objects()
      ensures Valid() && Same()
      ensures leaf in pages && pages[leaf].Leaf? && leaf in meta && meta[leaf].lo <= Rank(key) < meta[leaf].hi
    {
      hide StoreOk;
      leaf := root;
      var n := Peek(leaf);
      while n.Internal?
        invariant Valid() && Same() && leaf in pages && n == pages[leaf]
        invariant leaf in meta && meta[leaf].lo <= Rank(key) < meta[leaf].hi
        decreases meta[leaf].level
      {
        assert NodeOk(n, meta[leaf]);
        RisingSepsSorted(n, meta[leaf]);
        var next, slot := FindChild(n, key);
        assert EdgeOk(View(), leaf, slot);
        leaf := next;
        n := Peek(leaf);
      }
    }

    /** The leaf's place on the chain. */
    lemma PlaceOf(leaf: PageId) returns (c: nat)
      requires Struct(View()) && leaf in pages && pages[leaf].Leaf?
      ensures c < |chain| && chain[c] == leaf
    {
      assert OnChain(View(), leaf);
      c :| 0 <= c < |chain| && chain[c] == leaf;
    }

    method Get(key: Bytes) returns (r: Outcome, value: Option<Bytes>)
      requires Valid()
      modifies store.Objects()
      ensures Valid() && Same()
      ensures r == EmptyKey <==> key == []
      ensures r == KeyTooLarge <==> |key| > 4096
      ensures r == Done <==> 0 < |key| <= 4096
      ensures r == Done ==> value == if key in Model() then Some(Model()[key]) else None
    {
      hide StoreOk, store.Objects, Struct;
      if key == [] { return EmptyKey, None; }
      if |key| > MAX_BTREE_KEY_BYTES { return KeyTooLarge, None; }
      var leaf := FindLeafPageId(key);
      var n := Peek(leaf);
      ghost var c := PlaceOf(leaf);
      StructFacts(View(), leaf);
      var found, idx := PlaceInLeaf(n, key);
      LeafDecides(View(), c, key);
      PlaceDecides(n.entries, key, found, idx);
      if found { return Done, Some(n.entries[idx].value); } else { return Done, None; }
    }

    // ── Insert ──

    /** Sizes under which an insert cannot overflow a page. */
    ghost predicate Roomy(pol: Policy)
      reads this
    {
      PolicyOk(pol, pageSize) && Sized(pol, pages)
    }

    /** The tree is the one that `Inserted` describes; a failed insert holds no page either. */
    method Insert(key: Bytes, value: Bytes, ghost pol: Policy) returns (r: Outcome)
      requires Valid()
      modifies this, store.Objects()
      ensures store.held == map[]
      ensures r == EmptyKey <==> key == []
      ensures r == KeyTooLarge <==> |key| > 4096
      ensures r == ValueTooLarge <==> 0 < |key| <= 4096 && |value| > 65536
      ensures r == EmptyKey || r == KeyTooLarge || r == ValueTooLarge ==> Valid() && Same()
      ensures r == Done || r == Overflow
              ==> (r == Done <==> old(InsertFits(View(), Entry(key, value), Spare(store.supply), pageSize)))
      ensures r == Done ==> Valid() && Model() == old(Model())[key := value]
      ensures r == Done ==> InsertedAs(old(State()), Entry(key, value), pageSize, State())
      ensures r == Done ==> InsertLaw(old(State()), Entry(key, value), pageSize, State())
      ensures old(Roomy(pol)) && EntrySized(pol, Entry(key, value)) && old(Spare(store.supply)) >= old(meta[root].level) + 2
              ==> r != Overflow
      ensures old(Roomy(pol)) && EntrySized(pol, Entry(key, value)) && r == Done ==> Roomy(pol)
      ensures r == Done ==> LEAF_HEADER_LEN + Cost(Entry(key, value)) <= pageSize
    {
      hide store.Valid, store.Objects, Struct, Sum, Flatten, LeafHalvesRoom, Inserted, InsertFits, ToMap, Contents,
           PolicyOk, Sized, Cost, EntrySized, InsertLaw, Unused;
      if key == [] { return EmptyKey; }
      if |key| > MAX_BTREE_KEY_BYTES { return KeyTooLarge; }
      if |value| > MAX_BTREE_VALUE_BYTES { return ValueTooLarge; }
      ghost var f := State();
      NumbersUnused();
      var leaf := FindLeafPageId(key);
      ghost var c := PlaceOf(leaf);
      var n := Fetch(leaf, true);
      StructFacts(View(), leaf);
      var found, idx := PlaceInLeaf(n, key);
      var es := PutEntry(n.entries, found, idx, Entry(key, value));
      ghost var path := PathExists(View(), leaf);
      PathLength(View(), leaf, path);
      assert Spot(View(), key, c, found, idx, path);
      InsertFitsAt(View(), Entry(key, value), Spare(store.supply), pageSize, c, found, idx, path);
      assert Fits(n.(entries := es), pageSize) <==> EntriesFit(es, pageSize);
      if !Fits(n.(entries := es), pageSize) {
        var ok := SplitLeaf(leaf, c, found, idx, key, value, path, pol);
        if !ok { return Overflow; }
        InsertObeys(f, Entry(key, value), pageSize, State());
        return Done;
      }
      PutFits(leaf, c, found, idx, Entry(key, value), path, pol);
      Rebuild(leaf, n.(entries := es));
      Drop(leaf);
      assert View() == old(View()).(pages := SetEntries(old(pages), leaf, es));
      InsertObeys(f, Entry(key, value), pageSize, State());
      return Done;
    }

    /** The page numbers that are left are in no use. */
    lemma NumbersUnused()
      requires Valid()
      ensures Unused(State())
    {
      hide Struct, store.Valid, store.Objects, AllFit;
      store.PagesConserved();
      store.NextIsFresh();
      var free := store.supply.free;
      forall i | 0 <= i < |free| ensures 0 < free[i] < store.supply.count { assert free[i] in free; }
      forall id | id in pages ensures 0 < id < store.supply.count && id !in free { assert id in store.nodes; }
    }

    /** An entry put where it fits. */
    lemma PutFits(leaf: PageId, c: nat, found: bool, idx: nat, e: Entry, path: seq<Step>, pol: Policy)
      requires Struct(View()) && Spot(View(), e.key, c, found, idx, path) && chain[c] == leaf
      requires leaf in pages && pages[leaf].Leaf? && EntriesFit(PutEntry(pages[leaf].entries, found, idx, e), pageSize)
      ensures var u := View().(pages := SetEntries(pages, leaf, PutEntry(pages[leaf].entries, found, idx, e)));
              && Struct(u) && ToMap(Contents(u)) == ToMap(Contents(View()))[e.key := e.value]
              && InsertedAs(State(), e, pageSize, TreeState(u, store.supply))
              && (Roomy(pol) && EntrySized(pol, e) ==> Sized(pol, u.pages))
      ensures LEAF_HEADER_LEN + Cost(e) <= pageSize
    {
      hide Sum, Flatten, LeafHalvesRoom, Struct, Spot, ToMap, Costs, Cost, PolicyOk, EntrySized, Sized;
      SpotPlace(View(), e.key, c, found, idx, path);
      assert State().tree == View() && Spot(State().tree, e.key, c, found, idx, path);
      assert Inserted(State(), e, c, found, idx, path, pageSize)
          == TreeState(View().(pages := SetEntries(pages, leaf, PutEntry(pages[leaf].entries, found, idx, e))), store.supply);
      PutInLeaf(View(), c, found, idx, e);
      PutCost(pages[leaf].entries, found, idx, e);
      if LEAF_HEADER_LEN + Cost(e) > pageSize { TooLargeNeverFits(PutEntry(pages[leaf].entries, found, idx, e), idx, pageSize); }
      if Roomy(pol) && EntrySized(pol, e) { PutSized(pol, pages, leaf, found, idx, e); }
    }

    /** The leaf is full: its upper half moves to a new leaf, right after it on the chain. */
    method SplitLeaf(leaf: PageId, ghost c: nat, found: bool, idx: nat, key: Bytes, value: Bytes,
                     ghost path: seq<Step>, ghost pol: Policy)
      returns (ok: bool)
      requires Sound() && store.held == map[leaf := true]
      requires Spot(View(), key, c, found, idx, path) && chain[c] == leaf
      requires !Fits(pages[leaf].(entries := PutEntry(pages[leaf].entries, found, idx, Entry(key, value))), pageSize)
      modifies this, store.Objects()
      ensures store.held == map[]
      ensures ok <==> LeafHalvesRoom(PutEntry(old(pages)[leaf].entries, found, idx, Entry(key, value)), path,
                                     Spare(old(store.supply)), pageSize)
      ensures ok ==> Valid() && Model() == old(Model())[key := value]
      ensures ok ==> InsertedAs(old(State()), Entry(key, value), pageSize, State())
      ensures ok ==> LEAF_HEADER_LEN + Cost(Entry(key, value)) <= pageSize
      ensures old(Roomy(pol)) && EntrySized(pol, Entry(key, value)) && Spare(old(store.supply)) > |path| + 1 ==> ok
      ensures old(Roomy(pol)) && EntrySized(pol, Entry(key, value)) && ok ==> Roomy(pol)
    {
      hide StoreOk, store.Objects, Struct, IsPath, Room, Sum, Flatten, Sized, Costs, Cost, EntrySized, PolicyOk,
           LeafCut, ToMap, Rank;
      var n := Reread(leaf);
      var es := PutEntry(n.entries, found, idx, Entry(key, value));
      var mid := |es| / 2;
      FullLeaf(leaf, c, found, idx, Entry(key, value), path, pol);
      if !EntriesFit(es[..mid], pageSize) || !EntriesFit(es[mid..], pageSize) {
        Drop(leaf);
        return false;
      }
      ok := HalveAndPromote(leaf, es, mid, c, path, pol);
    }

    /** A leaf that overflows with the new entry. */
    lemma FullLeaf(leaf: PageId, c: nat, found: bool, idx: nat, e: Entry, path: seq<Step>, pol: Policy)
      requires StoreOk() && Struct(View()) && Spot(View(), e.key, c, found, idx, path) && chain[c] == leaf
      requires pageSize == 4096 || pageSize == 8192
      requires leaf in pages && pages[leaf].Leaf? && !EntriesFit(PutEntry(pages[leaf].entries, found, idx, e), pageSize)
      ensures var es := PutEntry(pages[leaf].entries, found, idx, e);
              var u := View().(pages := SetEntries(pages, leaf, es));
              var mid := |es| / 2;
              && Struct(u) && ToMap(Contents(u)) == ToMap(Contents(View()))[e.key := e.value]
              && (EntriesFit(es[..mid], pageSize) && EntriesFit(es[mid..], pageSize)
                  ==> |es| >= 2 && LEAF_HEADER_LEN + Cost(e) <= pageSize)
              && (Roomy(pol) && EntrySized(pol, e)
                  ==> Sized(pol, u.pages) && EntriesFit(es[..mid], pageSize) && EntriesFit(es[mid..], pageSize))
              && leaf in meta && Inserted(State(), e, c, found, idx, path, pageSize) == LeafCut(State(), leaf, es, mid, c, path, pageSize)
              && Struct(State().tree) && Spot(State().tree, e.key, c, found, idx, path)
    {
      hide store.Valid, store.Objects, Struct, IsPath, Sum, Flatten, Sized, Costs, EntrySized, PolicyOk, LeafCut, ToMap;
      var es := PutEntry(pages[leaf].entries, found, idx, e);
      assert State().tree == View() && pages[leaf] == View().pages[leaf];
      PutInLeaf(View(), c, found, idx, e);
      PutCost(pages[leaf].entries, found, idx, e);
      if LEAF_HEADER_LEN + Cost(e) > pageSize { TooLargeNeverFits(es, idx, pageSize); }
      assert es[0..] == es;
      if Roomy(pol) && EntrySized(pol, e) {
        PutSized(pol, pages, leaf, found, idx, e);
        assert Fits(pages[leaf], pageSize);
        LeafHalvesFit(pol, pageSize, es, idx);
      }
    }

    /** The leaf, as if it held all of `es`, is cut before entry mid. */
    method HalveAndPromote(leaf: PageId, es: seq<Entry>, mid: nat, ghost c: nat, ghost path: seq<Step>, ghost pol: Policy)
      returns (ok: bool)
      requires StoreOk() && (pageSize == 4096 || pageSize == 8192) && store.held == map[leaf := true]
      requires leaf in pages && pages[leaf].Leaf? && 0 < mid < |es| && leaf in meta
      requires c < |chain| && chain[c] == leaf && IsPath(pages, root, leaf, path)
      requires Struct(View().(pages := SetEntries(pages, leaf, es)))
      requires Fits(pages[leaf].(entries := es[..mid]), pageSize) && Fits(pages[leaf].(entries := es[mid..]), pageSize)
      modifies this, store.Objects()
      ensures store.held == map[]
      ensures ok <==> Spare(old(store.supply)) > 0 && Room(path, es[mid].key, Spare(old(store.supply)) - 1, pageSize)
      ensures ok ==> Valid() && Contents(View()) == old(Flatten(SetEntries(pages, leaf, es), chain))
      ensures ok ==> State() == old(LeafCut(State(), leaf, es, mid, c, path, pageSize))
      ensures PolicyOk(pol, pageSize) && old(Sized(pol, SetEntries(pages, leaf, es))) && Spare(old(store.supply)) > |path| + 1 ==> ok
      ensures PolicyOk(pol, pageSize) && old(Sized(pol, SetEntries(pages, leaf, es))) && ok ==> Roomy(pol)
    {
      hide store.Valid, store.Objects, Struct, IsPath, Room, Sum, Promoted, Costs, Flatten, Sized, PolicyOk, Rank;
      ghost var u := View().(pages := SetEntries(pages, leaf, es));
      NextIsFresh();
      StructFacts(u, leaf);
      NextIsLeaf(u, c);
      RewrittenPath(u, leaf, pages, path);
      var r;
      ok, r := CutLeaf(leaf, es, mid);
      if !ok { return; }
      NextIsFresh();
      ghost var z := NextId(store.supply);
      meta := SplitMeta(u, Site(0, 0, leaf, es[mid].key, r));
      chain := InsertAt(chain, c + 1, r);
      assert View() == LeafHalved(u, leaf, mid, r, c, z) == CutLeafTree(u, leaf, mid, r, c);
      HalvedLeafPends(u, leaf, mid, r, c, z);
      HalvedLeafKeepsContents(u, leaf, mid, r, c, z);
      HalvedLeafPath(u, leaf, mid, r, path);
      if Sized(pol, u.pages) { HalveLeafSized(pol, u.pages, leaf, mid, r); }
      ok := InsertIntoParent(leaf, es[mid].key, r, path, pol);
    }

    lemma HalveLeafSteps(pages: map<PageId, Node>, leaf: PageId, es: seq<Entry>, mid: nat, r: PageId)
      requires leaf in pages && pages[leaf].Leaf? && mid < |es| && r !in pages
      requires pages[leaf].next != 0 ==> pages[leaf].next in pages && pages[leaf].next != leaf
      ensures var n := pages[leaf];
              var halves := pages[r := Leaf(n.parent, leaf, n.next, es[mid..])][leaf := n.(next := r, entries := es[..mid])];
              HalveLeaf(SetEntries(pages, leaf, es), leaf, mid, r)
              == if n.next != 0 then halves[n.next := WithPrev(halves[n.next], r)] else halves
    {
    }

    /** Write the two halves of a leaf, drop their guards, and link the new one. */
    method CutLeaf(leaf: PageId, es: seq<Entry>, mid: nat) returns (ok: bool, r: PageId)
      requires StoreOk() && leaf in pages && pages[leaf].Leaf? && mid < |es| && store.held == map[leaf := true]
      requires var next := pages[leaf].next; next != 0 ==> next in pages && pages[next].Leaf? && next != leaf
      requires Fits(pages[leaf].(entries := es[..mid]), pageSize) && Fits(pages[leaf].(entries := es[mid..]), pageSize)
      modifies `pages, store.Objects()
      ensures StoreOk() && store.held == map[] && (ok <==> Spare(old(store.supply)) > 0)
      ensures root == old(root) && meta == old(meta) && chain == old(chain)
      ensures ok ==> r == NextId(old(store.supply)) && store.supply == AfterNext(old(store.supply)) && r !in old(pages) && r != 0
      ensures ok ==> pages == HalveLeaf(SetEntries(old(pages), leaf, es), leaf, mid, r)
    {
      hide StoreOk, store.Objects, Costs, Sum, HalveLeaf, SetEntries, WithPrev;
      var n := Reread(leaf);
      NextIsFresh();
      HalveLeafSteps(pages, leaf, es, mid, NextId(store.supply));
      ok, r := NewPage(Leaf(n.parent, leaf, n.next, es[mid..]));
      if ok {
        Rebuild(leaf, n.(next := r, entries := es[..mid]));
        Drop(leaf);
        Drop(r);
        if n.next != 0 { SetPrevPointer(n.next, r); }
      } else {
        Drop(leaf);
      }
    }

    /** Give the page r, split off from l, its place beside l in the parent. */
    method InsertIntoParent(l: PageId, key: Bytes, r: PageId, ghost path: seq<Step>, ghost pol: Policy) returns (ok: bool)
      requires StoreOk() && (pageSize == 4096 || pageSize == 8192) && store.held == map[]
      requires Pending(View(), l, key, r, NextId(store.supply)) && IsPath(pages, root, l, path)
      modifies this, store.Objects()
      decreases meta[root].level - meta[l].level, 1
      ensures store.held == map[]
      ensures ok <==> Room(path, key, Spare(old(store.supply)), pageSize)
      ensures ok ==> Valid() && Contents(View()) == old(Contents(View()))
      ensures ok ==> State() == old(Promoted(State(), l, key, r, path, pageSize))
      ensures old(Roomy(pol)) && KeySized(pol, key) && Spare(old(store.supply)) > |path| ==> ok
      ensures old(Roomy(pol)) && KeySized(pol, key) && ok ==> Roomy(pol)
    {
      hide store.Valid, store.Objects, Struct;
      ghost var t := View();
      if l != root { PendingParent(t, l, key, r, NextId(store.supply)); }
      var n := Peek(l);
      var parent := n.parent;
      if l == root || parent == 0 {
        SameKeysFit([Sep(key, 0)], [Sep(key, r)], pageSize);
        ok := NewRoot(l, key, r, pol);
        return;
      }
      ghost var i: nat :| IsSlot(t, parent, i, l) && Struct(Attach(t, parent, i, key, r));
      AttachKeepsContents(t, parent, i, key, r);
      StepSlot(t, parent, i, key, r, l, path);
      AttachedSlot(t, parent, i, key, r);
      ok := InsertIntoPage(parent, i, key, r, path[1..], pol);
    }

    /** A separator for r in the page p, or in the halves of p. */
    method InsertIntoPage(p: PageId, ghost i: nat, key: Bytes, r: PageId, ghost up: seq<Step>, ghost pol: Policy)
      returns (ok: bool)
      requires StoreOk() && (pageSize == 4096 || pageSize == 8192) && store.held == map[]
      requires p in pages && pages[p].Internal? && i <= |pages[p].seps|
      requires Struct(Attach(View(), p, i, key, r)) && IsPath(pages, root, p, up)
      requires p in meta && root in meta && r in pages && pages[r].parent == p && r != p
      modifies this, store.Objects()
      decreases meta[root].level - meta[p].level, 4
      ensures store.held == map[]
      ensures ok <==> SepsRoom(InsertAt(old(pages)[p].seps, i, Sep(key, r)), up, Spare(old(store.supply)), pageSize)
      ensures ok ==> Valid() && Contents(View()) == old(Contents(View()))
      ensures ok ==> State() == old(Raised(State(), p, i, key, r, up, pageSize))
      ensures old(Roomy(pol)) && KeySized(pol, key) && Spare(old(store.supply)) > |up| + 1 ==> ok
      ensures old(Roomy(pol)) && KeySized(pol, key) && ok ==> Roomy(pol)
    {
      hide store.Valid, store.Objects, Struct, Sum, Flatten, IsPath, Room, HalvesRoom, PageCut;
      ghost var t := View();
      ghost var u := Attach(t, p, i, key, r);
      AttachedSlot(t, p, i, key, r);
      AttachKeepsContents(t, p, i, key, r);
      var n := Fetch(p, true);
      var idx := PlaceInPage(p, n, i, Sep(key, r));
      var n' := InsertSep(n, idx, Sep(key, r));
      if Sized(pol, pages) && KeySized(pol, key) { AttachSized(pol, t, p, i, key, r); }
      if Fits(n', pageSize) {
        Rebuild(p, n');
        assert pages == u.pages;
        Drop(p);
        SetSameParent(r, p);
        assert View() == u;
        return true;
      }
      ok := SplitInternal(p, i, key, r, up, pol);
    }
    /** The slot of l in its parent is the one on its path, and the path says whether a separator there has room. */
    lemma StepSlot(t: Tree, p: PageId, i: nat, key: Bytes, r: PageId, l: PageId, path: seq<Step>)
      requires IsSlot(t, p, i, l) && l in t.pages && t.pages[l].parent == p && Struct(Attach(t, p, i, key, r))
      requires IsPath(t.pages, t.root, l, path) && l != t.root
      ensures path != [] && IsPath(t.pages, t.root, p, path[1..]) && path[0].page == p && path[0].slot == i
      ensures forall spare {:trigger Room(path, key, spare, pageSize)} :: Room(path, key, spare, pageSize)
                <==> SepsRoom(InsertAt(t.pages[p].seps, i, Sep(key, r)), path[1..], spare, pageSize)
    {
      hide Struct, SepsFit, HalvesRoom;
      var ss, j := t.pages[p].seps, path[0].slot;
      AttachSlotUnique(t, p, i, key, r, j, l);
      forall spare: int
        ensures Room(path, key, spare, pageSize) <==> SepsRoom(InsertAt(ss, i, Sep(key, r)), path[1..], spare, pageSize)
      {
        SameKeysRoom(InsertAt(ss, i, Sep(key, r)), InsertAt(ss, i, Sep(key, 0)), path[1..], spare, pageSize);
      }
    }

    /** A new root above l and r. */
    method NewRoot(l: PageId, key: Bytes, r: PageId, ghost pol: Policy) returns (ok: bool)
      requires StoreOk() && (pageSize == 4096 || pageSize == 8192) && store.held == map[]
      requires Pending(View(), l, key, r, NextId(store.supply)) && l == root
      modifies this, store.Objects()
      ensures store.held == map[]
      ensures ok <==> Spare(old(store.supply)) > 0 && SepsFit([Sep(key, r)], pageSize)
      ensures ok ==> Valid() && Contents(View()) == old(Contents(View()))
      ensures ok ==> State() == TreeState(old(AttachRoot(View(), l, key, r, NextId(store.supply))), AfterNext(old(store.supply)))
      ensures old(Roomy(pol)) && KeySized(pol, key) && Spare(old(store.supply)) > 0 ==> ok
      ensures old(Roomy(pol)) && KeySized(pol, key) && ok ==> Roomy(pol)
    {
      hide store.Valid, store.Objects;
      ghost var t := View();
      var n := Internal(0, l, [Sep(key, r)]);
      if PolicyOk(pol, pageSize) && KeySized(pol, key) { OneSepFits(pol, pageSize, Sep(key, r)); }
      if !Fits(n, pageSize) { return false; }
      AttachRootKeepsContents(t, l, key, r, NextId(store.supply));
      if Sized(pol, t.pages) && KeySized(pol, key) { AttachRootSized(pol, t, l, key, r, NextId(store.supply)); }
      var z;
      ok, z := AllocRoot(n, l, r);
      if !ok { return; }
      meta := meta[z := Meta(meta[l].level + 1, 0.0, 1.0)];
      root := z;
      assert View() == AttachRoot(t, l, key, r, z);
    }

    method AllocRoot(n: Node, l: PageId, r: PageId) returns (ok: bool, z: PageId)
      requires StoreOk() && store.held == map[] && Fits(n, pageSize) && l in pages && r in pages
      modifies `pages, store.Objects()
      ensures StoreOk() && store.held == map[] && (ok <==> Spare(old(store.supply)) > 0)
      ensures root == old(root) && meta == old(meta) && chain == old(chain)
      ensures ok ==> z == NextId(old(store.supply)) && store.supply == AfterNext(old(store.supply)) && z !in old(pages) && z != 0
      ensures ok ==> pages == old(pages)[l := WithParent(old(pages)[l], z)][r := WithParent(old(pages)[r], z)][z := n]
    {
      hide store.Valid, store.Objects;
      ok, z := NewPage(n);
      if ok {
        Drop(z);
        SetParentPointer(l, z);
        SetParentPointer(r, z);
      }
    }

    /** The internal page p is full: its upper half moves to a new page. */
    method SplitInternal(p: PageId, ghost i: nat, key: Bytes, child: PageId, ghost up: seq<Step>, ghost pol: Policy)
      returns (ok: bool)
      requires StoreOk() && (pageSize == 4096 || pageSize == 8192) && store.held == map[p := true]
      requires p in pages && pages[p].Internal? && i <= |pages[p].seps|
      requires Struct(Attach(View(), p, i, key, child)) && child in pages
      requires !Fits(InsertSep(pages[p], i, Sep(key, child)), pageSize) && IsPath(pages, root, p, up)
      modifies this, store.Objects()
      decreases meta[root].level - meta[p].level, 3
      ensures store.held == map[]
      ensures ok <==> HalvesRoom(InsertAt(old(pages)[p].seps, i, Sep(key, child)), up, Spare(old(store.supply)), pageSize)
      ensures ok ==> Valid() && Contents(View()) == old(Contents(View()))
      ensures ok ==> State() == old(Raised(State(), p, i, key, child, up, pageSize))
      ensures old(Roomy(pol)) && KeySized(pol, key) && Spare(old(store.supply)) > |up| + 1 ==> ok
      ensures old(Roomy(pol)) && KeySized(pol, key) && ok ==> Roomy(pol)
    {
      hide StoreOk, store.Objects, Struct, Sum, Flatten, IsPath, Room, PageCut, Sized, SepCosts, KeySized, PolicyOk,
           Rank;
      var n := Reread(p);
      var idx := PlaceInPage(p, n, i, Sep(key, child));
      var all := InsertAt(n.seps, idx, Sep(key, child));
      var mid := |all| / 2;
      FullPage(p, i, key, child, pol);
      if !SepsFit(all[..mid], pageSize) || !SepsFit(all[mid + 1..], pageSize) {
        Drop(p);
        return false;
      }
      ok := HalveInternalAndPromote(p, all, mid, up, pol);
    }

    /** An internal page that overflows with the new separator. */
    lemma FullPage(p: PageId, i: nat, key: Bytes, child: PageId, pol: Policy)
      requires StoreOk() && (pageSize == 4096 || pageSize == 8192)
      requires p in pages && pages[p].Internal? && i <= |pages[p].seps| && Struct(Attach(View(), p, i, key, child))
      requires !SepsFit(InsertAt(pages[p].seps, i, Sep(key, child)), pageSize)
      ensures var all := InsertAt(pages[p].seps, i, Sep(key, child));
              var mid := |all| / 2;
              && Attach(View(), p, i, key, child) == View().(pages := pages[p := pages[p].(seps := all)])
              && Contents(Attach(View(), p, i, key, child)) == Contents(View())
              && p in meta && root in meta
              && (Roomy(pol) && KeySized(pol, key)
                  ==> Sized(pol, pages[p := pages[p].(seps := all)])
                      && SepsFit(all[..mid], pageSize) && SepsFit(all[mid + 1..], pageSize))
    {
      hide store.Valid, store.Objects, Struct, Sum, Flatten, PolicyOk, Sized, SepCosts;
      var all := InsertAt(pages[p].seps, i, Sep(key, child));
      AttachedSlot(View(), p, i, key, child);
      AttachKeepsContents(View(), p, i, key, child);
      if Roomy(pol) && KeySized(pol, key) {
        AttachSized(pol, View(), p, i, key, child);
        InsertSepCost(pages[p].seps, i, Sep(key, child));
        assert Fits(pages[p], pageSize);
        InternalHalvesFit(pol, pageSize, all, i);
      }
    }

    /** The internal page, as if it held all of `all`, is cut at separator mid, which moves up. */
    method HalveInternalAndPromote(p: PageId, all: seq<Sep>, mid: nat, ghost up: seq<Step>, ghost pol: Policy)
      returns (ok: bool)
      requires StoreOk() && (pageSize == 4096 || pageSize == 8192) && store.held == map[p := true]
      requires p in pages && pages[p].Internal? && mid < |all| && root in meta && p in meta
      requires Struct(View().(pages := pages[p := pages[p].(seps := all)])) && IsPath(pages, root, p, up)
      requires Fits(pages[p].(seps := all[..mid]), pageSize) && Fits(pages[p].(seps := all[mid + 1..]), pageSize)
      modifies this, store.Objects()
      decreases meta[root].level - meta[p].level, 2
      ensures store.held == map[]
      ensures ok <==> Spare(old(store.supply)) > 0 && Room(up, all[mid].key, Spare(old(store.supply)) - 1, pageSize)
      ensures ok ==> Valid() && Contents(View()) == old(Contents(View()))
      ensures ok ==> State() == old(PageCut(State(), p, all, mid, up, pageSize))
      ensures PolicyOk(pol, pageSize) && old(Sized(pol, pages[p := pages[p].(seps := all)])) && Spare(old(store.supply)) > |up| + 1 ==> ok
      ensures PolicyOk(pol, pageSize) && old(Sized(pol, pages[p := pages[p].(seps := all)])) && ok ==> Roomy(pol)
    {
      hide store.Valid, store.Objects, Struct, Flatten, Costs, SepCosts, IsPath, Room, Sum, Promoted, Sized,
           PolicyOk, Rank;
      ghost var t := View();
      ghost var u := t.(pages := pages[p := pages[p].(seps := all)]);
      StructFacts(u, p);
      WholeChildren(u, p);
      RewrittenPath(u, p, pages, up);
      var r;
      ok, r := CutInternal(p, all, mid);
      if !ok { return; }
      NextIsFresh();
      ghost var z := NextId(store.supply);
      meta := SplitMeta(u, Site(0, 0, p, all[mid].key, r));
      assert View() == InternalHalved(u, p, mid, r, z) == CutInternalTree(u, p, mid, r);
      HalvedInternalPends(u, p, mid, r, z);
      HalvedInternalKeepsContents(u, p, mid, r, z);
      HalvedInternalPath(u, p, mid, r, up);
      SameLeavesSameContents(t.pages, u.pages, t.chain);
      if Sized(pol, u.pages) { HalveInternalSized(pol, u.pages, p, mid, r); }
      assert meta[p].level == t.meta[p].level && meta[root].level == t.meta[root].level;
      ok := InsertIntoParent(p, all[mid].key, r, up, pol);
    }

    /** Write the two halves of an internal page, drop their guards, and move the children of the upper one. */
    method CutInternal(p: PageId, all: seq<Sep>, mid: nat) returns (ok: bool, r: PageId)
      requires StoreOk() && p in pages && pages[p].Internal? && mid < |all| && store.held == map[p := true]
      requires Fits(pages[p].(seps := all[..mid]), pageSize) && Fits(pages[p].(seps := all[mid + 1..]), pageSize)
      requires forall k :: mid <= k < |all| ==> all[k].child in pages
      modifies `pages, store.Objects()
      ensures StoreOk() && store.held == map[] && (ok <==> Spare(old(store.supply)) > 0)
      ensures root == old(root) && meta == old(meta) && chain == old(chain)
      ensures ok ==> r == NextId(old(store.supply)) && store.supply == AfterNext(old(store.supply)) && r !in old(pages) && r != 0
      ensures ok ==> pages == HalveInternal(old(pages)[p := old(pages)[p].(seps := all)], p, mid, r)
    {
      hide store.Valid, store.Objects;
      var n := Reread(p);
      var right := Internal(n.parent, all[mid].child, all[mid + 1..]);
      ok, r := NewPage(right);
      if !ok {
        Drop(p);
        return;
      }
      Rebuild(p, n.(seps := all[..mid]));
      Drop(p);
      Drop(r);
      HalveInternalSteps(old(pages), p, all, mid, r);
      AdoptChildren(right.first, right.seps, r);
    }

    // ── Delete ──

    /** The tree is the one that `Deleted` describes. Pages are given back to the pager, none is taken from it. */
    method Delete(key: Bytes, ghost pol: Policy) returns (r: Outcome, removed: bool)
      requires Valid()
      modifies this, store.Objects()
      ensures store.held == map[] && store.supply.count == old(store.supply.count)
      ensures r == EmptyKey <==> key == []
      ensures r == KeyTooLarge <==> |key| > 4096
      ensures r != ValueTooLarge
      ensures r == EmptyKey || r == KeyTooLarge || !removed ==> Valid() && Same()
      ensures r == Done || r == Overflow ==> (r == Done <==> old(DeleteFits(View(), key, pageSize)))
      ensures r == Done ==> Valid() && (removed <==> key in old(Model())) && Model() == old(Model()) - {key}
      ensures r == Done ==> DeletedAs(old(State()), key, pageSize, State())
      ensures r == Done ==> DeleteLaw(old(State()), key, pageSize, State())
      ensures old(Roomy(pol)) && EqualKeys(pol, pageSize) ==> r != Overflow && (r == Done ==> Roomy(pol))
    {
      hide StoreOk, store.Objects, Struct, LeafRepairs, LeftEntries, RightEntries, DeleteFits, Sum, Costs, IsPath,
           Flatten, ToMap, EqualKeys, Sized, PolicyOk, LeafRepaired, DeleteLaw;
      if key == [] { return EmptyKey, false; }
      if |key| > MAX_BTREE_KEY_BYTES { return KeyTooLarge, false; }
      ghost var f := State();
      var leaf := FindLeafPageId(key);
      ghost var c := PlaceOf(leaf);
      var n := Fetch(leaf, true);
      StructFacts(View(), leaf);
      var found, idx := PlaceInLeaf(n, key);
      LeafDecides(View(), c, key);
      PlaceDecides(n.entries, key, found, idx);
      ghost var path := PathExists(View(), leaf);
      DeleteFitsAt(View(), key, pageSize, c, found, idx, path);
      assert Spot(State().tree, key, c, found, idx, path);
      RootPath(pages, root, leaf, path);
      if !found {
        Drop(leaf);
        DeleteObeys(f, key, pageSize, State());
        return Done, false;
      }
      var n' := n.(entries := RemoveAt(n.entries, idx));
      RemoveFits(leaf, c, idx, key, path, pol);
      Rebuild(leaf, n');
      Drop(leaf);
      assert View() == old(View()).(pages := SetEntries(old(pages), leaf, n'.entries));
      if leaf == root {
        DeleteObeys(f, key, pageSize, State());
        return Done, true;
      }
      if UsedBytes(n') >= pageSize / 3 && |n'.entries| > 0 {
        LeafStays(n', LeftEntries(pages, path), RightEntries(pages, path), path, pageSize);
        DeleteObeys(f, key, pageSize, State());
        return Done, true;
      }
      var ok := RebalanceLeaf(leaf, c, path, pol);
      if !ok { return Overflow, true; }
      DeleteObeys(f, key, pageSize, State());
      return Done, true;
    }

    /** An entry taken out of its leaf. */
    lemma RemoveFits(leaf: PageId, c: nat, idx: nat, key: Bytes, path: seq<Step>, pol: Policy)
      requires Struct(View()) && Covers(View(), c, key) && chain[c] == leaf && IsPlace(pages[leaf].entries, key, true, idx)
      requires StoreOk() && IsPath(pages, root, leaf, path)
      ensures var u := View().(pages := SetEntries(pages, leaf, RemoveAt(pages[leaf].entries, idx)));
              && Struct(u) && ToMap(Contents(u)) == ToMap(Contents(View())) - {key}
              && (Roomy(pol) ==> Sized(pol, u.pages))
              && IsPath(u.pages, root, leaf, path)
              && LeftEntries(u.pages, path) == LeftEntries(pages, path) && RightEntries(u.pages, path) == RightEntries(pages, path)
      ensures Fits(pages[leaf].(entries := RemoveAt(pages[leaf].entries, idx)), pageSize)
      ensures leaf == root ==> forall es, left, right :: LeafRepairs(es, left, right, path, pageSize)
    {
      hide store.Valid, store.Objects, Struct, LeafRepairs, LeftEntries, RightEntries, Sum, Costs, Flatten, ToMap,
           Sized, PolicyOk;
      var u := View().(pages := SetEntries(pages, leaf, RemoveAt(pages[leaf].entries, idx)));
      RemoveInLeaf(View(), c, idx, key);
      RemoveEntryCost(pages[leaf].entries, idx);
      assert Fits(pages[leaf], pageSize);
      if Roomy(pol) { RemoveSized(pol, pages, leaf, idx); }
      RewrittenPath(u, leaf, pages, path);
      SiblingsElsewhere(u, leaf, pages, path);
      if leaf == root {
        StructFacts(u, leaf);
        RootRepairs(u, leaf, path, pageSize);
      }
    }

    /** Borrow for an underfull leaf or merge it, left sibling first. A leaf without siblings stays. */
    method RebalanceLeaf(leaf: PageId, ghost c: nat, ghost path: seq<Step>, ghost pol: Policy) returns (ok: bool)
      requires Valid() && leaf in pages && pages[leaf].Leaf? && Underfull(pages[leaf], pageSize)
      requires IsPath(pages, root, leaf, path) && c < |chain| && chain[c] == leaf
      modifies this, store.Objects()
      ensures store.held == map[] && store.supply.count == old(store.supply.count)
      ensures ok <==> old(LeafRepairs(pages[leaf].entries, LeftEntries(pages, path), RightEntries(pages, path), path, pageSize))
      ensures ok ==> Valid() && Contents(View()) == old(Contents(View()))
      ensures ok ==> State() == old(LeafRepaired(State(), leaf, c, path, pageSize))
      ensures old(Roomy(pol)) && EqualKeys(pol, pageSize) ==> ok && Roomy(pol)
    {
      hide StoreOk, Struct, LeafRepairs, Repairs, LendsLast, LendsFirst, EntriesFit, SepsFit, IsPath, Sized,
           Flatten, Underfull, Sum, Costs, SepCosts, PolicyOk, Rank, LeafRepaired, LeafPairRepaired, AfterEntry,
           LeafBoundaryMoved, CanMergeLeaf, Child;
      var n := Peek(leaf);
      var p := n.parent;
      if p == 0 {
        RootRepairs(View(), leaf, path, pageSize);
        AtRoot(State(), leaf, c, path, pageSize);
        return true;
      }
      StructFacts(View(), leaf);
      var parent := Peek(p);
      var idx := ChildPosition(parent, leaf, View(), p);
      PathSlot(View(), leaf, p, idx, path);
      if idx > 0 {
        var s := Site(p, idx - 1, Child(parent, idx - 1), parent.seps[idx - 1].key, leaf);
        PairFacts(View(), s);
        LeafRepairsFromLeft(pages[leaf], pages[s.l].entries, RightEntries(pages, path), path, pageSize, s.r);
        ghost var d := LeafRepairedFromLeft(State(), s, c, path, pageSize);
        var done;
        done, ok := RedistributeLeafLeft(s, pol);
        if done || !ok { return; }
        LeafMergeFits(s, leaf, pol);
        ok := MergeLeafPair(s, d, path[1..], pol);
      } else if idx + 1 <= |parent.seps| {
        var s := Site(p, idx, leaf, parent.seps[idx].key, Child(parent, idx + 1));
        PairFacts(View(), s);
        LeafRepairsFromRight(pages[leaf], LeftEntries(pages, path), pages[s.r].entries, path, pageSize, s.r);
        LeafRepairedFromRight(State(), s, c, path, pageSize);
        var done;
        done, ok := RedistributeLeafRight(s, pol);
        if done || !ok { return; }
        LeafMergeFits(s, leaf, pol);
        ok := MergeLeafPair(s, c, path[1..], pol);
      } else {
        LeafRepairsFromRight(pages[leaf], LeftEntries(pages, path), RightEntries(pages, path), path, pageSize, 0);
        OnlyLeaf(State(), leaf, c, path, pageSize);
        return true;
      }
    }

    /** An underfull leaf and a sibling with at most one entry fit in one page. */
    lemma LeafMergeFits(s: Site, leaf: PageId, pol: Policy)
      requires s.l in pages && s.r in pages && pages[s.l].Leaf? && pages[s.r].Leaf? && (leaf == s.l || leaf == s.r)
      requires Underfull(pages[leaf], pageSize)
      ensures Roomy(pol) && |pages[if leaf == s.l then s.r else s.l].entries| <= 1
              ==> Fits(pages[s.l].(entries := pages[s.l].entries + pages[s.r].entries), pageSize)
    {
      var other := if leaf == s.l then s.r else s.l;
      var es := pages[other].entries;
      CostsConcat(pages[s.l].entries, pages[s.r].entries);
      if Roomy(pol) && |es| <= 1 {
        assert NodeSized(pol, pages[other]);
        if |es| == 1 {
          UnderfullTakesEntry(pol, pageSize, pages[leaf], es[0]);
          assert es == [es[0]];
          SumOfOne(es[0], Sep([], 0));
        } else {
          assert Costs(es) == [];
        }
      }
    }

    /** Move the last entry of the left leaf to the right one, if the left has two and the right has room. */
    method RedistributeLeafLeft(s: Site, ghost pol: Policy) returns (done: bool, ok: bool)
      requires Valid() && PairOk(View(), s) && s.l in pages && pages[s.l].Leaf?
      modifies this, store.Objects()
      ensures store.held == map[] && store.supply == old(store.supply)
      ensures s.r in old(pages) && old(pages)[s.r].Leaf?
      ensures done <==> LendsLast(old(pages)[s.l].entries, old(pages)[s.r].entries, pageSize)
      ensures !done ==> ok && Valid() && Same()
      ensures done ==> (ok <==> var left := old(pages)[s.l].entries;
                          SepsFit(old(pages)[s.p].seps[s.i := Sep(left[|left| - 1].key, s.r)], pageSize))
      ensures done && ok ==> Valid() && Contents(View()) == old(Contents(View()))
      ensures done && ok ==> State() == TreeState(LeafBoundaryMoved(old(View()), s, |old(pages)[s.l].entries| - 1), store.supply)
      ensures s.r in old(pages) && old(Roomy(pol)) && EqualKeys(pol, pageSize) && old(Underfull(pages[s.r], pageSize))
              ==> ok && Roomy(pol) && (!done ==> |old(pages)[s.l].entries| <= 1)
    {
      hide StoreOk, store.Objects, Struct, PolicyOk, Sized, Sum, Costs, Cost, Flatten, Underfull, EqualKeys;
      PairFacts(View(), s);
      var left, right := FetchPair(s.l, s.r, true);
      ghost var lends := |left.entries| > 1 && Roomy(pol) && Underfull(right, pageSize);
      if lends { OneMoreFits(pol, s.l, s.r, |left.entries| - 1); }
      if |left.entries| > 1 { LentLast(left.entries, right.entries); }
      PageFits(s.l);
      done := LendsLast(left.entries, right.entries, pageSize);
      if done {
        ok := MoveLeafBoundary(s, |left.entries| - 1, pol);
      } else {
        DropPair(s.l, s.r, true);
        ok := true;
      }
    }

    /** Two pages, the second one to be written or only read. */
    method FetchPair(l: PageId, r: PageId, both: bool) returns (left: Node, right: Node)
      requires StoreOk() && store.held == map[] && l in pages && r in pages && l != r
      modifies store.Objects()
      ensures StoreOk() && Same() && store.held == map[l := true, r := both] && left == pages[l] && right == pages[r]
    {
      hide StoreOk, store.Objects;
      left := Fetch(l, true);
      right := Fetch(r, both);
    }

    method DropPair(l: PageId, r: PageId, ghost both: bool)
      requires StoreOk() && store.held == map[l := true, r := both] && l != r
      modifies store.Objects()
      ensures StoreOk() && Same() && store.held == map[]
    {
      hide StoreOk, store.Objects;
      Drop(l);
      Drop(r);
    }

    lemma PageFits(id: PageId)
      requires StoreOk() && id in pages
      ensures Fits(pages[id], pageSize)
    {
      hide store.Valid;
    }

    /** An underfull leaf has room for an entry of another one. */
    lemma OneMoreFits(pol: Policy, lender: PageId, leaf: PageId, k: nat)
      requires Roomy(pol) && lender in pages && pages[lender].Leaf? && k < |pages[lender].entries|
      requires leaf in pages && pages[leaf].Leaf? && Underfull(pages[leaf], pageSize)
      ensures LEAF_HEADER_LEN + Sum(Costs(pages[leaf].entries)) + Cost(pages[lender].entries[k]) <= pageSize
    {
      hide Sum, Costs;
      assert NodeSized(pol, pages[lender]);
      UnderfullTakesEntry(pol, pageSize, pages[leaf], pages[lender].entries[k]);
    }

    /** Move the first entry of the right leaf to the left one, if the right has two and the left has room. */
    method RedistributeLeafRight(s: Site, ghost pol: Policy) returns (done: bool, ok: bool)
      requires Valid() && PairOk(View(), s) && s.l in pages && pages[s.l].Leaf?
      modifies this, store.Objects()
      ensures store.held == map[] && store.supply == old(store.supply)
      ensures s.r in old(pages) && old(pages)[s.r].Leaf?
      ensures done <==> LendsFirst(old(pages)[s.l].entries, old(pages)[s.r].entries, pageSize)
      ensures !done ==> ok && Valid() && Same()
      ensures done ==> (ok <==> SepsFit(old(pages)[s.p].seps[s.i := Sep(old(pages)[s.r].entries[1].key, s.r)], pageSize))
      ensures done && ok ==> Valid() && Contents(View()) == old(Contents(View()))
      ensures done && ok ==> State() == TreeState(LeafBoundaryMoved(old(View()), s, |old(pages)[s.l].entries| + 1), store.supply)
      ensures old(Roomy(pol)) && EqualKeys(pol, pageSize) && old(Underfull(pages[s.l], pageSize))
              ==> ok && Roomy(pol) && (!done ==> |old(pages)[s.r].entries| <= 1)
    {
      hide StoreOk, store.Objects, Struct, PolicyOk, Sized, Sum, Costs, Cost, Flatten, Underfull, EqualKeys;
      PairFacts(View(), s);
      var left, right := FetchPair(s.l, s.r, true);
      ghost var lends := |right.entries| > 1 && Roomy(pol) && Underfull(left, pageSize);
      if lends { OneMoreFits(pol, s.r, s.l, 0); }
      if |right.entries| > 1 { LentFirst(left.entries, right.entries); }
      PageFits(s.r);
      done := LendsFirst(left.entries, right.entries, pageSize);
      if done {
        ok := MoveLeafBoundary(s, |left.entries| + 1, pol);
      } else {
        DropPair(s.l, s.r, true);
        ok := true;
      }
    }

    /** Rebuild two sibling leaves with the boundary before entry mid, and the separator in the parent. */
    method MoveLeafBoundary(s: Site, mid: nat, ghost pol: Policy) returns (ok: bool)
      requires Sound() && store.held == map[s.l := true, s.r := true] && PairOk(View(), s)
      requires s.l in pages && pages[s.l].Leaf? && s.r in pages && pages[s.r].Leaf?
      requires 0 < mid < |pages[s.l].entries + pages[s.r].entries|
      requires Fits(pages[s.l].(entries := (pages[s.l].entries + pages[s.r].entries)[..mid]), pageSize)
      requires Fits(pages[s.r].(entries := (pages[s.l].entries + pages[s.r].entries)[mid..]), pageSize)
      modifies this, store.Objects()
      ensures store.held == map[] && store.supply == old(store.supply)
      ensures var key := (old(pages)[s.l].entries + old(pages)[s.r].entries)[mid].key;
              ok <==> SepsFit(old(pages)[s.p].seps[s.i := Sep(key, s.r)], pageSize)
      ensures ok ==> Valid() && Contents(View()) == old(Contents(View()))
      ensures ok ==> State() == TreeState(LeafBoundaryMoved(old(View()), s, mid), store.supply)
      ensures old(Roomy(pol)) && EqualKeys(pol, pageSize) ==> ok && Roomy(pol)
    {
      hide store.Valid, store.Objects, Struct, Sum, Costs, SepCosts, Flatten, Sized, PolicyOk;
      ghost var t := View();
      ghost var c := SiblingsAdjacent(t, s);
      ghost var key := (pages[s.l].entries + pages[s.r].entries)[mid].key;
      PairIsNeighbours(t, s, c);
      StructFacts(t, s.l);
      BorrowLeafKeepsStruct(t, s, c, mid);
      BorrowLeafKeepsContents(t, s, c, mid);
      if Roomy(pol) { BorrowLeafSized(pol, pages, s, mid); }
      if Roomy(pol) && EqualKeys(pol, pageSize) { SameKeyFits(s, mid, pol); }
      ok := WriteLeafBoundary(s, mid);
      if !ok { return; }
      meta := meta[s.l := meta[s.l].(hi := Rank(key))][s.r := meta[s.r].(lo := Rank(key))];
      assert View() == BorrowLeaf(t, s, c, mid) == LeafBoundaryMoved(t, s, mid);
    }

    /** With keys of one length the parent still fits when its separator changes. */
    lemma SameKeyFits(s: Site, mid: nat, pol: Policy)
      requires Roomy(pol) && EqualKeys(pol, pageSize) && AllFit(pages, pageSize)
      requires s.p in pages && pages[s.p].Internal? && s.i < |pages[s.p].seps|
      requires s.l in pages && pages[s.l].Leaf? && s.r in pages && pages[s.r].Leaf?
      requires mid < |pages[s.l].entries + pages[s.r].entries|
      ensures var key := (pages[s.l].entries + pages[s.r].entries)[mid].key;
              Fits(pages[s.p].(seps := pages[s.p].seps[s.i := Sep(key, s.r)]), pageSize)
    {
      var all := pages[s.l].entries + pages[s.r].entries;
      assert NodeSized(pol, pages[s.l]) && NodeSized(pol, pages[s.r]) && NodeSized(pol, pages[s.p]);
      assert EntrySized(pol, all[mid]) && KeySized(pol, pages[s.p].seps[s.i].key);
      assert Fits(pages[s.p], pageSize);
      ReplaceSepCost(pages[s.p].seps, s.i, Sep(all[mid].key, s.r));
    }

    /** The guards of the leaves are dropped before the parent is fetched. */
    method WriteLeafBoundary(s: Site, mid: nat) returns (ok: bool)
      requires StoreOk() && Neighbours(pages, s) && store.held == map[s.l := true, s.r := true]
      requires mid < |pages[s.l].entries + pages[s.r].entries|
      requires Fits(pages[s.l].(entries := (pages[s.l].entries + pages[s.r].entries)[..mid]), pageSize)
      requires Fits(pages[s.r].(entries := (pages[s.l].entries + pages[s.r].entries)[mid..]), pageSize)
      modifies `pages, store.Objects()
      ensures StoreOk() && store.held == map[] && store.supply == old(store.supply)
      ensures root == old(root) && meta == old(meta) && chain == old(chain)
      ensures var key := (old(pages)[s.l].entries + old(pages)[s.r].entries)[mid].key;
              ok <==> Fits(old(pages)[s.p].(seps := old(pages)[s.p].seps[s.i := Sep(key, s.r)]), pageSize)
      ensures ok ==> pages == BorrowLeafPages(old(pages), s, mid)
    {
      hide StoreOk, store.Objects, Costs, SepCosts, Sum;
      var left := Reread(s.l);
      var right := Reread(s.r);
      var all := left.entries + right.entries;
      Rebuild(s.l, Leaf(s.p, left.prev, s.r, all[..mid]));
      Rebuild(s.r, Leaf(s.p, s.l, right.next, all[mid..]));
      DropPair(s.l, s.r, true);
      var parent := Fetch(s.p, true);
      var parent' := parent.(seps := parent.seps[s.i := Sep(all[mid].key, parent.seps[s.i].child)]);
      ok := Fits(parent', pageSize);
      if ok { Rebuild(s.p, parent'); }
      Drop(s.p);
    }

    /** Empty the right leaf into the left one and drop it. */
    method MergeLeafPair(s: Site, ghost c: nat, ghost up: seq<Step>, ghost pol: Policy) returns (ok: bool)
      requires Valid() && CanMergeLeaf(View(), s, c) && IsPath(pages, root, s.p, up)
      requires s.l in pages && pages[s.l].Leaf? && s.r in pages && pages[s.r].Leaf?
      modifies this, store.Objects()
      decreases meta[root].level - meta[s.p].level, 3
      ensures store.held == map[] && store.supply.count == old(store.supply.count)
      ensures ok <==> EntriesFit(old(pages)[s.l].entries + old(pages)[s.r].entries, pageSize)
                      && Repairs(RemoveAt(old(pages)[s.p].seps, s.i), up, pageSize)
      ensures ok ==> Valid() && Contents(View()) == old(Contents(View()))
      ensures ok ==> State() == old(AfterEntry(Dropped(MergeLeaf(View(), s, c), store.supply, s.r), s.p, up, pageSize))
      ensures old(Roomy(pol)) && EqualKeys(pol, pageSize)
              && old(Fits(pages[s.l].(entries := pages[s.l].entries + pages[s.r].entries), pageSize))
              ==> ok && Roomy(pol)
    {
      hide store.Valid, store.Objects, Struct, Flatten, Costs, SepCosts, Sum, Repairs, IsPath, Sized, PolicyOk,
           AfterEntry;
      ghost var t := View();
      PairIsNeighbours(t, s, c);
      MergeLeafKeepsStruct(t, s, c);
      MergeLeafKeepsContents(t, s, c);
      if Roomy(pol) { MergeLeafSized(pol, pages, s); }
      ParentStays(t, s);
      StructFacts(t, s.l);
      ok := WriteLeafMerge(s);
      if !ok { return; }
      MergedLeafPath(t, s, pages, up);
      meta := MergeMeta(t, s);
      chain := RemoveAt(chain, c + 1);
      assert View().(pages := pages[s.p := RemoveSep(pages[s.p], s.i)]) == MergeLeaf(t, s, c);
      SameLeavesSameContents(pages, MergeLeaf(t, s, c).pages, chain);
      SizedBefore(pol, pages, s.p, s.i);
      ok := RemoveParentEntry(s.p, s.i, up, pol);
    }

    /** The parent of a pair keeps its level, at most that of the root. */
    lemma ParentStays(t: Tree, s: Site)
      requires PairOk(t, s)
      ensures s.l in t.pages && s.r in t.pages && s.p in t.pages
      ensures s.p in MergeMeta(t, s) && t.root in MergeMeta(t, s)
      ensures MergeMeta(t, s)[s.p] == t.meta[s.p] && MergeMeta(t, s)[t.root] == t.meta[t.root]
      ensures t.meta[s.p].level <= t.meta[t.root].level
    {
      PairFacts(t, s);
    }

    lemma SizedBefore(pol: Policy, pages: map<PageId, Node>, p: PageId, i: nat)
      requires p in pages && pages[p].Internal? && i < |pages[p].seps|
      ensures Sized(pol, pages) ==> Sized(pol, pages[p := RemoveSep(pages[p], i)])
    {
      if Sized(pol, pages) {
        assert NodeSized(pol, pages[p]);
        SizedUpdate(pol, pages, p, RemoveSep(pages[p], i));
      }
    }

    /** Merge the leaves under two guards, then link the next leaf, then delete the right page, which nobody holds. */
    method WriteLeafMerge(s: Site) returns (ok: bool)
      requires StoreOk() && Neighbours(pages, s) && store.held == map[]
      modifies `pages, store.Objects()
      ensures StoreOk() && store.held == map[] && store.supply.count == old(store.supply.count)
      ensures root == old(root) && meta == old(meta) && chain == old(chain)
      ensures ok <==> EntriesFit(old(pages)[s.l].entries + old(pages)[s.r].entries, pageSize)
      ensures ok ==> s.p in pages && pages[s.p] == old(pages)[s.p] && store.supply == GivenBack(old(store.supply), s.r)
      ensures ok ==> pages[s.p := RemoveSep(pages[s.p], s.i)] == MergeLeafPages(old(pages), s)
    {
      hide StoreOk, store.Objects, Costs, Sum;
      var left, right := FetchPair(s.l, s.r, false);
      ok := EntriesFit(left.entries + right.entries, pageSize);
      if ok { Rebuild(s.l, Leaf(s.p, left.prev, right.next, left.entries + right.entries)); }
      DropPair(s.l, s.r, false);
      if !ok { return; }
      if right.next != 0 { SetPrevPointer(right.next, s.l); }
      DeletePage(s.r);
    }

    /** Drop separator i of p and the child right of it, whose page is gone. */
    method RemoveParentEntry(p: PageId, i: nat, ghost up: seq<Step>, ghost pol: Policy) returns (ok: bool)
      requires StoreOk() && (pageSize == 4096 || pageSize == 8192) && store.held == map[]
      requires p in pages && pages[p].Internal? && i < |pages[p].seps| && root in meta && p in meta
      requires Struct(View().(pages := pages[p := RemoveSep(pages[p], i)])) && IsPath(pages, root, p, up)
      modifies this, store.Objects()
      decreases meta[root].level - meta[p].level, 2
      ensures store.held == map[] && store.supply.count == old(store.supply.count)
      ensures ok <==> Repairs(RemoveAt(old(pages)[p].seps, i), up, pageSize)
      ensures ok ==> Valid() && Contents(View()) == old(Contents(View()))
      ensures ok ==> State() == old(AfterEntry(TreeState(View().(pages := pages[p := RemoveSep(pages[p], i)]), store.supply), p, up, pageSize))
      ensures EqualKeys(pol, pageSize) && old(Sized(pol, pages[p := RemoveSep(pages[p], i)])) ==> ok && Roomy(pol)
    {
      hide store.Valid, store.Objects, Struct, Sum, SepCosts, Flatten, SepsFit, IsPath, Sized, PolicyOk, PageRepaired;
      var parent := Fetch(p, true);
      var n := RemoveSep(parent, i);
      ghost var u := View().(pages := pages[p := n]);
      SameLeavesSameContents(pages, u.pages, chain);
      RewrittenPath(u, p, pages, up);
      RootPath(pages, root, p, up);
      if p == root && n.seps == [] {
        Drop(p);
        CollapseRoot(n.first, u, pol);
        return true;
      }
      RemoveSepCost(parent.seps, i);
      assert Fits(parent, pageSize);
      Rebuild(p, n);
      Drop(p);
      assert View() == u;
      if p == root || !(UsedBytes(n) < pageSize / 3 || n.seps == []) {
        PageStays(n, up);
        return true;
      }
      ok := RebalanceInternal(p, up, pol);
    }

    lemma RootPath(pages: map<PageId, Node>, root: PageId, p: PageId, up: seq<Step>)
      requires IsPath(pages, root, p, up)
      ensures up == [] <==> p == root
    {
    }

    lemma PageStays(n: Node, path: seq<Step>)
      requires n.Internal? && (path == [] || !Underfull(n, pageSize))
      ensures Repairs(n.seps, path, pageSize)
    {
      hide Sum;
      assert Underfull(Internal(0, 0, n.seps), pageSize) <==> Underfull(n, pageSize);
    }

    /** The root lost its last separator: its only child is the new root. */
    method CollapseRoot(first: PageId, ghost u: Tree, ghost pol: Policy)
      requires StoreOk() && (pageSize == 4096 || pageSize == 8192) && store.held == map[]
      requires root in pages && pages[root].Internal? && first == pages[root].first
      requires u == View().(pages := pages[root := pages[root].(seps := [])]) && Struct(u)
      modifies this, store.Objects()
      ensures Valid() && Contents(View()) == Contents(u)
      ensures CanShrink(u) && first in u.pages && View() == Shrink(u)
      ensures store.supply == GivenBack(old(store.supply), old(root))
      ensures Sized(pol, u.pages) ==> Sized(pol, pages)
    {
      hide store.Valid, store.Objects, Struct, Flatten;
      assert CanShrink(u);
      ShrinkKeepsStruct(u);
      ShrinkKeepsContents(u);
      WholeChildren(u, root);
      if Sized(pol, u.pages) { ShrinkSized(pol, u.pages, root); }
      var oldRoot := root;
      SetParentPointer(first, 0);
      DeletePage(oldRoot);
      root := first;
      meta := meta - {oldRoot};
      assert pages == ShrinkPages(u.pages, oldRoot);
      assert View() == Shrink(u);
    }

    /** Borrow for an underfull internal page or merge it, left sibling first. */
    method RebalanceInternal(node: PageId, ghost path: seq<Step>, ghost pol: Policy) returns (ok: bool)
      requires Valid() && node in pages && pages[node].Internal? && Underfull(pages[node], pageSize)
      requires IsPath(pages, root, node, path)
      modifies this, store.Objects()
      decreases meta[root].level - meta[node].level, 1
      ensures store.held == map[] && store.supply.count == old(store.supply.count)
      ensures ok <==> Repairs(old(pages)[node].seps, path, pageSize)
      ensures ok ==> Valid() && Contents(View()) == old(Contents(View()))
      ensures ok ==> State() == old(PageRepaired(State(), node, path, pageSize))
      ensures old(Roomy(pol)) && EqualKeys(pol, pageSize) ==> ok && Roomy(pol)
    {
      hide StoreOk, Struct, Repairs, SepsFit, IsPath, Sized, Joined, Flatten, Underfull, Sum, Costs, SepCosts,
           PolicyOk, Rank, PageRepaired, AfterEntry, BorrowInternal, MergeInternal, Child;
      var n := Peek(node);
      var p := n.parent;
      if p == 0 {
        RootRepairs(View(), node, path, pageSize);
        AtRoot(State(), node, 0, path, pageSize);
        return true;
      }
      StructFacts(View(), node);
      var parent := Peek(p);
      var idx := ChildPosition(parent, node, View(), p);
      PathSlot(View(), node, p, idx, path);
      if idx > 0 {
        var s := Site(p, idx - 1, Child(parent, idx - 1), parent.seps[idx - 1].key, node);
        PairFacts(View(), s);
        ParentStays(View(), s);
        RepairsFromLeft(pages[node], path, pageSize);
        PageRepairedFromLeft(State(), s, path, pageSize);
        var done;
        done, ok := RedistributeInternalLeft(s, pol);
        if done { return; }
        InternalMergeFits(s, node, pol);
        JoinedFits(s);
        ok := MergeInternalPair(s, path[1..], pol);
      } else if idx + 1 <= |parent.seps| {
        var s := Site(p, idx, node, parent.seps[idx].key, Child(parent, idx + 1));
        PairFacts(View(), s);
        ParentStays(View(), s);
        RepairsFromRight(pages[node], path, pageSize);
        PageRepairedFromRight(State(), s, path, pageSize);
        var done;
        done, ok := RedistributeInternalRight(s, pol);
        if done { return; }
        InternalMergeFits(s, node, pol);
        JoinedFits(s);
        ok := MergeInternalPair(s, path[1..], pol);
      } else {
        RepairsFromRight(pages[node], path, pageSize);
        OnlyPage(State(), node, path, pageSize);
        return true;
      }
    }

    /** An underfull page, a sibling without separators and the separator between them fit in one page. */
    lemma InternalMergeFits(s: Site, node: PageId, pol: Policy)
      requires CanMergeInternal(View(), s) && (node == s.l || node == s.r)
      requires Underfull(pages[node], pageSize) && pages[if node == s.l then s.r else s.l].seps == []
      ensures Roomy(pol) ==> KeySized(pol, s.key) && Fits(pages[s.l].(seps := Joined(pages, s)), pageSize)
    {
      var l, r := pages[s.l], pages[s.r];
      var mid := Sep(s.key, r.first);
      SepCostsConcat(l.seps + [mid], r.seps);
      SepCostsConcat(l.seps, [mid]);
      SumOfOne(Entry([], []), mid);
      assert SepCosts([]) == [];
      if Roomy(pol) {
        assert NodeSized(pol, pages[s.p]);
        UnderfullTakesSep(pol, pageSize, pages[node], mid);
      }
    }

    lemma JoinedFits(s: Site)
      requires CanMergeInternal(View(), s)
      ensures var l, r := pages[s.l].seps, pages[s.r].seps;
              SepsFit(Joined(pages, s), pageSize) <==> SepsFit(l + [pages[s.p].seps[s.i]] + r, pageSize)
      ensures pages[s.l].seps == [] ==> (SepsFit(Joined(pages, s), pageSize) <==> SepsFit([pages[s.p].seps[s.i]] + pages[s.r].seps, pageSize))
      ensures pages[s.r].seps == [] ==> (SepsFit(Joined(pages, s), pageSize) <==> SepsFit(pages[s.l].seps + [pages[s.p].seps[s.i]], pageSize))
    {
      var l, r, sep := pages[s.l].seps, pages[s.r].seps, pages[s.p].seps[s.i];
      SameKeysFit(Joined(pages, s), l + [sep] + r, pageSize);
      if l == [] { assert l + [sep] + r == [sep] + r; }
      if r == [] { assert l + [sep] + r == l + [sep]; }
    }

    lemma RotationFitsLeft(s: Site)
      requires CanMergeInternal(View(), s) && pages[s.l].seps != [] && AllFit(pages, pageSize)
      ensures var parent, left := pages[s.p].seps, pages[s.l].seps;
              RotationFits(s, |left| - 1) <==> SepsFit([parent[s.i]] + pages[s.r].seps, pageSize)
                                               && SepsFit(parent[s.i := left[|left| - 1]], pageSize)
    {
      var parent, left, right := pages[s.p].seps, pages[s.l].seps, pages[s.r];
      var mid := |left| - 1;
      BorrowFromLeftMovesOne(View(), s);
      SepTail(left, mid);
      assert Fits(pages[s.l], pageSize);
      SameKeysFit([Sep(s.key, right.first)] + right.seps, [parent[s.i]] + right.seps, pageSize);
      SameKeysFit(parent[s.i := Sep(left[mid].key, s.r)], parent[s.i := left[mid]], pageSize);
    }

    lemma RotationFitsRight(s: Site)
      requires CanMergeInternal(View(), s) && pages[s.r].seps != [] && AllFit(pages, pageSize)
      ensures var parent, left := pages[s.p].seps, pages[s.l].seps;
              RotationFits(s, |left| + 1) <==> SepsFit(left + [parent[s.i]], pageSize)
                                               && SepsFit(parent[s.i := pages[s.r].seps[0]], pageSize)
    {
      var parent, left, right := pages[s.p].seps, pages[s.l].seps, pages[s.r];
      BorrowFromRightMovesOne(View(), s);
      SepTail(right.seps, 1);
      assert Fits(right, pageSize);
      SameKeysFit(left + [Sep(s.key, right.first)], left + [parent[s.i]], pageSize);
      SameKeysFit(parent[s.i := Sep(right.seps[0].key, s.r)], parent[s.i := right.seps[0]], pageSize);
    }

    /** The last child of the left page moves to the right page; keys rotate through the parent. */
    method RedistributeInternalLeft(s: Site, ghost pol: Policy) returns (done: bool, ok: bool)
      requires Valid() && CanMergeInternal(View(), s)
      modifies this, store.Objects()
      ensures store.held == map[] && store.supply == old(store.supply)
      ensures done <==> old(pages)[s.l].seps != []
      ensures !done ==> Valid() && Same()
      ensures var parent, left := old(pages)[s.p].seps, old(pages)[s.l].seps;
              done ==> (ok <==> SepsFit([parent[s.i]] + old(pages)[s.r].seps, pageSize)
                                && SepsFit(parent[s.i := left[|left| - 1]], pageSize))
      ensures done && ok ==> Valid() && Contents(View()) == old(Contents(View()))
      ensures done && ok ==> State() == TreeState(BorrowInternal(old(View()), s, |old(pages)[s.l].seps| - 1), store.supply)
      ensures old(Roomy(pol)) && EqualKeys(pol, pageSize) && old(Underfull(pages[s.r], pageSize)) && done ==> ok && Roomy(pol)
    {
      hide store.Valid, store.Objects, Struct, Sum, SepCosts, Flatten, Sized, PolicyOk, RotationFits, Rotated,
           BorrowInternalPages, EqualKeys, Underfull;
      PairFacts(View(), s);
      var left, right := FetchPair(s.l, s.r, true);
      if left.seps == [] {
        DropPair(s.l, s.r, true);
        return false, true;
      }
      var mid := |left.seps| - 1;
      BorrowFromLeftMovesOne(View(), s);
      RotationFitsLeft(s);
      if Roomy(pol) && EqualKeys(pol, pageSize) && Underfull(right, pageSize) { RotationRoomLeft(s, pol); }
      ok := Rotate(s, mid, left.seps[mid].child, s.r, pol);
      done := true;
    }

    /** The first child of the right page moves to the left page. */
    method RedistributeInternalRight(s: Site, ghost pol: Policy) returns (done: bool, ok: bool)
      requires Valid() && CanMergeInternal(View(), s)
      modifies this, store.Objects()
      ensures store.held == map[] && store.supply == old(store.supply)
      ensures done <==> old(pages)[s.r].seps != []
      ensures !done ==> Valid() && Same()
      ensures var parent := old(pages)[s.p].seps;
              done ==> (ok <==> SepsFit(old(pages)[s.l].seps + [parent[s.i]], pageSize)
                                && SepsFit(parent[s.i := old(pages)[s.r].seps[0]], pageSize))
      ensures done && ok ==> Valid() && Contents(View()) == old(Contents(View()))
      ensures done && ok ==> State() == TreeState(BorrowInternal(old(View()), s, |old(pages)[s.l].seps| + 1), store.supply)
      ensures old(Roomy(pol)) && EqualKeys(pol, pageSize) && old(Underfull(pages[s.l], pageSize)) && done ==> ok && Roomy(pol)
    {
      hide store.Valid, store.Objects, Struct, Sum, SepCosts, Flatten, Sized, PolicyOk, RotationFits, Rotated,
           BorrowInternalPages, EqualKeys, Underfull;
      PairFacts(View(), s);
      var left, right := FetchPair(s.l, s.r, true);
      if right.seps == [] {
        DropPair(s.l, s.r, true);
        return false, true;
      }
      BorrowFromRightMovesOne(View(), s);
      RotationFitsRight(s);
      if Roomy(pol) && EqualKeys(pol, pageSize) && Underfull(left, pageSize) { RotationRoomRight(s, pol); }
      ok := Rotate(s, |left.seps| + 1, right.first, s.l, pol);
      done := true;
    }

    lemma RotationRoomLeft(s: Site, pol: Policy)
      requires CanMergeInternal(View(), s) && pages[s.l].seps != [] && AllFit(pages, pageSize)
      requires Roomy(pol) && EqualKeys(pol, pageSize) && Underfull(pages[s.r], pageSize)
      ensures |pages[s.l].seps| - 1 < |Joined(pages, s)| && RotationFits(s, |pages[s.l].seps| - 1)
    {
      var mid := |pages[s.l].seps| - 1;
      BorrowFromLeftMovesOne(View(), s);
      KeysFit(s, mid, pol);
      var key := Sep(s.key, pages[s.r].first);
      UnderfullTakesSep(pol, pageSize, pages[s.r], key);
      SepCostsConcat([key], pages[s.r].seps);
      SumOfOne(Entry([], []), key);
      SepTail(pages[s.l].seps, mid);
      assert Fits(pages[s.l], pageSize);
    }

    lemma RotationRoomRight(s: Site, pol: Policy)
      requires CanMergeInternal(View(), s) && pages[s.r].seps != [] && AllFit(pages, pageSize)
      requires Roomy(pol) && EqualKeys(pol, pageSize) && Underfull(pages[s.l], pageSize)
      ensures |pages[s.l].seps| + 1 < |Joined(pages, s)| && RotationFits(s, |pages[s.l].seps| + 1)
    {
      BorrowFromRightMovesOne(View(), s);
      KeysFit(s, |pages[s.l].seps| + 1, pol);
      var key := Sep(s.key, pages[s.r].first);
      UnderfullTakesSep(pol, pageSize, pages[s.l], key);
      SepCostsConcat(pages[s.l].seps, [key]);
      SumOfOne(Entry([], []), key);
      SepTail(pages[s.r].seps, 1);
      assert Fits(pages[s.r], pageSize);
    }

    /** With keys of one length the parent still fits when its separator changes. */
    lemma KeysFit(s: Site, mid: nat, pol: Policy)
      requires Roomy(pol) && EqualKeys(pol, pageSize) && AllFit(pages, pageSize)
      requires s.p in pages && pages[s.p].Internal? && s.i < |pages[s.p].seps| && s.key == pages[s.p].seps[s.i].key
      requires s.l in pages && pages[s.l].Internal? && s.r in pages && pages[s.r].Internal?
      requires mid < |Joined(pages, s)|
      ensures KeySized(pol, s.key)
      ensures Fits(pages[s.p].(seps := pages[s.p].seps[s.i := Sep(Joined(pages, s)[mid].key, s.r)]), pageSize)
    {
      var all := Joined(pages, s);
      assert NodeSized(pol, pages[s.l]) && NodeSized(pol, pages[s.r]) && NodeSized(pol, pages[s.p]);
      assert KeySized(pol, all[mid].key) && KeySized(pol, pages[s.p].seps[s.i].key);
      assert Fits(pages[s.p], pageSize);
      ReplaceSepCost(pages[s.p].seps, s.i, Sep(all[mid].key, s.r));
    }

    /** Rebuild two sibling pages around separator mid, and give the one child that changes sides its new parent. */
    method Rotate(s: Site, mid: nat, child: PageId, side: PageId, ghost pol: Policy) returns (ok: bool)
      requires Sound() && store.held == map[s.l := true, s.r := true]
      requires CanMergeInternal(View(), s) && mid < |Joined(pages, s)|
      requires child in Rotated(pages, s, mid) && child != s.p && child != s.l && child != s.r
      requires BorrowInternalPages(pages, s, mid)
               == Rotated(pages, s, mid)[child := WithParent(Rotated(pages, s, mid)[child], side)]
      modifies this, store.Objects()
      ensures store.held == map[] && store.supply == old(store.supply)
      ensures ok <==> old(RotationFits(s, mid))
      ensures ok ==> Valid() && Contents(View()) == old(Contents(View()))
      ensures ok ==> State() == TreeState(BorrowInternal(old(View()), s, mid), store.supply)
      ensures old(Roomy(pol)) && EqualKeys(pol, pageSize) && old(RotationFits(s, mid)) ==> ok && Roomy(pol)
    {
      hide store.Valid, store.Objects, Struct, Sum, SepCosts, Flatten, Sized, PolicyOk, RotationFits, Rotated,
           Joined, BorrowInternalPages, EqualKeys;
      ghost var t := View();
      ghost var key := Joined(pages, s)[mid].key;
      BorrowInternalKeepsStruct(t, s, mid);
      BorrowInternalKeepsContents(t, s, mid);
      PairFacts(t, s);
      StructFacts(t, s.l);
      if Roomy(pol) { RotatedSized(pol, s, mid); }
      ok := WriteRotation(s, mid, child, side);
      if !ok { return; }
      meta := meta[s.l := meta[s.l].(hi := Rank(key))][s.r := meta[s.r].(lo := Rank(key))];
      assert View() == BorrowInternal(t, s, mid);
    }

    lemma RotatedSized(pol: Policy, s: Site, mid: nat)
      requires CanMergeInternal(View(), s) && mid < |Joined(pages, s)| && Roomy(pol)
      ensures Sized(pol, BorrowInternalPages(pages, s, mid))
    {
      assert NodeSized(pol, pages[s.p]);
      BorrowInternalSized(pol, pages, s, mid);
    }

    ghost predicate RotationFits(s: Site, mid: nat)
      reads this
      requires s.p in pages && pages[s.p].Internal? && s.i < |pages[s.p].seps|
      requires s.l in pages && pages[s.l].Internal? && s.r in pages && pages[s.r].Internal?
      requires mid < |Joined(pages, s)|
    {
      var all := Joined(pages, s);
      && Fits(pages[s.l].(seps := all[..mid]), pageSize)
      && Fits(pages[s.r].(seps := all[mid + 1..]), pageSize)
      && Fits(pages[s.p].(seps := pages[s.p].seps[s.i := Sep(all[mid].key, s.r)]), pageSize)
    }

    /** All three pages are rebuilt under their guards. */
    method WriteRotation(s: Site, mid: nat, child: PageId, side: PageId) returns (ok: bool)
      requires StoreOk() && s.p != s.l && s.p != s.r && s.l != s.r && store.held == map[s.l := true, s.r := true]
      requires s.p in pages && pages[s.p].Internal? && s.i < |pages[s.p].seps| && pages[s.p].seps[s.i].child == s.r
      requires s.key == pages[s.p].seps[s.i].key
      requires s.l in pages && pages[s.l].Internal? && s.r in pages && pages[s.r].Internal? && pages[s.l].parent == s.p
      requires mid < |Joined(pages, s)| && child in Rotated(pages, s, mid)
      modifies `pages, store.Objects()
      ensures StoreOk() && store.held == map[] && store.supply == old(store.supply)
      ensures root == old(root) && meta == old(meta) && chain == old(chain)
      ensures ok <==> old(RotationFits(s, mid))
      ensures ok ==> pages == Rotated(old(pages), s, mid)[child := WithParent(Rotated(old(pages), s, mid)[child], side)]
    {
      hide StoreOk, store.Objects, Sum, SepCosts;
      var left := Reread(s.l);
      var right := Reread(s.r);
      var parent := Fetch(s.p, true);
      var all := left.seps + [Sep(parent.seps[s.i].key, right.first)] + right.seps;
      assert all == Joined(pages, s);
      var parent' := parent.(seps := parent.seps[s.i := Sep(all[mid].key, parent.seps[s.i].child)]);
      ok := Fits(left.(seps := all[..mid]), pageSize) && Fits(right.(seps := all[mid + 1..]), pageSize) && Fits(parent', pageSize);
      if ok {
        Rebuild(s.l, left.(parent := s.p, seps := all[..mid]));
        Rebuild(s.r, Internal(s.p, all[mid].child, all[mid + 1..]));
        Rebuild(s.p, parent');
        assert pages == Rotated(old(pages), s, mid);
      }
      Drop(s.p);
      DropPair(s.l, s.r, true);
      if ok { SetParentPointer(child, side); }
    }

    /** Empty the right page into the left one, with the separator between them, and drop it. */
    method MergeInternalPair(s: Site, ghost up: seq<Step>, ghost pol: Policy) returns (ok: bool)
      requires Valid() && CanMergeInternal(View(), s) && IsPath(pages, root, s.p, up)
      modifies this, store.Objects()
      decreases meta[root].level - meta[s.p].level, 3
      ensures store.held == map[] && store.supply.count == old(store.supply.count)
      ensures ok <==> SepsFit(old(Joined(pages, s)), pageSize) && Repairs(RemoveAt(old(pages)[s.p].seps, s.i), up, pageSize)
      ensures ok ==> Valid() && Contents(View()) == old(Contents(View()))
      ensures ok ==> State() == old(AfterEntry(Dropped(MergeInternal(View(), s), store.supply, s.r), s.p, up, pageSize))
      ensures old(Roomy(pol)) && EqualKeys(pol, pageSize) && old(Fits(pages[s.l].(seps := Joined(pages, s)), pageSize))
              ==> ok && Roomy(pol)
    {
      hide store.Valid, store.Objects, Struct, Flatten, Costs, SepCosts, Sum, Repairs, IsPath, Sized, PolicyOk,
           AfterEntry;
      ghost var t := View();
      MergeInternalKeepsStruct(t, s);
      MergeInternalKeepsContents(t, s);
      PairFacts(t, s);
      StructFacts(t, s.l);
      if Roomy(pol) { MergedSized(pol, s); }
      ParentStays(t, s);
      WholeChildren(t, s.r);
      BelowRight(t, s);
      ok := WriteInternalMerge(s);
      if !ok { return; }
      MergedInternalPath(t, s, pages, up);
      meta := MergeMeta(t, s);
      assert View().(pages := pages[s.p := RemoveSep(pages[s.p], s.i)]) == MergeInternal(t, s);
      SameLeavesSameContents(pages, MergeInternal(t, s).pages, chain);
      ok := RemoveParentEntry(s.p, s.i, up, pol);
    }

    lemma MergedSized(pol: Policy, s: Site)
      requires CanMergeInternal(View(), s) && Roomy(pol)
      ensures Sized(pol, MergeInternalPages(pages, s))
    {
      assert NodeSized(pol, pages[s.p]);
      MergeInternalSized(pol, pages, s);
    }

    lemma BelowRight(t: Tree, s: Site)
      requires CanMergeInternal(t, s)
      ensures s.l !in AllChildren(t.pages[s.r]) && s.r !in AllChildren(t.pages[s.r]) && s.p !in AllChildren(t.pages[s.r])
    {
      forall id | id in AllChildren(t.pages[s.r]) ensures id != s.l && id != s.r && id != s.p {
        ChildrenBelow(t, s, id);
      }
    }

    method ReadSeparator(p: PageId, i: nat) returns (key: Bytes)
      requires StoreOk() && p in pages && p !in store.held && |store.held| < 3
      requires pages[p].Internal? && i < |pages[p].seps|
      modifies store.Objects()
      ensures StoreOk() && Same() && store.held == old(store.held) && key == pages[p].seps[i].key
    {
      hide StoreOk, store.Objects;
      var parent := Fetch(p, false);
      key := parent.seps[i].key;
      Drop(p);
    }

    /** Three guards, that of the parent only to read the separator; the right page is deleted when nobody holds it. */
    method WriteInternalMerge(s: Site) returns (ok: bool)
      requires StoreOk() && s.p != s.l && s.p != s.r && s.l != s.r && store.held == map[]
      requires s.p in pages && pages[s.p].Internal? && s.i < |pages[s.p].seps| && s.key == pages[s.p].seps[s.i].key
      requires s.l in pages && pages[s.l].Internal? && s.r in pages && pages[s.r].Internal? && pages[s.l].parent == s.p
      requires pages[s.r].first in pages && forall k :: 0 <= k < |pages[s.r].seps| ==> pages[s.r].seps[k].child in pages
      requires s.l !in AllChildren(pages[s.r]) && s.r !in AllChildren(pages[s.r]) && s.p !in AllChildren(pages[s.r])
      modifies `pages, store.Objects()
      ensures StoreOk() && store.held == map[] && store.supply.count == old(store.supply.count)
      ensures root == old(root) && meta == old(meta) && chain == old(chain)
      ensures ok <==> SepsFit(Joined(old(pages), s), pageSize)
      ensures ok ==> s.p in pages && pages[s.p] == old(pages)[s.p] && store.supply == GivenBack(old(store.supply), s.r)
      ensures ok ==> pages[s.p := RemoveSep(pages[s.p], s.i)] == MergeInternalPages(old(pages), s)
    {
      hide StoreOk, store.Objects, SepCosts, Sum;
      var left, right := FetchPair(s.l, s.r, false);
      var separator := ReadSeparator(s.p, s.i);
      var all := left.seps + [Sep(separator, right.first)] + right.seps;
      ok := SepsFit(all, pageSize);
      if ok { Rebuild(s.l, left.(parent := s.p, seps := all)); }
      DropPair(s.l, s.r, false);
      if !ok { return; }
      SameBodyAllChildren(right, Internal(0, right.first, right.seps));
      AdoptChildren(right.first, right.seps, s.l);
      DeletePage(s.r);
    }

    // ── Reading in order ──

    method FindFirstLeafPageId() returns (leaf: PageId)
      requires Valid()
      modifies store.Objects()
      ensures Valid() && Same() && chain != [] && leaf == chain[0]
    {
      hide StoreOk, store.Objects;
      leaf := root;
      var n := Peek(leaf);
      while n.Internal?
        invariant Valid() && Same() && leaf in pages && n == pages[leaf] && leaf in meta && meta[leaf].lo == 0.0
        decreases meta[leaf].level
      {
        assert NodeOk(n, meta[leaf]);
        assert EdgeOk(View(), leaf, 0);
        leaf := n.first;
        n := Peek(leaf);
      }
      ghost var c := PlaceOf(leaf);
      assert LinkOk(View(), 0) && NodeOk(pages[chain[0]], meta[chain[0]]);
      if c > 0 { ChainRises(View(), 0, c); }
    }

    method FindLastLeafPageId() returns (leaf: PageId)
      requires Valid()
      modifies store.Objects()
      ensures Valid() && Same() && chain != [] && leaf == chain[|chain| - 1]
    {
      hide StoreOk, store.Objects;
      leaf := root;
      var n := Peek(leaf);
      while n.Internal?
        invariant Valid() && Same() && leaf in pages && n == pages[leaf] && leaf in meta && meta[leaf].hi == 1.0
        decreases meta[leaf].level
      {
        assert NodeOk(n, meta[leaf]);
        assert EdgeOk(View(), leaf, |n.seps|);
        leaf := if n.seps == [] then n.first else n.seps[|n.seps| - 1].child;
        n := Peek(leaf);
      }
      ghost var c := PlaceOf(leaf);
      ghost var last := |chain| - 1;
      assert LinkOk(View(), last) && NodeOk(pages[chain[last]], meta[chain[last]]);
      if c < last { ChainRises(View(), c, last); }
    }

    /** The first entry of the first leaf: the one with the least key exactly when that leaf has one, or none has. */
    method First() returns (e: Option<Entry>)
      requires Valid()
      modifies store.Objects()
      ensures Valid() && Same() && chain != [] && chain[0] in pages && pages[chain[0]].Leaf?
      ensures IsLeast(Model(), e) <==> pages[chain[0]].entries != [] || Model() == map[]
      ensures e == None || IsLeast(Model(), e)
    {
      hide StoreOk, store.Objects, Struct, Flatten, ToMap, IsLeast;
      var leaf := FindFirstLeafPageId();
      FirstLeafDecides(View());
      var n := Peek(leaf);
      e := FirstOf(n.entries);
    }

    /** The last entry of the last leaf, likewise. */
    method Last() returns (e: Option<Entry>)
      requires Valid()
      modifies store.Objects()
      ensures Valid() && Same() && chain != [] && chain[|chain| - 1] in pages && pages[chain[|chain| - 1]].Leaf?
      ensures IsGreatest(Model(), e) <==> pages[chain[|chain| - 1]].entries != [] || Model() == map[]
      ensures e == None || IsGreatest(Model(), e)
    {
      hide StoreOk, store.Objects, Struct, Flatten, ToMap, IsGreatest;
      var leaf := FindLastLeafPageId();
      LastLeafDecides(View());
      var n := Peek(leaf);
      e := LastOf(n.entries);
    }

    /** The number of keys, leaf by leaf. */
    method Len() returns (total: nat)
      requires Valid()
      modifies store.Objects()
      ensures Valid() && Same() && total == |Contents(View())| == |Model()|
    {
      hide StoreOk, store.Objects, Struct, Flatten;
      var first := FindFirstLeafPageId();
      ContentsSorted(View());
      ToMapSize(Contents(View()));
      ChainIsLeafList(View());
      total := CountFrom(first);
    }

    method CountFrom(first: PageId) returns (total: nat)
      requires StoreOk() && store.held == map[] && LeafList(pages, chain) && first == chain[0]
      modifies store.Objects()
      ensures StoreOk() && store.held == map[] && Same() && total == |Flatten(pages, chain)|
    {
      hide StoreOk, store.Objects, Flatten;
      ghost var all, seen: seq<Entry> := Flatten(pages, chain), [];
      var curr := first;
      ghost var c: nat := 0;
      total := 0;
      AtStart(pages, chain);
      while curr != 0
        invariant StoreOk() && store.held == map[] && Same()
        invariant At(pages, chain, curr, c, 0, seen, all) && total == |seen|
        decreases if curr != 0 then |chain| - c else 0
      {
        var n := Peek(curr);
        NextLeaf(pages, chain, curr, c, 0, seen, all);
        seen := seen + n.entries[0..];
        total := total + |n.entries|;
        curr := n.next;
        c := c + 1;
      }
    }

    /** Up to `limit` entries in key order, from the first key not below `start`. */
    method Scan(start: Bytes, limit: nat) returns (results: seq<Entry>)
      requires Valid()
      modifies store.Objects()
      ensures Valid() && Same()
      ensures results == FirstFew(InBounds(Contents(View()), Included(start), Unbounded), limit)
      ensures ListsFirst(results, Model(), start, limit)
    {
      hide StoreOk, store.Objects, Struct, Flatten, Rest, InBounds, ToMap, ListsFirst, ListsWithin;
      results := [];
      TreeLists(View(), Included(start), Unbounded);
      FirstOfRange(InBounds(Contents(View()), Included(start), Unbounded), Model(), start, limit);
      if limit == 0 { return; }
      var curr := FindLeafPageId(start);
      var n := Peek(curr);
      ghost var c: nat := PlaceOf(curr);
      StructFacts(View(), curr);
      var found: bool, slot: nat := PlaceInLeaf(n, start);
      PlaceIsStart(n.entries, start, found, slot);
      RangeFromPosition(View(), c, slot, Included(start), Unbounded);
      InBoundsAll(Rest(pages, chain, c, slot));
      ChainIsLeafList(View());
      results := ScanFrom(curr, c, slot, limit);
    }

    /** The scan loop, from a slot of a leaf along the chain. */
    method ScanFrom(leaf: PageId, ghost place: nat, start: nat, limit: nat) returns (results: seq<Entry>)
      requires StoreOk() && store.held == map[]
      requires LeafList(pages, chain) && place < |chain| && chain[place] == leaf && leaf in pages && pages[leaf].Leaf?
      requires start <= |pages[leaf].entries|
      modifies store.Objects()
      ensures StoreOk() && store.held == map[] && Same()
      ensures results == FirstFew(Rest(pages, chain, place, start), limit)
    {
      hide StoreOk, store.Objects, Flatten, Rest, LeafList;
      ghost var all := Rest(pages, chain, place, start);
      ghost var c: nat := place;
      var curr: PageId, slot: nat := leaf, start;
      results := [];
      LeafAt(place);
      while curr != 0 && |results| < limit
        invariant StoreOk() && store.held == map[] && Same()
        invariant |results| <= limit && results <= all
        invariant |results| < limit ==> At(pages, chain, curr, c, slot, results, all)
        decreases if curr != 0 then |chain| - c else 0
      {
        var n := Peek(curr);
        NextLeaf(pages, chain, curr, c, slot, results, all);
        results := TakeSlots(results, n.entries, slot, limit);
        curr := n.next;
        c := c + 1;
        slot := 0;
      }
    }

    lemma LeafAt(place: nat)
      requires LeafList(pages, chain) && place < |chain|
      ensures LeafLink(pages, chain, place)
    {
    }

    method TakeSlots(results: seq<Entry>, es: seq<Entry>, start: nat, limit: nat) returns (r: seq<Entry>)
      requires StoreOk() && start <= |es| && |results| < limit
      ensures StoreOk() && Same() && store.held == old(store.held)
      ensures r == results + FirstFew(es[start..], limit - |results|)
    {
      hide store.Valid;
      r := PushSlots(results, es, start, limit);
    }

    // ── verify_integrity ──

    ghost predicate BoundsKnown(id: PageId, min: Option<Bytes>, max: Option<Bytes>)
      reads this
      requires id in meta
    {
      && (min.Some? ==> Rank(min.value) <= meta[id].lo)
      && (max.Some? ==> meta[id].hi <= Rank(max.value))
    }

    /** What a walk over a subtree counts: the depth of its leaves, keys, leaves, internal pages. */
    ghost predicate Counted(id: PageId, depth: nat, counts: (nat, nat, nat, nat))
      reads this
      requires Struct(View()) && id in pages
    {
      && counts.0 == depth + meta[id].level
      && counts.1 == |Flatten(pages, LeavesBelow(View(), id))|
      && counts.2 == |LeavesBelow(View(), id)|
      && counts.3 == |InternalsBelow(View(), id)|
    }

    /** Walk a subtree checking separator bounds and leaf depth; None is a corruption error. */
    method VerifySubtree(id: PageId, depth: nat, min: Option<Bytes>, max: Option<Bytes>)
      returns (r: Option<(nat, nat, nat, nat)>)
      requires Valid() && id in pages && id in meta && BoundsKnown(id, min, max)
      modifies store.Objects()
      ensures Valid() && Same()
      ensures r.Some? && Counted(id, depth, r.value)
      decreases meta[id].level, 1
    {
      hide StoreOk, Flatten, Struct, LeavesBelow, InternalsBelow, Rank, Inside;
      var n := Peek(id);
      StructFacts(View(), id);
      if n.Leaf? {
        KeysInside(id, min, max);
        var inside := CheckBounds(n.entries, min, max);
        if !inside { return None; }
        OneLeafCounted(id);
        return Some((depth, |n.entries|, 1, 0));
      }
      r := VerifyChildren(id, n, depth, min, max);
    }

    lemma KeysInside(id: PageId, min: Option<Bytes>, max: Option<Bytes>)
      requires Struct(View()) && id in pages && pages[id].Leaf? && BoundsKnown(id, min, max)
      ensures forall i :: 0 <= i < |pages[id].entries| ==> Inside(pages[id].entries[i].key, min, max)
    {
      hide Rank;
      assert NodeOk(pages[id], meta[id]);
      forall i | 0 <= i < |pages[id].entries| ensures Inside(pages[id].entries[i].key, min, max) {
        if min.Some? { CompareIsRankOrder(pages[id].entries[i].key, min.value); }
        if max.Some? { CompareIsRankOrder(pages[id].entries[i].key, max.value); }
      }
    }

    lemma OneLeafCounted(id: PageId)
      requires Struct(View()) && id in pages && pages[id].Leaf?
      ensures LeavesBelow(View(), id) == [id] && Flatten(pages, [id]) == pages[id].entries && InternalsBelow(View(), id) == {}
      ensures meta[id].level == 0
    {
      assert NodeOk(pages[id], meta[id]);
      FlattenOne(pages, id);
      LeafHasNoInternals(View(), id);
    }

    /** The first i children have been walked. */
    ghost predicate ChildrenCounted(id: PageId, i: nat, below: seq<PageId>, keys: nat, leaves: nat, internals: nat)
      reads this
      requires Struct(View()) && id in pages && pages[id].Internal?
    {
      && i <= |pages[id].seps| + 1
      && LeavesBelow(View(), id) == below + LeavesFrom(View(), id, i)
      && keys == |Flatten(pages, below)| && leaves == |below|
      && internals == |InternalsUpTo(View(), id, i)|
    }

    lemma OneMoreChild(id: PageId, i: nat, below: seq<PageId>, keys: nat, leaves: nat, internals: nat, depth: nat,
                       sub: (nat, nat, nat, nat))
      requires Struct(View()) && id in pages && pages[id].Internal? && i <= |pages[id].seps|
      requires ChildrenCounted(id, i, below, keys, leaves, internals)
      requires Child(pages[id], i) in pages && Counted(Child(pages[id], i), depth, sub)
      ensures ChildrenCounted(id, i + 1, below + LeavesBelow(View(), Child(pages[id], i)),
                              keys + sub.1, leaves + sub.2, internals + sub.3)
    {
      hide Struct;
      UpToGrows(View(), id, i);
      FlattenConcat(pages, below, LeavesBelow(View(), Child(pages[id], i)));
      FirstLeaves(View(), id, i);
      assert below + LeavesBelow(View(), Child(pages[id], i)) + LeavesFrom(View(), id, i + 1) == below + LeavesFrom(View(), id, i);
    }

    lemma FirstLeaves(t: Tree, id: PageId, i: nat)
      requires Struct(t) && id in t.pages && t.pages[id].Internal? && i <= |t.pages[id].seps|
      ensures Child(t.pages[id], i) in t.pages
      ensures LeavesFrom(t, id, i) == LeavesBelow(t, Child(t.pages[id], i)) + LeavesFrom(t, id, i + 1)
    {
      assert EdgeOk(t, id, i);
    }

    lemma AllChildrenCounted(id: PageId, below: seq<PageId>, keys: nat, leaves: nat, internals: nat, depth: nat)
      requires Struct(View()) && id in pages && pages[id].Internal?
      requires ChildrenCounted(id, |pages[id].seps| + 1, below, keys, leaves, internals)
      ensures Counted(id, depth, (depth + meta[id].level, keys, leaves, internals + 1))
    {
      hide Struct;
      UpToAll(View(), id);
      assert LeavesFrom(View(), id, |pages[id].seps| + 1) == [];
      assert below == LeavesBelow(View(), id);
    }

    lemma NoChildCounted(id: PageId)
      requires Struct(View()) && id in pages && pages[id].Internal?
      ensures ChildrenCounted(id, 0, [], 0, 0, 0)
    {
      assert LeavesBelow(View(), id) == [] + LeavesFrom(View(), id, 0);
    }

    /** The bounds that the separators give a child. */
    lemma ChildBounds(id: PageId, i: nat, min: Option<Bytes>, max: Option<Bytes>)
      requires Struct(View()) && id in pages && pages[id].Internal? && i <= |pages[id].seps| && BoundsKnown(id, min, max)
      ensures var child := Child(pages[id], i);
              && child in pages && child in meta && meta[child].level + 1 == meta[id].level
              && BoundsKnown(child, if i == 0 then min else Some(pages[id].seps[i - 1].key),
                             if i < |pages[id].seps| then Some(pages[id].seps[i].key) else max)
    {
      assert EdgeOk(View(), id, i);
    }

    method VerifyChildren(id: PageId, n: Node, depth: nat, min: Option<Bytes>, max: Option<Bytes>)
      returns (r: Option<(nat, nat, nat, nat)>)
      requires Valid() && id in pages && n == pages[id] && n.Internal? && id in meta && BoundsKnown(id, min, max)
      modifies store.Objects()
      ensures Valid() && Same()
      ensures r.Some? && Counted(id, depth, r.value)
      decreases meta[id].level, 0
    {
      hide store.Valid, store.Objects, AllFit, Struct, Flatten, LeavesBelow, LeavesFrom, InternalsBelow,
           InternalsUpTo, BoundsKnown, ChildrenCounted;
      var expected: Option<nat> := None;
      var i, keys, leaves, internals := 0, 0, 0, 0;
      ghost var below := [];
      NoChildCounted(id);
      while i <= |n.seps|
        invariant i <= |n.seps| + 1 && Valid() && Same()
        invariant ChildrenCounted(id, i, below, keys, leaves, internals)
        invariant expected == if i == 0 then None else Some(depth + meta[id].level)
      {
        var child := Child(n, i);
        ChildBounds(id, i, min, max);
        var childMin := if i == 0 then min else Some(n.seps[i - 1].key);
        var childMax := if i < |n.seps| then Some(n.seps[i].key) else max;
        var sub := VerifySubtree(child, depth + 1, childMin, childMax);
        if sub.None? { return None; }
        OneMoreChild(id, i, below, keys, leaves, internals, depth + 1, sub.value);
        below := below + LeavesBelow(View(), child);
        keys, leaves, internals := keys + sub.value.1, leaves + sub.value.2, internals + sub.value.3;
        if expected.Some? {
          if sub.value.0 != expected.value { return None; }
        } else {
          expected := Some(sub.value.0);
        }
        i := i + 1;
      }
      AllChildrenCounted(id, below, keys, leaves, internals, depth);
      return Some((expected.value, keys, leaves, internals + 1));
    }

    /** The whole check accepts every valid tree and reports its true size, depth, page counts, first and last key. */
    method VerifyIntegrity() returns (r: Option<Stats>)
      requires Valid()
      modifies store.Objects()
      ensures Valid() && Same()
      ensures r.Some?
      ensures r.value.totalKeys == |Model()| && r.value.depth == meta[root].level && r.value.leafPages == |chain|
      ensures r.value.internalPages == |set id | id in pages && pages[id].Internal?|
      ensures var es := Contents(View());
              && r.value.minKey == (if es == [] then None else Some(es[0].key))
              && r.value.maxKey == (if es == [] then None else Some(es[|es| - 1].key))
      ensures LeastKey(r.value.minKey, Model()) && GreatestKey(r.value.maxKey, Model())
    {
      hide LeastKey, GreatestKey, ToMap, StoreOk, store.Objects, Struct, Flatten, LeavesBelow, InternalsBelow;
      ContentsSorted(View());
      EdgesOfEntries(Contents(View()));
      ToMapSize(Contents(View()));
      ChainIsInOrder(View());
      AllInternals(View());
      RootFacts(View());
      var sub := VerifySubtree(root, 0, None, None);
      if sub.None? { return None; }
      var first := FindFirstLeafPageId();
      ChainIsLeafList(View());
      var ok, minKey, maxKey, count := VerifyChain(first);
      if !ok || count != sub.value.1 { return None; }
      return Some(Stats(sub.value.0, sub.value.2, sub.value.3, sub.value.1, minKey, maxKey));
    }

    /** Walk the chain checking prev pointers and that keys rise; count them. */
    method VerifyChain(first: PageId) returns (ok: bool, minKey: Option<Bytes>, lastKey: Option<Bytes>, count: nat)
      requires StoreOk() && store.held == map[]
      requires LeafList(pages, chain) && first == chain[0] && EntriesSorted(Flatten(pages, chain))
      modifies store.Objects()
      ensures StoreOk() && store.held == map[] && Same()
      ensures ok && SeenKeys(Flatten(pages, chain), count, minKey, lastKey)
    {
      hide StoreOk, store.Objects, Flatten, Rest, EntriesSorted, LeafList, SeenKeys;
      ghost var all, seen: seq<Entry> := Flatten(pages, chain), [];
      var curr := first;
      ghost var c: nat := 0;
      var prev: PageId := 0;
      minKey, lastKey, count := None, None, 0;
      AtStart(pages, chain);
      NoKeySeen();
      while curr != 0
        invariant StoreOk() && store.held == map[] && Same()
        invariant At(pages, chain, curr, c, 0, seen, all) && SeenKeys(seen, count, minKey, lastKey)
        invariant curr != 0 ==> prev == (if c == 0 then 0 else chain[c - 1])
        decreases if curr != 0 then |chain| - c else 0
      {
        var n := Peek(curr);
        if n.prev != prev { return false, minKey, lastKey, count; }
        NextLeaf(pages, chain, curr, c, 0, seen, all);
        assert n.entries[0..] == n.entries;
        PrefixSorted(seen + n.entries, all);
        ok, minKey, lastKey, count := WalkOn(n, seen, count, minKey, lastKey);
        if !ok { return; }
        seen := seen + n.entries;
        prev := curr;
        curr := n.next;
        c := c + 1;
      }
      ok := true;
    }

    method WalkOn(n: Node, ghost seen: seq<Entry>, start: nat, min: Option<Bytes>, last: Option<Bytes>)
      returns (ok: bool, minKey: Option<Bytes>, lastKey: Option<Bytes>, count: nat)
      requires StoreOk() && n.Leaf? && EntriesSorted(seen + n.entries) && SeenKeys(seen, start, min, last)
      ensures StoreOk() && Same() && store.held == old(store.held)
      ensures ok && SeenKeys(seen + n.entries, count, minKey, lastKey)
    {
      hide store.Valid;
      ok, minKey, lastKey, count := WalkLeaf(n.entries, seen, start, min, last);
    }
  }

  /** `create`: the root of a new tree is an empty leaf on a new page. */
  method CreateTree(store: S.PageStore) returns (r: Option<BTree>)
    requires store.Valid() && store.held == map[] && store.nodes == map[] && (store.PageSize() == 4096 || store.PageSize() == 8192)
    modifies store.Objects()
    ensures r.Some? <==> Spare(old(store.supply)) > 0
    ensures r.None? ==> store.Valid() && store.nodes == map[] && store.supply == old(store.supply) && store.held == map[]
    ensures r.Some? ==> var t := r.value;
            && fresh(t) && t.Valid() && t.store == store && t.pageSize == store.PageSize()
            && t.State() == TreeState(OneLeaf(NextId(old(store.supply)), []), AfterNext(old(store.supply)))
            && t.Model() == map[] && forall pol: Policy :: Sized(pol, t.pages)
  {
    hide store.Valid, store.Objects, Struct;
    store.NextIsFresh();
    EmptyLeafFits(store.PageSize());
    var ok, id := store.New(Leaf(0, 0, 0, []));
    if !ok { return None; }
    store.Release(id);
    OneLeafStruct(id, []);
    var t := new BTree(store, id, map[id := Meta(0, 0.0, 1.0)], [id]);
    OneLeafFacts(id);
    r := Some(t);
  }

  datatype Opening = Opened(tree: BTree) | PageOutOfRange | WrongPageType

  /** `open`: refused for the header page, a page beyond the end, and a page of another type. */
  method OpenTree(store: S.PageStore, root: PageId, ghost meta: map<PageId, Meta>, ghost chain: seq<PageId>) returns (r: Opening)
    requires store.Valid() && store.held == map[] && (store.PageSize() == 4096 || store.PageSize() == 8192)
    requires root in store.nodes ==> Struct(Tree(store.nodes, root, meta, chain)) && AllFit(store.nodes, store.PageSize())
    requires root == 0 || root >= store.supply.count || root in store.nodes || (root in store.others && !S.IsTreePage(store.others[root]))
    modifies store.Objects()
    ensures r == PageOutOfRange <==> root == 0 || root >= old(store.supply).count
    ensures r == WrongPageType <==> root in store.others
    ensures !r.Opened? ==> store.Valid() && store.nodes == old(store.nodes) && store.held == map[] && store.supply == old(store.supply)
    ensures r.Opened? ==> var t := r.tree;
              && fresh(t) && t.Valid() && t.store == store && t.pageSize == store.PageSize()
              && t.State() == TreeState(Tree(old(store.nodes), root, meta, chain), old(store.supply))
  {
    hide store.Objects, Struct, S.Holds;
    store.PagesConserved();
    if root == 0 || root >= store.PageTotal() { return PageOutOfRange; }
    hide store.Valid;
    var data := store.Look(root);
    if root in store.nodes { S.TypeByte(data, store.nodes[root]); }
    if !S.IsTreePage(data) { return WrongPageType; }
    var t := new BTree(store, root, meta, chain);
    r := Opened(t);
  }

  lemma EmptyLeafFits(pageSize: nat)
    requires pageSize >= LEAF_HEADER_LEN
    ensures Fits(Leaf(0, 0, 0, []), pageSize)
  {
    assert Costs([]) == [];
  }

  lemma OneLeafFacts(id: PageId)
    ensures ToMap(Contents(OneLeaf(id, []))) == map[] && forall pol: Policy :: Sized(pol, OneLeaf(id, []).pages)
  {
    FlattenOne(OneLeaf(id, []).pages, id);
  }
}
