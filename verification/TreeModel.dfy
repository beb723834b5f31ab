/** The B+tree as a heap of decoded pages. */
module TreeModel {
  import opened Keys

  // Besides the pages the state carries, for proofs only, the level of each page (0 for a leaf), the key range its
  // position stands for, and the leaf order. All clauses of the invariant are local: they mention a page, its
  // parent or its chain neighbour, never a whole subtree.

  /** A page number is stored in eight bytes. */
  const PAGE_IDS: nat := 0x1_0000_0000_0000_0000

  type PageId = id: int | 0 <= id < 0x1_0000_0000_0000_0000

  /** Page numbers to come: those given back, the last one first, then those past the end of the file. */
  datatype PageSupply = PageSupply(free: seq<nat>, count: nat)

  function NextId(s: PageSupply): PageId {
    var id := if s.free != [] then s.free[0] else s.count;
    if id < PAGE_IDS then id else 0
  }

  function AfterNext(s: PageSupply): PageSupply {
    if s.free != [] then s.(free := s.free[1..]) else s.(count := s.count + 1)
  }

  function GivenBack(s: PageSupply, id: nat): PageSupply {
    s.(free := [id] + s.free)
  }

  /** How many there are. */
  function Spare(s: PageSupply): int {
    |s.free| + PAGE_IDS - 1 - s.count
  }

  datatype Entry = Entry(key: Bytes, value: Bytes)

  /** A separator and the child to its right. */
  datatype Sep = Sep(key: Bytes, child: PageId)

  datatype Node =
    | Leaf(parent: PageId, prev: PageId, next: PageId, entries: seq<Entry>)
    | Internal(parent: PageId, first: PageId, seps: seq<Sep>)

  /** Level above the leaves, and the key range [lo, hi) as ranks. */
  datatype Meta = Meta(level: nat, lo: real, hi: real)

  datatype Tree = Tree(pages: map<PageId, Node>, root: PageId,
                       meta: map<PageId, Meta>, chain: seq<PageId>)

  /** The i-th child, `first` being child 0. */
  function Child(n: Node, i: nat): PageId
    requires n.Internal? && i <= |n.seps|
  {
    if i == 0 then n.first else n.seps[i - 1].child
  }

  /** Lower bound of child i; one past the last child it is the node's upper bound. */
  ghost function Fence(n: Node, m: Meta, i: nat): real
    requires n.Internal? && i <= |n.seps| + 1
  {
    if i == 0 then m.lo else if i == |n.seps| + 1 then m.hi else Rank(n.seps[i - 1].key)
  }

  ghost predicate SortedIn(es: seq<Entry>, lo: real, hi: real) {
    && (forall i :: 0 <= i < |es| ==> lo <= Rank(es[i].key) < hi)
    && (forall i, j :: 0 <= i < j < |es| ==> Rank(es[i].key) < Rank(es[j].key))
  }

  ghost predicate FencesRise(n: Node, m: Meta)
    requires n.Internal?
  {
    forall i, j :: 0 <= i < j <= |n.seps| + 1 ==> Fence(n, m, i) < Fence(n, m, j)
  }

  ghost predicate NodeOk(n: Node, m: Meta) {
    && m.lo < m.hi
    && (n.Leaf? <==> m.level == 0)
    && (n.Leaf? ==> SortedIn(n.entries, m.lo, m.hi))
    && (n.Internal? ==> FencesRise(n, m))
  }

  /** Equal up to the parent and prev/next pointers. */
  ghost predicate SameBody(n: Node, n': Node) {
    if n.Leaf? then n'.Leaf? && n'.entries == n.entries
    else n'.Internal? && n'.first == n.first && n'.seps == n.seps
  }

  lemma SameBodyOk(n: Node, n': Node, m: Meta)
    requires SameBody(n, n') && NodeOk(n, m)
    ensures NodeOk(n', m)
  {
    if n.Internal? {
      assert forall i :: 0 <= i <= |n.seps| + 1 ==> Fence(n', m, i) == Fence(n, m, i);
    }
  }

  ghost predicate Domains(t: Tree) {
    && t.meta.Keys == t.pages.Keys
    && 0 !in t.pages
    && t.root in t.pages
  }

  ghost predicate NodesOk(t: Tree)
    requires Domains(t)
  {
    forall id {:trigger NodeOk(t.pages[id], t.meta[id])} :: id in t.pages ==> NodeOk(t.pages[id], t.meta[id])
  }

  /** p's child in slot i knows its parent, its level and its range. */
  ghost predicate EdgeOk(t: Tree, p: PageId, i: nat)
    requires Domains(t) && p in t.pages && t.pages[p].Internal? && i <= |t.pages[p].seps|
  {
    var c := Child(t.pages[p], i);
    && c in t.pages
    && t.pages[c].parent == p
    && t.meta[c].level + 1 == t.meta[p].level
    && t.meta[c].lo == Fence(t.pages[p], t.meta[p], i)
    && t.meta[c].hi == Fence(t.pages[p], t.meta[p], i + 1)
  }

  ghost predicate EdgesOk(t: Tree)
    requires Domains(t)
  {
    forall p, i {:trigger EdgeOk(t, p, i)} :: p in t.pages && t.pages[p].Internal? && 0 <= i <= |t.pages[p].seps| ==> EdgeOk(t, p, i)
  }

  /** c is child number i of p. */
  ghost predicate IsSlot(t: Tree, p: PageId, i: nat, c: PageId) {
    && p in t.pages
    && t.pages[p].Internal?
    && i <= |t.pages[p].seps|
    && Child(t.pages[p], i) == c
  }

  ghost predicate HasSlot(t: Tree, id: PageId)
    requires id in t.pages
  {
    exists i: nat :: IsSlot(t, t.pages[id].parent, i, id)
  }

  ghost predicate OnChain(t: Tree, id: PageId) {
    exists i :: 0 <= i < |t.chain| && t.chain[i] == id
  }

  ghost predicate ParentsOk(t: Tree) {
    forall id {:trigger HasSlot(t, id)} :: id in t.pages && id != t.root ==> HasSlot(t, id)
  }

  ghost predicate RootOk(t: Tree)
    requires Domains(t)
  {
    && t.pages[t.root].parent == 0
    && t.meta[t.root].lo == 0.0
    && t.meta[t.root].hi == 1.0
    && (forall id :: id in t.pages && id != t.root ==> t.meta[id].level < t.meta[t.root].level)
  }

  /** The prev/next pointers spell out `chain`, which is every leaf once, left to right. */
  ghost predicate ChainOk(t: Tree)
    requires Domains(t)
  {
    && |t.chain| > 0
    && (forall id {:trigger OnChain(t, id)} :: id in t.pages && t.pages[id].Leaf? ==> OnChain(t, id))
    && (forall i :: 0 <= i < |t.chain| ==> t.chain[i] in t.pages)
    && (forall i {:trigger LinkOk(t, i)} :: 0 <= i < |t.chain| ==> LinkOk(t, i))
  }

  ghost predicate LinkOk(t: Tree, i: nat)
    requires Domains(t) && i < |t.chain| && t.chain[i] in t.pages
    requires i > 0 ==> t.chain[i - 1] in t.pages
  {
    var id := t.chain[i];
    && t.pages[id].Leaf?
    && t.pages[id].prev == (if i == 0 then 0 else t.chain[i - 1])
    && t.pages[id].next == (if i + 1 == |t.chain| then 0 else t.chain[i + 1])
    && t.meta[id].lo == (if i == 0 then 0.0 else t.meta[t.chain[i - 1]].hi)
    && (i + 1 == |t.chain| ==> t.meta[id].hi == 1.0)
  }

  ghost predicate Struct(t: Tree) {
    && Domains(t)
    && NodesOk(t)
    && EdgesOk(t)
    && ParentsOk(t)
    && RootOk(t)
    && ChainOk(t)
  }

  /** What the structure says of one page. */
  lemma StructFacts(t: Tree, id: PageId)
    requires Struct(t) && id in t.pages
    ensures Domains(t) && NodeOk(t.pages[id], t.meta[id]) && t.meta[id].level <= t.meta[t.root].level
    ensures if id == t.root then t.pages[id].parent == 0 else HasSlot(t, id)
  {
  }

  lemma RootFacts(t: Tree)
    requires Struct(t)
    ensures t.root in t.pages && t.root in t.meta && t.meta[t.root].lo == 0.0 && t.meta[t.root].hi == 1.0
  {
  }

  /** A page is the child of its parent in one slot only. */
  lemma SlotUnique(t: Tree, p: PageId, a: nat, b: nat, c: PageId)
    requires Domains(t) && NodesOk(t) && EdgesOk(t)
    requires IsSlot(t, p, a, c) && IsSlot(t, p, b, c)
    ensures a == b
  {
    assert EdgeOk(t, p, a) && EdgeOk(t, p, b) && NodeOk(t.pages[p], t.meta[p]);
  }

  /** Leaves further right hold larger keys. */
  lemma {:induction false} ChainRises(t: Tree, i: nat, j: nat)
    requires Domains(t) && NodesOk(t) && ChainOk(t)
    requires i < j < |t.chain|
    ensures t.meta[t.chain[i]].hi <= t.meta[t.chain[j]].lo
    ensures t.chain[i] != t.chain[j]
    decreases j
  {
    assert LinkOk(t, j);
    assert NodeOk(t.pages[t.chain[i]], t.meta[t.chain[i]]) && NodeOk(t.pages[t.chain[j - 1]], t.meta[t.chain[j - 1]]);
    if i < j - 1 { ChainRises(t, i, j - 1); }
  }

  /** What the structure says of one place of the chain. */
  lemma LinkAt(t: Tree, i: nat)
    requires Domains(t) && ChainOk(t) && i < |t.chain|
    ensures t.chain[i] in t.pages && t.chain[i] in t.meta && (i > 0 ==> t.chain[i - 1] in t.pages) && LinkOk(t, i)
  {
  }

  /** All entries, leaf by leaf along the chain. */
  function Flatten(pages: map<PageId, Node>, chain: seq<PageId>): seq<Entry> {
    if chain == [] then []
    else (if chain[0] in pages && pages[chain[0]].Leaf? then pages[chain[0]].entries else [])
         + Flatten(pages, chain[1..])
  }

  function Contents(t: Tree): seq<Entry> {
    Flatten(t.pages, t.chain)
  }

  function WithParent(n: Node, p: PageId): Node {
    n.(parent := p)
  }

  function WithPrev(n: Node, prev: PageId): Node {
    if n.Leaf? then n.(prev := prev) else n
  }

  /** set_parent_pointer over a set of pages. */
  function Reparent(pages: map<PageId, Node>, ids: set<PageId>, p: PageId): (r: map<PageId, Node>) {
    map id | id in pages :: if id in ids then WithParent(pages[id], p) else pages[id]
  }
}
