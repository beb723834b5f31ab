/** Reading the tree in order. */
module TreeOrder {
  import opened Keys
  import opened TreeModel
  import opened TreeSplit
  import opened TreeContents
  import opened TreeLeaf

  // The leaves below the root, left to right, are the chain, and a key range is a stretch of the contents.

  // ── Leaves below a page ──

  ghost function LeavesBelow(t: Tree, id: PageId): seq<PageId>
    requires Struct(t) && id in t.pages
    decreases t.meta[id].level, 1, 0
  {
    if t.pages[id].Leaf? then [id] else (assert NodeOk(t.pages[id], t.meta[id]); LeavesFrom(t, id, 0))
  }

  ghost function LeavesFrom(t: Tree, p: PageId, i: nat): seq<PageId>
    requires Struct(t) && p in t.pages && t.pages[p].Internal? && i <= |t.pages[p].seps| + 1
    decreases t.meta[p].level, 0, |t.pages[p].seps| + 1 - i
  {
    if i == |t.pages[p].seps| + 1 then [] else
      assert EdgeOk(t, p, i);
      LeavesBelow(t, Child(t.pages[p], i)) + LeavesFrom(t, p, i + 1)
  }

  /** The stretch of the chain with key range [lo, hi). */
  ghost predicate IsRun(t: Tree, a: nat, b: nat, lo: real, hi: real)
    requires Domains(t) && ChainOk(t)
  {
    a < b <= |t.chain| && t.meta[t.chain[a]].lo == lo && t.meta[t.chain[b - 1]].hi == hi
  }

  lemma RunsJoin(t: Tree, a: nat, b: nat, c: nat, d: nat, lo: real, mid: real, hi: real)
    requires Struct(t) && IsRun(t, a, b, lo, mid) && IsRun(t, c, d, mid, hi)
    ensures b == c && IsRun(t, a, d, lo, hi)
  {
    assert NodeOk(t.pages[t.chain[b - 1]], t.meta[t.chain[b - 1]]);
    assert NodeOk(t.pages[t.chain[c]], t.meta[t.chain[c]]);
    if b < c {
      assert LinkOk(t, b);
      assert NodeOk(t.pages[t.chain[b]], t.meta[t.chain[b]]);
      ChainRises(t, b, c);
    } else if c < b {
      if c < b - 1 { ChainRises(t, c, b - 1); }
    }
  }

  lemma ChildFacts(t: Tree, p: PageId, i: nat)
    requires Struct(t) && p in t.pages && t.pages[p].Internal? && i <= |t.pages[p].seps|
    ensures p in t.meta && t.pages.Keys == t.meta.Keys
    ensures var c := Child(t.pages[p], i);
            && c in t.pages && c in t.meta && t.meta[c].level < t.meta[p].level
            && t.meta[c].lo == Fence(t.pages[p], t.meta[p], i) && t.meta[c].hi == Fence(t.pages[p], t.meta[p], i + 1)
  {
    assert EdgeOk(t, p, i);
  }

  lemma {:induction false} LeavesBelowRun(t: Tree, id: PageId) returns (a: nat, b: nat)
    requires Struct(t) && id in t.pages
    ensures IsRun(t, a, b, t.meta[id].lo, t.meta[id].hi)
    ensures LeavesBelow(t, id) == t.chain[a..b]
    decreases t.meta[id].level, 1, 0
  {
    if t.pages[id].Leaf? {
      assert OnChain(t, id);
      a :| 0 <= a < |t.chain| && t.chain[a] == id;
      b := a + 1;
    } else {
      assert NodeOk(t.pages[id], t.meta[id]);
      a, b := LeavesFromRun(t, id, 0);
    }
  }

  lemma {:induction false} LeavesFromRun(t: Tree, p: PageId, i: nat) returns (a: nat, b: nat)
    requires Struct(t) && p in t.pages && t.pages[p].Internal? && i <= |t.pages[p].seps|
    ensures IsRun(t, a, b, Fence(t.pages[p], t.meta[p], i), t.meta[p].hi)
    ensures LeavesFrom(t, p, i) == t.chain[a..b]
    decreases t.meta[p].level, 0, |t.pages[p].seps| + 1 - i
  {
    hide NodesOk, EdgesOk, ParentsOk, RootOk, ChainOk, Rank;
    ChildFacts(t, p, i);
    a, b := LeavesBelowRun(t, Child(t.pages[p], i));
    if i < |t.pages[p].seps| {
      var c, d := LeavesFromRun(t, p, i + 1);
      RunsJoin(t, a, b, c, d, Fence(t.pages[p], t.meta[p], i), Fence(t.pages[p], t.meta[p], i + 1), t.meta[p].hi);
      assert t.chain[a..b] + t.chain[c..d] == t.chain[a..d];
      b := d;
    } else {
      assert LeavesFrom(t, p, i + 1) == [];
    }
  }

  /** The chain is the in-order sequence of the leaves below the root. */
  lemma ChainIsInOrder(t: Tree)
    requires Struct(t)
    ensures LeavesBelow(t, t.root) == t.chain
  {
    var a, b := LeavesBelowRun(t, t.root);
    assert LinkOk(t, 0) && LinkOk(t, |t.chain| - 1);
    assert NodeOk(t.pages[t.chain[0]], t.meta[t.chain[0]]);
    assert NodeOk(t.pages[t.chain[b - 1]], t.meta[t.chain[b - 1]]);
    if a > 0 {
      ChainRises(t, 0, a);
    }
    if b < |t.chain| {
      assert NodeOk(t.pages[t.chain[|t.chain| - 1]], t.meta[t.chain[|t.chain| - 1]]);
      ChainRises(t, b - 1, |t.chain| - 1);
    }
    assert t.chain[0..|t.chain|] == t.chain;
  }

  // ── Every page hangs below the root ──

  /** Following parents from a page, some number of steps leads to the root. */
  ghost predicate Ascends(t: Tree, id: PageId, steps: nat)
    decreases steps
  {
    id in t.pages && if steps == 0 then id == t.root else id != t.root && Ascends(t, t.pages[id].parent, steps - 1)
  }

  /** No page is out of reach: each is as many parents below the root as its level says. */
  lemma {:induction false} AllPagesReachable(t: Tree, id: PageId)
    requires Struct(t) && id in t.pages
    ensures t.meta[id].level <= t.meta[t.root].level
    ensures Ascends(t, id, t.meta[t.root].level - t.meta[id].level)
    decreases t.meta[t.root].level - t.meta[id].level
  {
    if id != t.root {
      assert HasSlot(t, id);
      var i: nat :| IsSlot(t, t.pages[id].parent, i, id);
      assert EdgeOk(t, t.pages[id].parent, i);
      AllPagesReachable(t, t.pages[id].parent);
    }
  }

  // ── Counting internal pages ──

  lemma ParentAbove(t: Tree, x: PageId)
    requires Struct(t) && x in t.pages && x != t.root
    ensures t.pages[x].parent in t.pages && t.meta[t.pages[x].parent].level == t.meta[x].level + 1
    ensures t.meta[x].level < t.meta[t.root].level
  {
    assert HasSlot(t, x);
    var i: nat :| IsSlot(t, t.pages[x].parent, i, x);
    assert EdgeOk(t, t.pages[x].parent, i);
  }

  /** The page of a level that a page hangs below. */
  ghost function AncestorAt(t: Tree, x: PageId, level: nat): (a: PageId)
    requires Struct(t) && x in t.pages && t.meta[x].level <= level <= t.meta[t.root].level
    ensures a in t.pages && t.meta[a].level == level
    decreases level - t.meta[x].level
  {
    if t.meta[x].level == level then x
    else
      ParentAbove(t, x);
      AncestorAt(t, t.pages[x].parent, level)
  }

  lemma {:induction false} AncestorStep(t: Tree, x: PageId, level: nat)
    requires Struct(t) && x in t.pages && t.meta[x].level <= level < t.meta[t.root].level
    ensures AncestorAt(t, x, level) != t.root
    ensures AncestorAt(t, x, level + 1) == t.pages[AncestorAt(t, x, level)].parent
    decreases level - t.meta[x].level
  {
    ParentAbove(t, x);
    if t.meta[x].level < level { AncestorStep(t, t.pages[x].parent, level); }
  }

  ghost predicate Hangs(t: Tree, x: PageId, id: PageId)
    requires Struct(t) && id in t.pages
  {
    && x in t.pages && t.pages[x].Internal? && t.meta[x].level <= t.meta[id].level <= t.meta[t.root].level
    && AncestorAt(t, x, t.meta[id].level) == id
  }

  /** The internal pages of a subtree. */
  ghost function InternalsBelow(t: Tree, id: PageId): set<PageId>
    requires Struct(t) && id in t.pages
  {
    set x | x in t.pages && Hangs(t, x, id)
  }

  /** The internal pages below the first i children. */
  ghost function InternalsUpTo(t: Tree, p: PageId, i: nat): set<PageId>
    requires Struct(t) && p in t.pages && t.pages[p].Internal? && i <= |t.pages[p].seps| + 1
    decreases i
  {
    if i == 0 then {} else
      assert EdgeOk(t, p, i - 1);
      InternalsUpTo(t, p, i - 1) + InternalsBelow(t, Child(t.pages[p], i - 1))
  }

  /** x is an internal page below child number j of p. */
  ghost predicate UnderSlot(t: Tree, p: PageId, j: nat, x: PageId)
    requires Struct(t) && p in t.pages && t.pages[p].Internal?
  {
    && x in t.pages && t.pages[x].Internal?
    && t.meta[x].level < t.meta[p].level <= t.meta[t.root].level
    && IsSlot(t, p, j, AncestorAt(t, x, t.meta[p].level - 1))
  }

  lemma ChildHasThem(t: Tree, p: PageId, j: nat, x: PageId)
    requires Struct(t) && p in t.pages && t.pages[p].Internal? && j <= |t.pages[p].seps|
    ensures Child(t.pages[p], j) in t.pages
    ensures x in InternalsBelow(t, Child(t.pages[p], j)) <==> UnderSlot(t, p, j, x)
  {
    StructFacts(t, p);
    assert EdgeOk(t, p, j);
    hide Struct;
  }

  lemma {:induction false} UpToIs(t: Tree, p: PageId, i: nat, x: PageId)
    requires Struct(t) && p in t.pages && t.pages[p].Internal? && i <= |t.pages[p].seps| + 1
    ensures x in InternalsUpTo(t, p, i) <==> exists j: nat :: j < i && UnderSlot(t, p, j, x)
  {
    hide Struct, UnderSlot, InternalsBelow;
    if i > 0 {
      UpToIs(t, p, i - 1, x);
      ChildHasThem(t, p, i - 1, x);
    }
  }

  /** The subtrees of two children have no page in common. */
  lemma UpToGrows(t: Tree, p: PageId, i: nat)
    requires Struct(t) && p in t.pages && t.pages[p].Internal? && i <= |t.pages[p].seps|
    ensures Child(t.pages[p], i) in t.pages
    ensures |InternalsUpTo(t, p, i + 1)| == |InternalsUpTo(t, p, i)| + |InternalsBelow(t, Child(t.pages[p], i))|
  {
    assert EdgeOk(t, p, i);
    var c := Child(t.pages[p], i);
    forall x | x in InternalsUpTo(t, p, i) && x in InternalsBelow(t, c) ensures false {
      UpToIs(t, p, i, x);
      var j: nat :| j < i && UnderSlot(t, p, j, x);
      ChildHasThem(t, p, i, x);
      SlotUnique(t, p, i, j, c);
    }
    assert InternalsUpTo(t, p, i) !! InternalsBelow(t, c);
  }

  lemma UnderChild(t: Tree, p: PageId, x: PageId)
    requires Struct(t) && p in t.pages && t.pages[p].Internal? && x in t.pages
    ensures x != p && Hangs(t, x, p) <==> exists j: nat :: j < |t.pages[p].seps| + 1 && UnderSlot(t, p, j, x)
  {
    StructFacts(t, p);
    if t.pages[x].Internal? && t.meta[x].level < t.meta[p].level {
      var a := AncestorAt(t, x, t.meta[p].level - 1);
      AncestorStep(t, x, t.meta[p].level - 1);
      hide AncestorAt;
      StructFacts(t, a);
      if j: nat :| IsSlot(t, p, j, a) { assert EdgeOk(t, p, j); }
      if t.pages[a].parent == p {
        var j: nat :| IsSlot(t, p, j, a);
        assert UnderSlot(t, p, j, x);
      }
    }
  }

  lemma UpToAll(t: Tree, p: PageId)
    requires Struct(t) && p in t.pages && t.pages[p].Internal?
    ensures |InternalsBelow(t, p)| == 1 + |InternalsUpTo(t, p, |t.pages[p].seps| + 1)|
  {
    hide Struct, Hangs, UnderSlot;
    var n := |t.pages[p].seps| + 1;
    forall x | x in t.pages ensures x in InternalsUpTo(t, p, n) <==> Hangs(t, x, p) && x != p {
      UpToIs(t, p, n, x);
      UnderChild(t, p, x);
    }
    UpToInPages(t, p, n);
    TopHangs(t, p);
    assert InternalsBelow(t, p) == {p} + InternalsUpTo(t, p, n);
  }

  lemma TopHangs(t: Tree, p: PageId)
    requires Struct(t) && p in t.pages && t.pages[p].Internal?
    ensures Hangs(t, p, p)
  {
    StructFacts(t, p);
  }

  lemma UpToInPages(t: Tree, p: PageId, i: nat)
    requires Struct(t) && p in t.pages && t.pages[p].Internal? && i <= |t.pages[p].seps| + 1
    ensures forall x :: x in InternalsUpTo(t, p, i) ==> x in t.pages
  {
    forall x | x in InternalsUpTo(t, p, i) ensures x in t.pages { UpToIs(t, p, i, x); }
  }

  lemma LeafHasNoInternals(t: Tree, id: PageId)
    requires Struct(t) && id in t.pages && t.pages[id].Leaf?
    ensures InternalsBelow(t, id) == {}
  {
    assert NodeOk(t.pages[id], t.meta[id]);
    forall x | x in t.pages && t.pages[x].Internal? ensures t.meta[x].level > 0 { assert NodeOk(t.pages[x], t.meta[x]); }
  }

  /** All internal pages are below the root. */
  lemma AllInternals(t: Tree)
    requires Struct(t)
    ensures InternalsBelow(t, t.root) == set x | x in t.pages && t.pages[x].Internal?
  {
    forall x | x in t.pages && t.pages[x].Internal? ensures Hangs(t, x, t.root) { StructFacts(t, x); }
  }

  // ── Key ranges ──

  datatype Bound = Included(key: Bytes) | Excluded(key: Bytes) | Unbounded

  predicate AboveStart(key: Bytes, start: Bound) {
    match start
    case Included(k) => Compare(key, k) != Less
    case Excluded(k) => Compare(key, k) == Greater
    case Unbounded => true
  }

  predicate BelowEnd(key: Bytes, end: Bound) {
    match end
    case Included(k) => Compare(key, k) != Greater
    case Excluded(k) => Compare(key, k) == Less
    case Unbounded => true
  }

  /** The entries inside the bounds, in order. */
  function InBounds(es: seq<Entry>, start: Bound, end: Bound): seq<Entry> {
    if es == [] then []
    else (if AboveStart(es[0].key, start) && BelowEnd(es[0].key, end) then [es[0]] else [])
         + InBounds(es[1..], start, end)
  }

  /** Up to n items from the front. */
  function FirstFew<T>(s: seq<T>, n: nat): seq<T> {
    if |s| <= n then s else s[..n]
  }

  lemma {:induction false} InBoundsConcat(a: seq<Entry>, b: seq<Entry>, start: Bound, end: Bound)
    ensures InBounds(a + b, start, end) == InBounds(a, start, end) + InBounds(b, start, end)
  {
    if a == [] {
      assert a + b == b;
    } else {
      assert (a + b)[1..] == a[1..] + b;
      InBoundsConcat(a[1..], b, start, end);
    }
  }

  lemma {:induction false} InBoundsNone(es: seq<Entry>, start: Bound, end: Bound)
    requires forall i :: 0 <= i < |es| ==> !AboveStart(es[i].key, start) || !BelowEnd(es[i].key, end)
    ensures InBounds(es, start, end) == []
  {
    if es != [] { InBoundsNone(es[1..], start, end); }
  }

  /** Once past the start bound only the end bound matters. */
  lemma {:induction false} InBoundsPast(es: seq<Entry>, start: Bound, end: Bound)
    requires forall i :: 0 <= i < |es| ==> AboveStart(es[i].key, start)
    ensures InBounds(es, start, end) == InBounds(es, Unbounded, end)
  {
    if es != [] { InBoundsPast(es[1..], start, end); }
  }

  lemma {:induction false} InBoundsAll(es: seq<Entry>)
    ensures InBounds(es, Unbounded, Unbounded) == es
  {
    if es != [] { InBoundsAll(es[1..]); }
  }

  /** A bound cuts sorted keys in two. */
  lemma StartByRank(key: Bytes, start: Bound)
    ensures start.Included? ==> (AboveStart(key, start) <==> Rank(start.key) <= Rank(key))
    ensures start.Excluded? ==> (AboveStart(key, start) <==> Rank(start.key) < Rank(key))
  {
    if !start.Unbounded? { CompareIsRankOrder(key, start.key); }
  }

  lemma EndByRank(key: Bytes, end: Bound)
    ensures end.Included? ==> (BelowEnd(key, end) <==> Rank(key) <= Rank(end.key))
    ensures end.Excluded? ==> (BelowEnd(key, end) <==> Rank(key) < Rank(end.key))
  {
    if !end.Unbounded? { CompareIsRankOrder(key, end.key); }
  }

  /** Sorted entries whose first is past the end are all past the end. */
  lemma PastEnd(es: seq<Entry>, end: Bound)
    requires forall i, j :: 0 <= i < j < |es| ==> Rank(es[i].key) < Rank(es[j].key)
    requires es != [] && !BelowEnd(es[0].key, end)
    ensures InBounds(es, Unbounded, end) == []
  {
    forall i | 0 <= i < |es| ensures !BelowEnd(es[i].key, end) {
      EndByRank(es[0].key, end);
      EndByRank(es[i].key, end);
    }
    InBoundsNone(es, Unbounded, end);
  }

  /** From a position in a leaf to the end of the chain. */
  ghost function Rest(pages: map<PageId, Node>, chain: seq<PageId>, c: nat, slot: nat): seq<Entry>
    requires c < |chain| && chain[c] in pages && pages[chain[c]].Leaf? && slot <= |pages[chain[c]].entries|
  {
    pages[chain[c]].entries[slot..] + Flatten(pages, chain[c + 1..])
  }

  /** Everything before a position in a leaf lies before it in the contents. */
  lemma ContentsAtPosition(t: Tree, c: nat, slot: nat)
    requires Struct(t) && c < |t.chain|
    ensures t.chain[c] in t.pages && t.pages[t.chain[c]].Leaf?
    ensures slot <= |t.pages[t.chain[c]].entries|
            ==> Contents(t) == Flatten(t.pages, t.chain[..c]) + t.pages[t.chain[c]].entries[..slot] + Rest(t.pages, t.chain, c, slot)
  {
    hide NodesOk, EdgesOk, ParentsOk, RootOk, ChainOk, Flatten;
    LinkAt(t, c);
    FlattenAround(t.pages, t.chain, c);
    var es := t.pages[t.chain[c]].entries;
    var before, after := Flatten(t.pages, t.chain[..c]), Flatten(t.pages, t.chain[c + 1..]);
    if slot <= |es| { assert before + es + after == before + es[..slot] + (es[slot..] + after); }
  }

  /** Where the range starts: the position found by searching for the bound's key in its leaf. */
  ghost predicate StartsAt(es: seq<Entry>, start: Bound, slot: nat) {
    && slot <= |es|
    && (forall i :: 0 <= i < slot ==> !AboveStart(es[i].key, start))
    && (forall i :: slot <= i < |es| ==> AboveStart(es[i].key, start))
  }

  lemma RangeFromPosition(t: Tree, c: nat, slot: nat, start: Bound, end: Bound)
    requires Struct(t) && c < |t.chain| && t.chain[c] in t.pages && t.pages[t.chain[c]].Leaf?
    requires if start.Unbounded? then c == 0 else Covers(t, c, start.key)
    requires StartsAt(t.pages[t.chain[c]].entries, start, slot)
    ensures InBounds(Contents(t), start, end) == InBounds(Rest(t.pages, t.chain, c, slot), Unbounded, end)
  {
    ContentsAtPosition(t, c, slot);
    EntriesAround(t, c);
    var es := t.pages[t.chain[c]].entries;
    var a, b := Flatten(t.pages, t.chain[..c]), Flatten(t.pages, t.chain[c + 1..]);
    forall i | 0 <= i < |a| ensures !AboveStart(a[i].key, start) {
      StartByRank(a[i].key, start);
    }
    forall i | 0 <= i < |b| ensures AboveStart(b[i].key, start) {
      StartByRank(b[i].key, start);
    }
    InBoundsNone(a, start, end);
    InBoundsNone(es[..slot], start, end);
    InBoundsPast(es[slot..], start, end);
    InBoundsPast(b, start, end);
    InBoundsConcat(es[slot..], b, start, end);
    InBoundsConcat(es[slot..], b, Unbounded, end);
    InBoundsConcat(a + es[..slot], Rest(t.pages, t.chain, c, slot), start, end);
    InBoundsConcat(a, es[..slot], start, end);
  }

  /** The leaves of `chain` in pages, linked one to the next. */
  ghost predicate LeafList(pages: map<PageId, Node>, chain: seq<PageId>) {
    && |chain| > 0
    && forall i {:trigger LeafLink(pages, chain, i)} :: 0 <= i < |chain| ==> LeafLink(pages, chain, i)
  }

  ghost predicate LeafLink(pages: map<PageId, Node>, chain: seq<PageId>, i: nat)
    requires i < |chain|
  {
    && chain[i] != 0 && chain[i] in pages && pages[chain[i]].Leaf?
    && pages[chain[i]].prev == (if i == 0 then 0 else chain[i - 1])
    && pages[chain[i]].next == (if i + 1 == |chain| then 0 else chain[i + 1])
  }

  lemma ChainIsLeafList(t: Tree)
    requires Struct(t)
    ensures LeafList(t.pages, t.chain)
  {
    forall i | 0 <= i < |t.chain| ensures LeafLink(t.pages, t.chain, i) {
      assert LinkOk(t, i);
    }
  }

  /** Moving on to the next leaf at the end of one. */
  lemma RestAdvances(pages: map<PageId, Node>, chain: seq<PageId>, c: nat)
    requires LeafList(pages, chain) && c < |chain|
    ensures LeafLink(pages, chain, c)
    ensures c + 1 < |chain| ==> LeafLink(pages, chain, c + 1)
    ensures Rest(pages, chain, c, |pages[chain[c]].entries|)
            == if c + 1 < |chain| then Rest(pages, chain, c + 1, 0) else []
    ensures Flatten(pages, chain[c + 1..]) == if c + 1 < |chain| then Rest(pages, chain, c + 1, 0) else []
  {
    assert LeafLink(pages, chain, c);
    var es := pages[chain[c]].entries;
    assert es[|es|..] == [];
    if c + 1 < |chain| {
      assert LeafLink(pages, chain, c + 1);
      assert chain[c + 1..][0] == chain[c + 1] && chain[c + 1..][1..] == chain[c + 2..];
      assert pages[chain[c + 1]].entries[0..] == pages[chain[c + 1]].entries;
    } else {
      assert chain[c + 1..] == [];
    }
  }

  /** A position on the chain, or past its end, with `all` the entries before it and from it on. */
  ghost predicate At(pages: map<PageId, Node>, chain: seq<PageId>, curr: PageId, c: nat, slot: nat,
                     before: seq<Entry>, all: seq<Entry>) {
    if curr == 0 then all == before
    else
      && c < |chain| && curr == chain[c] && LeafLink(pages, chain, c) && slot <= |pages[curr].entries|
      && all == before + Rest(pages, chain, c, slot)
  }

  /** From a position to the start of the next leaf. */
  lemma NextLeaf(pages: map<PageId, Node>, chain: seq<PageId>, curr: PageId, c: nat, slot: nat,
                 before: seq<Entry>, all: seq<Entry>)
    requires LeafList(pages, chain) && curr != 0 && At(pages, chain, curr, c, slot, before, all)
    ensures At(pages, chain, pages[curr].next, c + 1, 0, before + pages[curr].entries[slot..], all)
    ensures before + pages[curr].entries[slot..] <= all
  {
    hide LeafList, Flatten;
    RestAdvances(pages, chain, c);
    var es := pages[curr].entries[slot..];
    var rest := Flatten(pages, chain[c + 1..]);
    assert before + (es + rest) == before + es + rest;
    assert before + es + [] == before + es;
  }

  lemma AtStart(pages: map<PageId, Node>, chain: seq<PageId>)
    requires LeafList(pages, chain)
    ensures At(pages, chain, chain[0], 0, 0, [], Flatten(pages, chain))
  {
    assert LeafLink(pages, chain, 0);
    FlattenAround(pages, chain, 0);
    assert pages[chain[0]].entries[0..] == pages[chain[0]].entries;
  }

  /** What is left from a position on is sorted. */
  lemma RestSorted(t: Tree, c: nat, slot: nat)
    requires Struct(t) && c < |t.chain| && t.chain[c] in t.pages && t.pages[t.chain[c]].Leaf?
    requires slot <= |t.pages[t.chain[c]].entries|
    ensures SortedIn(Rest(t.pages, t.chain, c, slot), 0.0, 1.0)
  {
    ContentsAtPosition(t, c, slot);
    ContentsSorted(t);
    SuffixSorted(Flatten(t.pages, t.chain[..c]) + t.pages[t.chain[c]].entries[..slot], Rest(t.pages, t.chain, c, slot));
  }

  lemma SuffixSorted(a: seq<Entry>, b: seq<Entry>)
    requires SortedIn(a + b, 0.0, 1.0)
    ensures SortedIn(b, 0.0, 1.0)
  {
    assert forall i :: 0 <= i < |b| ==> b[i] == (a + b)[|a| + i];
  }
}
