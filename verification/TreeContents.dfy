/** The entries along the leaf chain, in key order. */
module TreeContents {
  import opened Keys
  import opened TreeModel
  import opened TreeSplit
  import opened TreeMerge
  import opened TreeRoot
  import opened TreeBorrow

  // ── Sorted entries as a finite map ──

  function ToMap(es: seq<Entry>): map<Bytes, Bytes> {
    if es == [] then map[] else ToMap(es[..|es| - 1])[es[|es| - 1].key := es[|es| - 1].value]
  }

  lemma {:induction false} ToMapConcat(a: seq<Entry>, b: seq<Entry>)
    ensures ToMap(a + b) == ToMap(a) + ToMap(b)
  {
    if b == [] {
      assert a + b == a;
    } else {
      assert (a + b)[..|a + b| - 1] == a + b[..|b| - 1];
      ToMapConcat(a, b[..|b| - 1]);
    }
  }

  lemma {:induction false} ToMapKeys(es: seq<Entry>, k: Bytes)
    ensures k in ToMap(es) <==> exists i :: 0 <= i < |es| && es[i].key == k
  {
    if es != [] {
      var init := es[..|es| - 1];
      ToMapKeys(init, k);
      if es[|es| - 1].key == k {
        assert k in ToMap(es);
      } else if k in ToMap(es) {
        var i :| 0 <= i < |init| && init[i].key == k;
        assert es[i].key == k;
      } else {
        forall i | 0 <= i < |es| ensures es[i].key != k {
          if i < |init| { assert init[i].key != k; }
        }
      }
    }
  }

  lemma {:induction false} ToMapAt(es: seq<Entry>, i: nat)
    requires i < |es|
    requires forall a, b :: 0 <= a < b < |es| ==> Rank(es[a].key) < Rank(es[b].key)
    ensures es[i].key in ToMap(es) && ToMap(es)[es[i].key] == es[i].value
  {
    if i < |es| - 1 {
      ToMapAt(es[..|es| - 1], i);
      assert es[..|es| - 1][i] == es[i];
      assert es[i].key != es[|es| - 1].key;
    }
  }

  /** A map has as many keys as its sorted entries. */
  lemma {:induction false} ToMapSize(es: seq<Entry>)
    requires forall a, b :: 0 <= a < b < |es| ==> Rank(es[a].key) < Rank(es[b].key)
    ensures |ToMap(es)| == |es|
  {
    if es != [] {
      var init := es[..|es| - 1];
      ToMapSize(init);
      ToMapKeys(init, es[|es| - 1].key);
      assert forall i :: 0 <= i < |init| ==> init[i].key != es[|es| - 1].key;
    }
  }

  // ── Flatten ──

  lemma {:induction false} FlattenConcat(pages: map<PageId, Node>, a: seq<PageId>, b: seq<PageId>)
    ensures Flatten(pages, a + b) == Flatten(pages, a) + Flatten(pages, b)
  {
    if a == [] {
      assert a + b == b;
    } else {
      assert (a + b)[1..] == a[1..] + b;
      FlattenConcat(pages, a[1..], b);
    }
  }

  ghost predicate SameEntries(pages: map<PageId, Node>, pages': map<PageId, Node>, id: PageId) {
    EntriesOf(pages, id) == EntriesOf(pages', id)
  }

  function EntriesOf(pages: map<PageId, Node>, id: PageId): seq<Entry> {
    if id in pages && pages[id].Leaf? then pages[id].entries else []
  }

  lemma {:induction false} FlattenFrame(pages: map<PageId, Node>, pages': map<PageId, Node>, chain: seq<PageId>)
    requires forall id :: id in chain ==> SameEntries(pages, pages', id)
    ensures Flatten(pages, chain) == Flatten(pages', chain)
  {
    if chain != [] {
      assert SameEntries(pages, pages', chain[0]);
      FlattenFrame(pages, pages', chain[1..]);
    }
  }

  lemma FlattenAround(pages: map<PageId, Node>, chain: seq<PageId>, c: nat)
    requires c < |chain|
    ensures Flatten(pages, chain)
            == Flatten(pages, chain[..c]) + EntriesOf(pages, chain[c]) + Flatten(pages, chain[c + 1..])
  {
    assert chain == chain[..c] + chain[c..];
    FlattenConcat(pages, chain[..c], chain[c..]);
    assert chain[c..][1..] == chain[c + 1..];
  }

  /** Sorted entries followed by sorted entries of larger keys. */
  lemma JoinSorted(a: seq<Entry>, b: seq<Entry>, lo: real, m: real, hi: real)
    requires SortedIn(a, lo, m) && SortedIn(b, m, hi) && lo <= m <= hi
    ensures SortedIn(a + b, lo, hi)
  {
  }

  lemma LeafSorted(t: Tree, k: nat)
    requires Domains(t) && NodesOk(t) && ChainOk(t) && k < |t.chain|
    ensures t.chain[k] in t.pages && t.pages[t.chain[k]].Leaf?
    ensures var m := t.meta[t.chain[k]]; m.lo < m.hi && SortedIn(t.pages[t.chain[k]].entries, m.lo, m.hi)
    ensures k > 0 ==> t.chain[k - 1] in t.pages && t.meta[t.chain[k - 1]].hi == t.meta[t.chain[k]].lo
  {
    assert LinkOk(t, k) && NodeOk(t.pages[t.chain[k]], t.meta[t.chain[k]]);
  }

  /** A stretch of the chain holds sorted keys, within the bounds of its end leaves. */
  lemma {:induction false} FlattenSorted(t: Tree, a: nat, b: nat)
    requires Domains(t) && NodesOk(t) && ChainOk(t)
    requires a < b <= |t.chain|
    ensures SortedIn(Flatten(t.pages, t.chain[a..b]), t.meta[t.chain[a]].lo, t.meta[t.chain[b - 1]].hi)
    decreases b - a
  {
    hide NodesOk, ChainOk, SortedIn;
    var s := t.chain[a..b];
    LeafSorted(t, a);
    LeafSorted(t, b - 1);
    assert s[1..] == t.chain[a + 1..b];
    var m := t.meta[t.chain[a]];
    var es, rest := t.pages[t.chain[a]].entries, Flatten(t.pages, s[1..]);
    if a + 1 < b {
      FlattenSorted(t, a + 1, b);
      LeafSorted(t, a + 1);
      if a + 1 < b - 1 { ChainRises(t, a + 1, b - 1); }
      JoinSorted(es, rest, m.lo, m.hi, t.meta[t.chain[b - 1]].hi);
    } else {
      assert es + rest == es;
    }
  }

  /** All contents are strictly sorted by key. */
  lemma ContentsSorted(t: Tree)
    requires Struct(t)
    ensures SortedIn(Contents(t), 0.0, 1.0)
  {
    assert t.chain[0..|t.chain|] == t.chain;
    FlattenSorted(t, 0, |t.chain|);
    assert LinkOk(t, 0) && LinkOk(t, |t.chain| - 1);
  }

  /** A leaf at another place of the chain is another leaf. */
  lemma ElsewhereOnChain(t: Tree, c: nat, id: PageId)
    requires Struct(t) && c < |t.chain|
    requires id in t.chain[..c] || id in t.chain[c + 1..]
    ensures id in t.pages && t.pages[id].Leaf? && id != t.chain[c]
  {
    var i :| 0 <= i < |t.chain| && i != c && t.chain[i] == id;
    ChainPlace(t, i, c);
    assert LinkOk(t, i);
  }

  /** Replacing a run of leaves by another with the same entries. */
  lemma FlattenReplace(pages: map<PageId, Node>, pages': map<PageId, Node>,
                       before: seq<PageId>, run: seq<PageId>, run': seq<PageId>, after: seq<PageId>)
    requires forall id :: id in before || id in after ==> SameEntries(pages, pages', id)
    requires Flatten(pages, run) == Flatten(pages', run')
    ensures Flatten(pages, before + run + after) == Flatten(pages', before + run' + after)
  {
    FlattenFrame(pages, pages', before);
    FlattenFrame(pages, pages', after);
    FlattenConcat(pages, before + run, after);
    FlattenConcat(pages, before, run);
    FlattenConcat(pages', before + run', after);
    FlattenConcat(pages', before, run');
  }

  lemma FlattenOne(pages: map<PageId, Node>, id: PageId)
    ensures Flatten(pages, [id]) == EntriesOf(pages, id)
  {
    assert [id][1..] == [];
  }

  lemma FlattenTwo(pages: map<PageId, Node>, a: PageId, b: PageId)
    ensures Flatten(pages, [a, b]) == EntriesOf(pages, a) + EntriesOf(pages, b)
  {
    assert [a, b] == [a] + [b];
    FlattenConcat(pages, [a], [b]);
    FlattenOne(pages, a);
    FlattenOne(pages, b);
  }

  // ── Rebalancing leaves the contents alone ──

  /** One leaf l of `chain` against the two leaves l, r in its place. */
  lemma OneForTwo(pages: map<PageId, Node>, pages': map<PageId, Node>, chain: seq<PageId>, c: nat, l: PageId, r: PageId)
    requires c < |chain| && chain[c] == l
    requires EntriesOf(pages, l) == EntriesOf(pages', l) + EntriesOf(pages', r)
    requires forall id :: id in chain[..c] || id in chain[c + 1..] ==> SameEntries(pages, pages', id)
    ensures Flatten(pages, chain) == Flatten(pages', InsertAt(chain, c + 1, r))
  {
    var before, after := chain[..c], chain[c + 1..];
    FlattenOne(pages, l);
    FlattenTwo(pages', l, r);
    FlattenReplace(pages, pages', before, [l], [l, r], after);
    assert chain == before + [l] + after;
    assert InsertAt(chain, c + 1, r) == before + [l, r] + after;
  }

  lemma SplitLeafKeepsContents(t: Tree, s: Site, mid: nat, c: nat)
    requires CanSplitLeaf(t, s, mid, c)
    ensures Contents(SplitLeaf(t, s, mid, c)) == Contents(t)
  {
    var t' := SplitLeaf(t, s, mid, c);
    assert EntriesOf(t.pages, s.l) == EntriesOf(t'.pages, s.l) + EntriesOf(t'.pages, s.r) by {
      SplitLeafSite(t, s, mid, c);
      SplitLeafHalves(t, s, mid, c);
      assert t.pages[s.l].entries == t.pages[s.l].entries[..mid] + t.pages[s.l].entries[mid..];
    }
    forall id | id in t.chain[..c] || id in t.chain[c + 1..] ensures SameEntries(t.pages, t'.pages, id) {
      ElsewhereOnChain(t, c, id);
      SplitLeafSite(t, s, mid, c);
      SplitLeafShape(t, s, mid, c);
    }
    OneForTwo(t.pages, t'.pages, t.chain, c, s.l, s.r);
  }

  lemma OneTakenOut(chain: seq<PageId>, c: nat)
    requires c + 1 < |chain|
    ensures var chain' := RemoveAt(chain, c + 1);
            && c < |chain'| && chain'[c] == chain[c]
            && InsertAt(chain', c + 1, chain[c + 1]) == chain
            && chain'[..c] == chain[..c] && chain'[c + 1..] == chain[c + 1..][1..]
  {
  }

  lemma MergeLeafKeepsContents(t: Tree, s: Site, c: nat)
    requires CanMergeLeaf(t, s, c)
    ensures Contents(MergeLeaf(t, s, c)) == Contents(t)
  {
    hide NodesOk, EdgesOk, ParentsOk, RootOk, ChainOk, Flatten;
    var t' := MergeLeaf(t, s, c);
    OneTakenOut(t.chain, c);
    assert EntriesOf(t'.pages, s.l) == EntriesOf(t.pages, s.l) + EntriesOf(t.pages, s.r) by {
      MergeLeafShape(t, s, c);
    }
    forall id | id in t'.chain[..c] || id in t'.chain[c + 1..] ensures SameEntries(t'.pages, t.pages, id) {
      ElsewhereOnChain(t, c, id);
      ElsewhereOnChain(t, c + 1, id);
      PairFacts(t, s);
      MergeLeafShape(t, s, c);
    }
    OneForTwo(t'.pages, t.pages, t'.chain, c, s.l, s.r);
  }

  lemma BorrowLeafKeepsContents(t: Tree, s: Site, c: nat, mid: nat)
    requires CanBorrowLeaf(t, s, c, mid)
    ensures Contents(BorrowLeaf(t, s, c, mid)) == Contents(t)
  {
    MergeLeafKeepsContents(t, s, c);
    BorrowLeafIsMergeSplit(t, s, c, mid);
    SplitLeafKeepsContents(MergeLeaf(t, s, c), s.(key := (t.pages[s.l].entries + t.pages[s.r].entries)[mid].key), mid, c);
  }

  /** Contents depend on the entries of the leaves only. */
  lemma SameLeavesSameContents(pages: map<PageId, Node>, pages': map<PageId, Node>, chain: seq<PageId>)
    requires forall id :: id in chain ==> SameEntries(pages, pages', id)
    ensures Flatten(pages, chain) == Flatten(pages', chain)
  {
    FlattenFrame(pages, pages', chain);
  }

  lemma MergeInternalKeepsContents(t: Tree, s: Site)
    requires CanMergeInternal(t, s)
    ensures Contents(MergeInternal(t, s)) == Contents(t)
  {
    PairFacts(t, s);
    SameLeavesSameContents(t.pages, MergeInternal(t, s).pages, t.chain);
  }

  lemma BorrowInternalKeepsContents(t: Tree, s: Site, mid: nat)
    requires CanBorrowInternal(t, s, mid)
    ensures Contents(BorrowInternal(t, s, mid)) == Contents(t)
  {
    PairFacts(t, s);
    SameLeavesSameContents(t.pages, BorrowInternal(t, s, mid).pages, t.chain);
  }

  lemma ShrinkKeepsContents(t: Tree)
    requires CanShrink(t) && t.pages[t.root].first in t.pages
    ensures Contents(Shrink(t)) == Contents(t)
  {
    SameLeavesSameContents(t.pages, Shrink(t).pages, t.chain);
  }

  // ── One leaf changes ──

  ghost predicate AllBelow(es: seq<Entry>, bound: real) {
    forall i :: 0 <= i < |es| ==> Rank(es[i].key) < bound
  }

  ghost predicate AllFrom(bound: real, es: seq<Entry>) {
    forall i :: 0 <= i < |es| ==> bound <= Rank(es[i].key)
  }

  /** The entries before and after the leaf at place c lie below and above its range. */
  lemma EntriesAround(t: Tree, c: nat)
    requires Struct(t) && c < |t.chain|
    ensures t.chain[c] in t.pages
    ensures AllBelow(Flatten(t.pages, t.chain[..c]), t.meta[t.chain[c]].lo)
    ensures AllFrom(t.meta[t.chain[c]].hi, Flatten(t.pages, t.chain[c + 1..]))
  {
    if c > 0 {
      assert t.chain[0..c] == t.chain[..c];
      FlattenSorted(t, 0, c);
      ChainRises(t, c - 1, c);
    }
    if c + 1 < |t.chain| {
      assert t.chain[c + 1..|t.chain|] == t.chain[c + 1..];
      FlattenSorted(t, c + 1, |t.chain|);
      ChainRises(t, c, c + 1);
    }
  }

  /** Changing the leaf at place c changes the contents there and nowhere else. */
  lemma SetEntriesContents(t: Tree, c: nat, es: seq<Entry>)
    requires Struct(t) && c < |t.chain|
    ensures t.chain[c] in t.pages && t.pages[t.chain[c]].Leaf?
    ensures var a, b := Flatten(t.pages, t.chain[..c]), Flatten(t.pages, t.chain[c + 1..]);
            && Contents(t) == a + t.pages[t.chain[c]].entries + b
            && Flatten(SetEntries(t.pages, t.chain[c], es), t.chain) == a + es + b
  {
    assert LinkOk(t, c);
    var l := t.chain[c];
    var pages' := SetEntries(t.pages, l, es);
    FlattenAround(t.pages, t.chain, c);
    FlattenAround(pages', t.chain, c);
    forall id | id in t.chain[..c] || id in t.chain[c + 1..] ensures SameEntries(t.pages, pages', id) {
      ElsewhereOnChain(t, c, id);
    }
    FlattenFrame(t.pages, pages', t.chain[..c]);
    FlattenFrame(t.pages, pages', t.chain[c + 1..]);
  }
}
