/** The size policy survives every change of the tree: splits, merges, borrowing, and a new or dropped root. */
module TreeSized {
  import opened Keys
  import opened TreeModel
  import opened TreeSplit
  import opened TreeMerge
  import opened TreeRoot
  import opened TreeBorrow
  import opened TreePending
  import opened TreeSize
  import opened TreeLeaf

  lemma PutSized(pol: Policy, pages: map<PageId, Node>, l: PageId, found: bool, idx: nat, e: Entry)
    requires Sized(pol, pages) && EntrySized(pol, e) && l in pages && pages[l].Leaf?
    requires if found then idx < |pages[l].entries| else idx <= |pages[l].entries|
    ensures var es := PutEntry(pages[l].entries, found, idx, e);
            (forall i :: 0 <= i < |es| ==> EntrySized(pol, es[i])) && Sized(pol, SetEntries(pages, l, es))
  {
    assert NodeSized(pol, pages[l]);
    var es := PutEntry(pages[l].entries, found, idx, e);
    forall i | 0 <= i < |es| ensures EntrySized(pol, es[i]) {
      assert es[i] == e || (if i < idx || found then es[i] == pages[l].entries[i] else es[i] == pages[l].entries[i - 1]);
    }
    SizedUpdate(pol, pages, l, pages[l].(entries := es));
  }

  lemma RemoveSized(pol: Policy, pages: map<PageId, Node>, l: PageId, idx: nat)
    requires Sized(pol, pages) && l in pages && pages[l].Leaf? && idx < |pages[l].entries|
    ensures Sized(pol, SetEntries(pages, l, RemoveAt(pages[l].entries, idx)))
  {
    assert NodeSized(pol, pages[l]);
    SizedUpdate(pol, pages, l, pages[l].(entries := RemoveAt(pages[l].entries, idx)));
  }

  lemma HalveLeafSized(pol: Policy, pages: map<PageId, Node>, l: PageId, mid: nat, r: PageId)
    requires Sized(pol, pages) && l in pages && pages[l].Leaf? && mid < |pages[l].entries| && r !in pages
    requires pages[l].next != 0 ==> pages[l].next in pages
    ensures KeySized(pol, pages[l].entries[mid].key) && Sized(pol, HalveLeaf(pages, l, mid, r))
  {
    var n := pages[l];
    assert NodeSized(pol, n);
    assert EntrySized(pol, n.entries[mid]);
    var right := Leaf(n.parent, l, n.next, n.entries[mid..]);
    var left := n.(next := r, entries := n.entries[..mid]);
    SizedUpdate(pol, pages, r, right);
    SizedUpdate(pol, pages[r := right], l, left);
    var halves := pages[r := right][l := left];
    if n.next != 0 {
      assert NodeSized(pol, halves[n.next]);
      SizedUpdate(pol, halves, n.next, WithPrev(halves[n.next], r));
    }
  }

  lemma InsertSepSized(pol: Policy, n: Node, i: nat, s: Sep)
    requires n.Internal? && i <= |n.seps| && NodeSized(pol, n) && KeySized(pol, s.key)
    ensures NodeSized(pol, InsertSep(n, i, s))
  {
    var ss := InsertAt(n.seps, i, s);
    forall k | 0 <= k < |ss| ensures KeySized(pol, ss[k].key) {
      assert ss[k] == s || ss[k] == n.seps[if k < i then k else k - 1];
    }
  }

  lemma AttachSized(pol: Policy, t: Tree, p: PageId, i: nat, key: Bytes, r: PageId)
    requires Sized(pol, t.pages) && KeySized(pol, key)
    requires p in t.pages && t.pages[p].Internal? && i <= |t.pages[p].seps|
    ensures Sized(pol, Attach(t, p, i, key, r).pages)
    ensures forall k :: 0 <= k <= |t.pages[p].seps| ==> KeySized(pol, InsertSep(t.pages[p], i, Sep(key, r)).seps[k].key)
  {
    assert NodeSized(pol, t.pages[p]);
    InsertSepSized(pol, t.pages[p], i, Sep(key, r));
    SizedUpdate(pol, t.pages, p, InsertSep(t.pages[p], i, Sep(key, r)));
  }

  lemma AttachRootSized(pol: Policy, t: Tree, l: PageId, key: Bytes, r: PageId, z: PageId)
    requires Sized(pol, t.pages) && KeySized(pol, key)
    requires l in t.pages && r in t.pages && l in t.meta
    ensures Sized(pol, AttachRoot(t, l, key, r, z).pages)
  {
    assert NodeSized(pol, t.pages[l]) && NodeSized(pol, t.pages[r]);
    SizedUpdate(pol, t.pages, l, WithParent(t.pages[l], z));
    var one := t.pages[l := WithParent(t.pages[l], z)];
    SizedUpdate(pol, one, r, WithParent(t.pages[r], z));
    SizedUpdate(pol, one[r := WithParent(t.pages[r], z)], z, Internal(0, l, [Sep(key, r)]));
  }

  lemma HalveInternalSized(pol: Policy, pages: map<PageId, Node>, l: PageId, mid: nat, r: PageId)
    requires Sized(pol, pages) && l in pages && pages[l].Internal? && mid < |pages[l].seps|
    ensures KeySized(pol, pages[l].seps[mid].key) && Sized(pol, HalveInternal(pages, l, mid, r))
  {
    var n := pages[l];
    assert NodeSized(pol, n);
    var right := Internal(n.parent, n.seps[mid].child, n.seps[mid + 1..]);
    var left := n.(seps := n.seps[..mid]);
    SizedUpdate(pol, pages, r, right);
    SizedUpdate(pol, pages[r := right], l, left);
    SizedReparent(pol, pages[r := right][l := left], MovedChildren(n, mid), r);
  }

  // ── Delete ──

  /** A page that a delete left with little in it. */
  predicate Underfull(n: Node, pageSize: nat) {
    UsedBytes(n) < pageSize / 3 || (if n.Leaf? then n.entries == [] else n.seps == [])
  }

  /** All keys have the same length, so that a separator can take the place of another. */
  predicate EqualKeys(pol: Policy, pageSize: nat) {
    PolicyOk(pol, pageSize) && pol.keyMin == pol.keyMax
  }

  lemma LeafTail(es: seq<Entry>, mid: nat)
    requires mid <= |es|
    ensures Sum(Costs(es)) == Sum(Costs(es[..mid])) + Sum(Costs(es[mid..]))
  {
    assert es == es[..mid] + es[mid..];
    CostsConcat(es[..mid], es[mid..]);
  }

  lemma SepTail(ss: seq<Sep>, mid: nat)
    requires mid <= |ss|
    ensures Sum(SepCosts(ss)) == Sum(SepCosts(ss[..mid])) + Sum(SepCosts(ss[mid..]))
  {
    assert ss == ss[..mid] + ss[mid..];
    SepCostsConcat(ss[..mid], ss[mid..]);
  }

  lemma SumOfOne(e: Entry, s: Sep)
    ensures Sum(Costs([e])) == Cost(e) && Sum(SepCosts([s])) == SepCost(s)
  {
    assert Costs([e]) == [Cost(e)] && SepCosts([s]) == [SepCost(s)];
    assert [Cost(e)][1..] == [] && [SepCost(s)][1..] == [];
  }

  /** Dropping a separator frees its bytes. */
  lemma RemoveSepCost(ss: seq<Sep>, i: nat)
    requires i < |ss|
    ensures Sum(SepCosts(RemoveAt(ss, i))) <= Sum(SepCosts(ss))
  {
    SepTail(ss, i);
    SepTail(ss[i..], 1);
    assert ss[i..][1..] == ss[i + 1..];
    SepCostsConcat(ss[..i], ss[i + 1..]);
  }

  lemma RemoveEntryCost(es: seq<Entry>, i: nat)
    requires i < |es|
    ensures Sum(Costs(RemoveAt(es, i))) <= Sum(Costs(es))
  {
    LeafTail(es, i);
    LeafTail(es[i..], 1);
    assert es[i..][1..] == es[i + 1..];
    CostsConcat(es[..i], es[i + 1..]);
  }

  /** An underfull leaf has room for one more entry of the policy. */
  lemma UnderfullTakesEntry(pol: Policy, pageSize: nat, n: Node, e: Entry)
    requires PolicyOk(pol, pageSize) && n.Leaf? && Underfull(n, pageSize) && EntrySized(pol, e)
    ensures UsedBytes(n) + Cost(e) <= pageSize
  {
    RoomForOne(pol.entryMin, pol.entryMax, LEAF_HEADER_LEN, pageSize);
    hide RoomFor;
    if n.entries == [] { assert Costs(n.entries) == []; }
  }

  /** An underfull internal page has room for one more separator of the policy. */
  lemma UnderfullTakesSep(pol: Policy, pageSize: nat, n: Node, s: Sep)
    requires PolicyOk(pol, pageSize) && n.Internal? && Underfull(n, pageSize) && KeySized(pol, s.key)
    ensures UsedBytes(n) + SepCost(s) <= pageSize
  {
    RoomForOne(INTERNAL_SLOT_LEN + pol.keyMin, INTERNAL_SLOT_LEN + pol.keyMax, INTERNAL_HEADER_LEN, pageSize);
    hide RoomFor;
    if n.seps == [] { assert SepCosts(n.seps) == []; }
  }

  /** A separator of the same length costs the same. */
  lemma ReplaceSepCost(ss: seq<Sep>, i: nat, s: Sep)
    requires i < |ss| && |ss[i].key| == |s.key|
    ensures Sum(SepCosts(ss[i := s])) == Sum(SepCosts(ss))
  {
    assert SepCosts(ss[i := s]) == SepCosts(ss);
  }

  lemma BorrowLeafSized(pol: Policy, pages: map<PageId, Node>, s: Site, mid: nat)
    requires Sized(pol, pages)
    requires s.p in pages && pages[s.p].Internal? && s.i < |pages[s.p].seps|
    requires s.l in pages && pages[s.l].Leaf? && s.r in pages && pages[s.r].Leaf?
    requires mid < |pages[s.l].entries + pages[s.r].entries|
    ensures Sized(pol, BorrowLeafPages(pages, s, mid))
  {
    var all := pages[s.l].entries + pages[s.r].entries;
    assert NodeSized(pol, pages[s.l]) && NodeSized(pol, pages[s.r]) && NodeSized(pol, pages[s.p]);
    assert forall k :: 0 <= k < |all| ==> EntrySized(pol, all[k]);
    var l, r := pages[s.l].(entries := all[..mid]), pages[s.r].(entries := all[mid..]);
    var p := pages[s.p].(seps := pages[s.p].seps[s.i := Sep(all[mid].key, s.r)]);
    SizedUpdate(pol, pages, s.l, l);
    SizedUpdate(pol, pages[s.l := l], s.r, r);
    SizedUpdate(pol, pages[s.l := l][s.r := r], s.p, p);
  }

  lemma MergeLeafSized(pol: Policy, pages: map<PageId, Node>, s: Site)
    requires Sized(pol, pages)
    requires s.p in pages && pages[s.p].Internal? && s.i < |pages[s.p].seps|
    requires s.l in pages && pages[s.l].Leaf? && s.r in pages && pages[s.r].Leaf?
    requires pages[s.r].next != 0 ==> pages[s.r].next in pages
    ensures Sized(pol, MergeLeafPages(pages, s))
  {
    var next := pages[s.r].next;
    assert NodeSized(pol, pages[s.l]) && NodeSized(pol, pages[s.r]) && NodeSized(pol, pages[s.p]);
    var l := pages[s.l].(next := next, entries := pages[s.l].entries + pages[s.r].entries);
    SizedUpdate(pol, pages, s.l, l);
    var merged := pages[s.l := l];
    if next != 0 {
      assert NodeSized(pol, merged[next]);
      SizedUpdate(pol, merged, next, WithPrev(merged[next], s.l));
    }
    var linked := if next != 0 then merged[next := WithPrev(merged[next], s.l)] else merged;
    SizedWithout(pol, linked, s.r);
    SizedUpdate(pol, linked - {s.r}, s.p, RemoveSep(pages[s.p], s.i));
  }

  lemma MergeInternalSized(pol: Policy, pages: map<PageId, Node>, s: Site)
    requires Sized(pol, pages) && KeySized(pol, s.key)
    requires s.p in pages && pages[s.p].Internal? && s.i < |pages[s.p].seps|
    requires s.l in pages && pages[s.l].Internal? && s.r in pages && pages[s.r].Internal?
    ensures Sized(pol, MergeInternalPages(pages, s))
  {
    var n, r := pages[s.l], pages[s.r];
    assert NodeSized(pol, n) && NodeSized(pol, r) && NodeSized(pol, pages[s.p]);
    var m := n.(seps := n.seps + [Sep(s.key, r.first)] + r.seps);
    SizedUpdate(pol, pages, s.l, m);
    SizedReparent(pol, pages[s.l := m], AllChildren(r), s.l);
    SizedWithout(pol, Reparent(pages[s.l := m], AllChildren(r), s.l), s.r);
    SizedUpdate(pol, Reparent(pages[s.l := m], AllChildren(r), s.l) - {s.r}, s.p, RemoveSep(pages[s.p], s.i));
  }

  lemma BorrowInternalSized(pol: Policy, pages: map<PageId, Node>, s: Site, mid: nat)
    requires Sized(pol, pages) && KeySized(pol, s.key)
    requires s.p in pages && pages[s.p].Internal? && s.i < |pages[s.p].seps|
    requires s.l in pages && pages[s.l].Internal? && s.r in pages && pages[s.r].Internal?
    requires mid < |Joined(pages, s)|
    ensures Sized(pol, BorrowInternalPages(pages, s, mid))
  {
    var all := Joined(pages, s);
    assert NodeSized(pol, pages[s.l]) && NodeSized(pol, pages[s.r]) && NodeSized(pol, pages[s.p]);
    assert forall k :: 0 <= k < |all| ==> KeySized(pol, all[k].key);
    var l, r := pages[s.l].(seps := all[..mid]), Internal(s.p, all[mid].child, all[mid + 1..]);
    var p := pages[s.p].(seps := pages[s.p].seps[s.i := Sep(all[mid].key, s.r)]);
    SizedUpdate(pol, pages, s.l, l);
    SizedUpdate(pol, pages[s.l := l], s.r, r);
    var kept := Rotated(pages, s, mid);
    SizedUpdate(pol, pages[s.l := l][s.r := r], s.p, p);
    SizedReparent(pol, kept, AllChildren(pages[s.r]), s.l);
    SizedReparent(pol, Reparent(kept, AllChildren(pages[s.r]), s.l), MovedChildren(pages[s.l].(seps := all), mid), s.r);
  }

  lemma ShrinkSized(pol: Policy, pages: map<PageId, Node>, root: PageId)
    requires Sized(pol, pages) && root in pages && pages[root].Internal? && pages[root].first in pages
    ensures Sized(pol, ShrinkPages(pages, root))
  {
    var c := pages[root].first;
    assert NodeSized(pol, pages[c]);
    SizedUpdate(pol, pages, c, WithParent(pages[c], 0));
    SizedWithout(pol, pages[c := WithParent(pages[c], 0)], root);
  }
}
