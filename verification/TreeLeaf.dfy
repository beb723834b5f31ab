/** The leaf whose range covers a key decides what the whole tree holds for it, before and after a change. */
module TreeLeaf {
  import opened Keys
  import opened TreeModel
  import opened TreeSplit
  import opened TreeMerge
  import opened TreeRoot
  import opened TreeContents
  import opened TreeSize

  /** Where a key is in a sorted leaf, or where it would go. */
  ghost predicate IsPlace(es: seq<Entry>, key: Bytes, found: bool, idx: nat) {
    && idx <= |es|
    && (found ==> idx < |es| && es[idx].key == key)
    && (forall i :: 0 <= i < idx ==> Rank(es[i].key) < Rank(key))
    && (forall i :: idx <= i < |es| ==> Rank(key) < Rank(es[i].key) || (found && i == idx))
  }

  function PutEntry(es: seq<Entry>, found: bool, idx: nat, e: Entry): seq<Entry>
    requires if found then idx < |es| else idx <= |es|
  {
    if found then es[idx := e] else InsertAt(es, idx, e)
  }

  lemma PutSorted(es: seq<Entry>, lo: real, hi: real, found: bool, idx: nat, e: Entry)
    requires SortedIn(es, lo, hi) && IsPlace(es, e.key, found, idx) && lo <= Rank(e.key) < hi
    ensures SortedIn(PutEntry(es, found, idx, e), lo, hi)
  {
  }

  lemma RemoveSorted(es: seq<Entry>, lo: real, hi: real, idx: nat)
    requires SortedIn(es, lo, hi) && idx < |es|
    ensures SortedIn(RemoveAt(es, idx), lo, hi)
  {
  }

  /** Entries that avoid a range hold no key of the range. */
  lemma NoKeyOutside(es: seq<Entry>, key: Bytes)
    requires forall i :: 0 <= i < |es| ==> es[i].key != key
    ensures key !in ToMap(es)
  {
    ToMapKeys(es, key);
  }

  lemma ToMapOne(e: Entry)
    ensures ToMap([e]) == map[e.key := e.value]
  {
    assert [e][..0] == [];
  }

  lemma ToMapAround(a: seq<Entry>, es: seq<Entry>, b: seq<Entry>)
    ensures ToMap(a + es + b) == ToMap(a) + ToMap(es) + ToMap(b)
  {
    ToMapConcat(a + es, b);
    ToMapConcat(a, es);
  }

  /** A sequence cut around entry idx. */
  lemma ToMapCut(es: seq<Entry>, idx: nat)
    requires idx < |es|
    ensures ToMap(es) == ToMap(es[..idx]) + map[es[idx].key := es[idx].value] + ToMap(es[idx + 1..])
  {
    assert es == es[..idx] + [es[idx]] + es[idx + 1..];
    ToMapConcat(es[..idx] + [es[idx]], es[idx + 1..]);
    ToMapConcat(es[..idx], [es[idx]]);
    ToMapOne(es[idx]);
  }

  lemma PlaceDecides(es: seq<Entry>, key: Bytes, found: bool, idx: nat)
    requires IsPlace(es, key, found, idx)
    ensures key in ToMap(es) <==> found
    ensures found ==> ToMap(es)[key] == es[idx].value
    ensures key !in ToMap(es[..idx]) && key !in ToMap(if found then es[idx + 1..] else es[idx..])
  {
    NoKeyOutside(es[..idx], key);
    NoKeyOutside(if found then es[idx + 1..] else es[idx..], key);
    if found { ToMapCut(es, idx); } else {
      assert es == es[..idx] + es[idx..];
      ToMapConcat(es[..idx], es[idx..]);
    }
  }

  lemma PutMap(es: seq<Entry>, found: bool, idx: nat, e: Entry)
    requires IsPlace(es, e.key, found, idx)
    ensures ToMap(PutEntry(es, found, idx, e)) == ToMap(es)[e.key := e.value]
  {
    PlaceDecides(es, e.key, found, idx);
    if found { ReplaceMap(es, idx, e); } else { InsertMap(es, idx, e); }
  }

  lemma ReplaceMap(es: seq<Entry>, idx: nat, e: Entry)
    requires idx < |es| && es[idx].key == e.key && e.key !in ToMap(es[idx + 1..])
    ensures ToMap(es[idx := e]) == ToMap(es)[e.key := e.value]
  {
    var es' := es[idx := e];
    ToMapCut(es', idx);
    ToMapCut(es, idx);
    assert es'[..idx] == es[..idx] && es'[idx + 1..] == es[idx + 1..];
    var m1, m2 := ToMap(es[..idx]), ToMap(es[idx + 1..]);
    MergeAround(m1, m2, e.key, e.value);
    MergeAround(m1, m2, e.key, es[idx].value);
  }

  lemma MergeAround(m1: map<Bytes, Bytes>, m2: map<Bytes, Bytes>, key: Bytes, value: Bytes)
    requires key !in m2
    ensures m1 + map[key := value] + m2 == (m1 + m2)[key := value]
  {
  }

  lemma InsertMap(es: seq<Entry>, idx: nat, e: Entry)
    requires idx <= |es| && e.key !in ToMap(es[idx..])
    ensures ToMap(InsertAt(es, idx, e)) == ToMap(es)[e.key := e.value]
  {
    ToMapAround(es[..idx], [e], es[idx..]);
    ToMapOne(e);
    assert es == es[..idx] + es[idx..];
    ToMapConcat(es[..idx], es[idx..]);
    MergeAround(ToMap(es[..idx]), ToMap(es[idx..]), e.key, e.value);
  }

  lemma RemoveMap(es: seq<Entry>, key: Bytes, idx: nat)
    requires IsPlace(es, key, true, idx)
    ensures ToMap(RemoveAt(es, idx)) == ToMap(es) - {key}
  {
    PlaceDecides(es, key, true, idx);
    ToMapCut(es, idx);
    ToMapConcat(es[..idx], es[idx + 1..]);
  }

  // ── From the leaf to the tree ──

  ghost predicate Covers(t: Tree, c: nat, key: Bytes)
    requires Domains(t)
  {
    && c < |t.chain|
    && t.chain[c] in t.pages
    && t.pages[t.chain[c]].Leaf?
    && t.meta[t.chain[c]].lo <= Rank(key) < t.meta[t.chain[c]].hi
  }

  lemma AroundHasNot(t: Tree, c: nat, key: Bytes)
    requires Struct(t) && Covers(t, c, key)
    ensures key !in ToMap(Flatten(t.pages, t.chain[..c]))
    ensures key !in ToMap(Flatten(t.pages, t.chain[c + 1..]))
  {
    EntriesAround(t, c);
    var a, b := Flatten(t.pages, t.chain[..c]), Flatten(t.pages, t.chain[c + 1..]);
    NoKeyOutside(a, key);
    NoKeyOutside(b, key);
  }

  /** The covering leaf decides what the tree holds for the key. */
  lemma LeafDecides(t: Tree, c: nat, key: Bytes)
    requires Struct(t) && Covers(t, c, key)
    ensures var es := t.pages[t.chain[c]].entries;
            && (key in ToMap(Contents(t)) <==> key in ToMap(es))
            && (key in ToMap(es) ==> ToMap(Contents(t))[key] == ToMap(es)[key])
  {
    AroundHasNot(t, c, key);
    FlattenAround(t.pages, t.chain, c);
    ToMapAround(Flatten(t.pages, t.chain[..c]), t.pages[t.chain[c]].entries, Flatten(t.pages, t.chain[c + 1..]));
  }

  lemma PutBetween(a: seq<Entry>, es: seq<Entry>, es': seq<Entry>, b: seq<Entry>, e: Entry)
    requires e.key !in ToMap(b) && ToMap(es') == ToMap(es)[e.key := e.value]
    ensures ToMap(a + es' + b) == ToMap(a + es + b)[e.key := e.value]
  {
    hide ToMap;
    ToMapAround(a, es, b);
    ToMapAround(a, es', b);
  }

  lemma RemoveBetween(a: seq<Entry>, es: seq<Entry>, es': seq<Entry>, b: seq<Entry>, key: Bytes)
    requires key !in ToMap(a) && key !in ToMap(b) && ToMap(es') == ToMap(es) - {key}
    ensures ToMap(a + es' + b) == ToMap(a + es + b) - {key}
  {
    ToMapAround(a, es, b);
    ToMapAround(a, es', b);
  }

  lemma PutInLeaf(t: Tree, c: nat, found: bool, idx: nat, e: Entry)
    requires Struct(t) && Covers(t, c, e.key)
    requires IsPlace(t.pages[t.chain[c]].entries, e.key, found, idx)
    ensures var t' := t.(pages := SetEntries(t.pages, t.chain[c], PutEntry(t.pages[t.chain[c]].entries, found, idx, e)));
            Struct(t') && ToMap(Contents(t')) == ToMap(Contents(t))[e.key := e.value]
  {
    var l := t.chain[c];
    var es := t.pages[l].entries;
    var es' := PutEntry(es, found, idx, e);
    assert NodeOk(t.pages[l], t.meta[l]);
    PutSorted(es, t.meta[l].lo, t.meta[l].hi, found, idx, e);
    SetEntriesKeepsStruct(t, l, es');
    SetEntriesContents(t, c, es');
    AroundHasNot(t, c, e.key);
    var a, b := Flatten(t.pages, t.chain[..c]), Flatten(t.pages, t.chain[c + 1..]);
    PutMap(es, found, idx, e);
    PutBetween(a, es, es', b, e);
  }

  lemma RemoveInLeaf(t: Tree, c: nat, idx: nat, key: Bytes)
    requires Struct(t) && Covers(t, c, key)
    requires IsPlace(t.pages[t.chain[c]].entries, key, true, idx)
    ensures var t' := t.(pages := SetEntries(t.pages, t.chain[c], RemoveAt(t.pages[t.chain[c]].entries, idx)));
            Struct(t') && ToMap(Contents(t')) == ToMap(Contents(t)) - {key}
  {
    var l := t.chain[c];
    var es := t.pages[l].entries;
    var es' := RemoveAt(es, idx);
    assert NodeOk(t.pages[l], t.meta[l]);
    RemoveSorted(es, t.meta[l].lo, t.meta[l].hi, idx);
    SetEntriesKeepsStruct(t, l, es');
    SetEntriesContents(t, c, es');
    AroundHasNot(t, c, key);
    var a, b := Flatten(t.pages, t.chain[..c]), Flatten(t.pages, t.chain[c + 1..]);
    RemoveMap(es, key, idx);
    RemoveBetween(a, es, es', b, key);
  }

  // ── Sizes ──

  /** The entries other than the new one were in the leaf before. */
  lemma PutCost(es: seq<Entry>, found: bool, idx: nat, e: Entry)
    requires if found then idx < |es| else idx <= |es|
    ensures var es' := PutEntry(es, found, idx, e);
            idx < |es'| && es'[idx] == e && Sum(Costs(es')) - Cost(e) <= Sum(Costs(es))
  {
    var es' := PutEntry(es, found, idx, e);
    var rest := if found then es[idx + 1..] else es[idx..];
    assert es' == es[..idx] + [e] + rest;
    OneCost(es[..idx], e, rest);
    if found {
      assert es == es[..idx] + [es[idx]] + rest;
      OneCost(es[..idx], es[idx], rest);
    } else {
      assert es == es[..idx] + rest;
      CostsConcat(es[..idx], rest);
    }
  }

  lemma OneCost(a: seq<Entry>, e: Entry, b: seq<Entry>)
    ensures Sum(Costs(a + [e] + b)) == Sum(Costs(a)) + Cost(e) + Sum(Costs(b))
  {
    CostsConcat(a + [e], b);
    CostsConcat(a, [e]);
    assert Costs([e]) == [Cost(e)];
    assert [Cost(e)][1..] == [];
  }

  /** A separator more costs its slot and its key. */
  lemma InsertSepCost(ss: seq<Sep>, i: nat, s: Sep)
    requires i <= |ss|
    ensures Sum(SepCosts(InsertAt(ss, i, s))) == Sum(SepCosts(ss)) + SepCost(s)
  {
    assert ss == ss[..i] + ss[i..];
    SepCostsConcat(ss[..i], ss[i..]);
    SepCostsConcat(ss[..i] + [s], ss[i..]);
    SepCostsConcat(ss[..i], [s]);
    assert SepCosts([s]) == [SepCost(s)];
    assert [SepCost(s)][1..] == [];
  }
}
