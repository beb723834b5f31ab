/** The least and the greatest key of a tree, and the leaves at its edges. */
module TreeEdges {
  import opened Wrappers
  import opened Keys
  import opened TreeModel
  import opened TreeContents

  ghost predicate IsLeast(m: map<Bytes, Bytes>, e: Option<Entry>) {
    match e
    case None => m == map[]
    case Some(e) => e.key in m && m[e.key] == e.value && forall k :: k in m ==> k == e.key || LexBefore(e.key, k)
  }

  ghost predicate IsGreatest(m: map<Bytes, Bytes>, e: Option<Entry>) {
    match e
    case None => m == map[]
    case Some(e) => e.key in m && m[e.key] == e.value && forall k :: k in m ==> k == e.key || LexBefore(k, e.key)
  }

  ghost predicate LeastKey(k: Option<Bytes>, m: map<Bytes, Bytes>) {
    match k
    case None => m == map[]
    case Some(k) => k in m && forall other :: other in m ==> other == k || LexBefore(k, other)
  }

  ghost predicate GreatestKey(k: Option<Bytes>, m: map<Bytes, Bytes>) {
    match k
    case None => m == map[]
    case Some(k) => k in m && forall other :: other in m ==> other == k || LexBefore(other, k)
  }

  function FirstOf(es: seq<Entry>): Option<Entry> {
    if es == [] then None else Some(es[0])
  }

  function LastOf(es: seq<Entry>): Option<Entry> {
    if es == [] then None else Some(es[|es| - 1])
  }

  /** Of sorted entries. */
  lemma EdgesOfEntries(es: seq<Entry>)
    requires SortedIn(es, 0.0, 1.0)
    ensures IsLeast(ToMap(es), FirstOf(es)) && IsGreatest(ToMap(es), LastOf(es))
    ensures ToMap(es) == map[] <==> es == []
    ensures LeastKey(if es == [] then None else Some(es[0].key), ToMap(es))
    ensures GreatestKey(if es == [] then None else Some(es[|es| - 1].key), ToMap(es))
  {
    if es != [] {
      ToMapAt(es, 0);
      ToMapAt(es, |es| - 1);
      forall k | k in ToMap(es)
        ensures (k == es[0].key || LexBefore(es[0].key, k)) && (k == es[|es| - 1].key || LexBefore(k, es[|es| - 1].key))
      {
        ToMapKeys(es, k);
        RankIsLex(es[0].key, k);
        RankIsLex(k, es[|es| - 1].key);
      }
    }
  }

  lemma SomeLeaf(t: Tree)
    requires Struct(t)
    ensures |t.chain| > 0
  {
  }

  /** The first leaf has the least key exactly when it has an entry, or no leaf has one. */
  lemma FirstLeafDecides(t: Tree)
    requires Struct(t)
    ensures t.chain != [] && t.chain[0] in t.pages && t.pages[t.chain[0]].Leaf?
    ensures var es := t.pages[t.chain[0]].entries;
            IsLeast(ToMap(Contents(t)), FirstOf(es)) <==> es != [] || ToMap(Contents(t)) == map[]
  {
    hide NodesOk, EdgesOk, ParentsOk, RootOk, ChainOk, SortedIn;
    SomeLeaf(t);
    LinkAt(t, 0);
    var es, all := t.pages[t.chain[0]].entries, Contents(t);
    ContentsSorted(t);
    EdgesOfEntries(all);
    FlattenAround(t.pages, t.chain, 0);
    assert t.chain[..0] == [] && all == es + Flatten(t.pages, t.chain[1..]);
    if es != [] { assert all[0] == es[0]; }
  }

  /** The last leaf, likewise. */
  lemma LastLeafDecides(t: Tree)
    requires Struct(t)
    ensures var c := |t.chain| - 1; c >= 0 && t.chain[c] in t.pages && t.pages[t.chain[c]].Leaf?
    ensures var es := t.pages[t.chain[|t.chain| - 1]].entries;
            IsGreatest(ToMap(Contents(t)), LastOf(es)) <==> es != [] || ToMap(Contents(t)) == map[]
  {
    hide NodesOk, EdgesOk, ParentsOk, RootOk, ChainOk, SortedIn;
    SomeLeaf(t);
    var c := |t.chain| - 1;
    LinkAt(t, c);
    var es, all := t.pages[t.chain[c]].entries, Contents(t);
    ContentsSorted(t);
    EdgesOfEntries(all);
    FlattenAround(t.pages, t.chain, c);
    var before := Flatten(t.pages, t.chain[..c]);
    assert t.chain[c + 1..] == [] && all == before + es;
    if es != [] { assert all[|all| - 1] == es[|es| - 1]; }
  }
}
