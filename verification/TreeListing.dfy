/** What a scan or a range gives, said of the map and the lexicographic order of its keys. */
module TreeListing {
  import opened Keys
  import opened TreeModel
  import opened TreeContents
  import opened TreeOrder

  /** Inside both bounds. */
  ghost predicate KeyWithin(k: Bytes, start: Bound, end: Bound) {
    && (match start
        case Included(a) => k == a || LexBefore(a, k)
        case Excluded(a) => LexBefore(a, k)
        case Unbounded => true)
    && (match end
        case Included(b) => k == b || LexBefore(k, b)
        case Excluded(b) => LexBefore(k, b)
        case Unbounded => true)
  }

  ghost predicate InLexOrder(es: seq<Entry>) {
    forall i, j :: 0 <= i < j < |es| ==> LexBefore(es[i].key, es[j].key)
  }

  ghost predicate FromMap(e: Entry, m: map<Bytes, Bytes>) {
    e.key in m && m[e.key] == e.value
  }

  /** The entries of the map inside the bounds, all of them, in the order of their keys. */
  ghost predicate ListsWithin(es: seq<Entry>, m: map<Bytes, Bytes>, start: Bound, end: Bound) {
    && InLexOrder(es)
    && (forall i {:trigger es[i]} :: 0 <= i < |es| ==> FromMap(es[i], m) && KeyWithin(es[i].key, start, end))
    && (forall k {:trigger k in m} :: k in m && KeyWithin(k, start, end) ==> exists i :: 0 <= i < |es| && es[i].key == k)
  }

  /** The first entries of the map from a key on, in the order of their keys: all of them, or as many as asked for, and then
      the others come after. */
  ghost predicate ListsFirst(es: seq<Entry>, m: map<Bytes, Bytes>, start: Bytes, limit: nat) {
    && |es| <= limit && InLexOrder(es)
    && (forall i {:trigger es[i]} :: 0 <= i < |es| ==> FromMap(es[i], m) && (es[i].key == start || LexBefore(start, es[i].key)))
    && (forall k {:trigger k in m} :: k in m && (k == start || LexBefore(start, k)) ==>
          || (exists i :: 0 <= i < |es| && es[i].key == k)
          || (|es| == limit && forall i {:trigger es[i]} :: 0 <= i < |es| ==> LexBefore(es[i].key, k)))
  }

  lemma BoundsAreLex(k: Bytes, start: Bound, end: Bound)
    ensures AboveStart(k, start) && BelowEnd(k, end) <==> KeyWithin(k, start, end)
  {
    if !start.Unbounded? { CompareIsLex(k, start.key); }
    if !end.Unbounded? { CompareIsLex(k, end.key); }
  }

  lemma {:induction false} InBoundsAre(es: seq<Entry>, start: Bound, end: Bound)
    requires forall i, j :: 0 <= i < j < |es| ==> Rank(es[i].key) < Rank(es[j].key)
    ensures forall e {:trigger e in InBounds(es, start, end)} :: e in InBounds(es, start, end) <==> e in es && KeyWithin(e.key, start, end)
    ensures InLexOrder(InBounds(es, start, end))
  {
    hide AboveStart, BelowEnd, KeyWithin, InLexOrder, Rank;
    if es == [] {
      NoneInOrder();
    } else {
      var e, rest := es[0], InBounds(es[1..], start, end);
      InBoundsAre(es[1..], start, end);
      BoundsAreLex(e.key, start, end);
      assert es == [e] + es[1..];
      forall i | 0 <= i < |rest| ensures LexBefore(e.key, rest[i].key) {
        assert rest[i] in rest;
        var j :| 0 <= j < |es[1..]| && es[1..][j] == rest[i];
        assert es[j + 1] == rest[i];
        RankIsLex(e.key, rest[i].key);
      }
      OneBefore(e, rest);
      assert InBounds(es, start, end) == if KeyWithin(e.key, start, end) then [e] + rest else rest;
    }
  }

  lemma NoneInOrder()
    ensures InLexOrder([])
  {
  }

  lemma OneBefore(e: Entry, rest: seq<Entry>)
    requires InLexOrder(rest) && forall i :: 0 <= i < |rest| ==> LexBefore(e.key, rest[i].key)
    ensures InLexOrder([e] + rest)
  {
    hide LexBefore;
  }

  /** The entries inside the bounds, of sorted entries. */
  lemma RangeLists(es: seq<Entry>, start: Bound, end: Bound)
    requires SortedIn(es, 0.0, 1.0)
    ensures ListsWithin(InBounds(es, start, end), ToMap(es), start, end)
  {
    hide KeyWithin, InLexOrder, InBounds, Rank, ToMap;
    InBoundsAre(es, start, end);
    var all := InBounds(es, start, end);
    forall i | 0 <= i < |all| ensures FromMap(all[i], ToMap(es)) && KeyWithin(all[i].key, start, end) {
      assert all[i] in all;
      var j :| 0 <= j < |es| && es[j] == all[i];
      ToMapAt(es, j);
    }
    forall k | k in ToMap(es) && KeyWithin(k, start, end) ensures exists i :: 0 <= i < |all| && all[i].key == k {
      ToMapKeys(es, k);
      var j :| 0 <= j < |es| && es[j].key == k;
      assert es[j] in all;
    }
  }

  lemma FirstOfRange(all: seq<Entry>, m: map<Bytes, Bytes>, start: Bytes, limit: nat)
    requires ListsWithin(all, m, Included(start), Unbounded)
    ensures ListsFirst(FirstFew(all, limit), m, start, limit)
  {
    hide LexBefore;
    var es := FirstFew(all, limit);
    forall k | k in m && (k == start || LexBefore(start, k))
      ensures (exists i :: 0 <= i < |es| && es[i].key == k)
              || (|es| == limit && forall i :: 0 <= i < |es| ==> LexBefore(es[i].key, k))
    {
      assert KeyWithin(k, Included(start), Unbounded);
      var i :| 0 <= i < |all| && all[i].key == k;
      if i < |es| { assert es[i].key == k; }
    }
  }

  /** Of a whole tree. */
  lemma TreeLists(t: Tree, start: Bound, end: Bound)
    requires Struct(t)
    ensures ListsWithin(InBounds(Contents(t), start, end), ToMap(Contents(t)), start, end)
  {
    hide Struct, InBounds, ToMap, Contents;
    ContentsSorted(t);
    RangeLists(Contents(t), start, end);
  }
}
