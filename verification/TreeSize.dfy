/** When a split by count gives pages that fit. */
module TreeSize {
  import opened Keys
  import opened TreeModel

  // What a page needs when rebuilt, and bounds on the sizes of keys and entries under which cutting by the number
  // of entries, not bytes, always works.

  const LEAF_HEADER_LEN: nat := 32
  const INTERNAL_HEADER_LEN: nat := 24
  const LEAF_SLOT_LEN: nat := 8
  const INTERNAL_SLOT_LEN: nat := 12

  function Cost(e: Entry): nat { LEAF_SLOT_LEN + |e.key| + |e.value| }

  function SepCost(s: Sep): nat { INTERNAL_SLOT_LEN + |s.key| }

  function Sum(costs: seq<nat>): nat {
    if costs == [] then 0 else costs[0] + Sum(costs[1..])
  }

  function Costs(es: seq<Entry>): (r: seq<nat>)
    ensures |r| == |es| && forall i :: 0 <= i < |es| ==> r[i] == Cost(es[i])
  {
    seq(|es|, i requires 0 <= i < |es| => Cost(es[i]))
  }

  function SepCosts(ss: seq<Sep>): (r: seq<nat>)
    ensures |r| == |ss| && forall i :: 0 <= i < |ss| ==> r[i] == SepCost(ss[i])
  {
    seq(|ss|, i requires 0 <= i < |ss| => SepCost(ss[i]))
  }

  /** Header, slots and payloads of a page. */
  function UsedBytes(n: Node): nat {
    if n.Leaf? then LEAF_HEADER_LEN + Sum(Costs(n.entries)) else INTERNAL_HEADER_LEN + Sum(SepCosts(n.seps))
  }

  predicate Fits(n: Node, pageSize: nat) { UsedBytes(n) <= pageSize }

  predicate AllFit(pages: map<PageId, Node>, pageSize: nat) {
    forall id {:trigger Fits(pages[id], pageSize)} :: id in pages ==> Fits(pages[id], pageSize)
  }

  // ── Sums ──

  lemma {:induction false} SumConcat(a: seq<nat>, b: seq<nat>)
    ensures Sum(a + b) == Sum(a) + Sum(b)
  {
    if a == [] {
      assert a + b == b;
    } else {
      assert (a + b)[1..] == a[1..] + b;
      SumConcat(a[1..], b);
    }
  }

  lemma {:induction false} SumBounds(a: seq<nat>, lo: nat, hi: nat)
    requires forall i :: 0 <= i < |a| ==> lo <= a[i] <= hi
    ensures lo * |a| <= Sum(a) <= hi * |a|
  {
    if a != [] {
      SumBounds(a[1..], lo, hi);
      MulStep(lo, |a|);
      MulStep(hi, |a|);
    }
  }

  lemma MulStep(x: nat, n: nat)
    requires n > 0
    ensures x * n == x + x * (n - 1)
  {
  }

  lemma SumSplit(a: seq<nat>, mid: nat)
    requires mid <= |a|
    ensures Sum(a) == Sum(a[..mid]) + Sum(a[mid..])
  {
    assert a == a[..mid] + a[mid..];
    SumConcat(a[..mid], a[mid..]);
  }

  lemma SumWithout(a: seq<nat>, k: nat)
    requires k < |a|
    ensures Sum(a) == Sum(a[..k]) + a[k] + Sum(a[k + 1..])
  {
    SumSplit(a, k);
    assert a[k..] == [a[k]] + a[k + 1..];
  }

  // ── A split by count ──

  /** One part of a cut sequence fits, when the other part has at least as many items less one
      and all but one item of the whole fit together. */
  lemma PartFits(part: seq<nat>, other: seq<nat>, extra: nat, lo: nat, hi: nat, cap: nat)
    requires 0 < lo <= hi && hi * ((hi - 1) / lo + 1) <= cap
    requires forall i :: 0 <= i < |part| ==> lo <= part[i] <= hi
    requires forall i :: 0 <= i < |other| ==> lo <= other[i] <= hi
    requires |part| <= |other| + 1
    requires extra <= hi && Sum(part) + Sum(other) <= cap + extra
    ensures Sum(part) <= cap
  {
    SumBounds(part, lo, hi);
    SumBounds(other, lo, hi);
    if lo * |other| < hi {
      FewerThan(lo, hi, |other|);
      assert |part| <= (hi - 1) / lo + 1;
      MulMonotone(hi, |part|, (hi - 1) / lo + 1);
    }
  }

  lemma FewerThan(lo: nat, hi: nat, n: nat)
    requires 0 < lo && lo * n < hi
    ensures n <= (hi - 1) / lo
  {
    if n > (hi - 1) / lo {
      MulMonotone(lo, (hi - 1) / lo + 1, n);
    }
  }

  lemma MulMonotone(a: nat, b: nat, c: nat)
    requires b <= c
    ensures a * b <= a * c
  {
  }

  /** Cutting an overfull sequence in the middle gives two parts that fit, one item having
      been too much for a page that could hold the others. */
  lemma HalvesFit(costs: seq<nat>, k: nat, lo: nat, hi: nat, cap: nat)
    requires 0 < lo <= hi && hi * ((hi - 1) / lo + 1) <= cap
    requires forall i :: 0 <= i < |costs| ==> lo <= costs[i] <= hi
    requires k < |costs| && Sum(costs) - costs[k] <= cap < Sum(costs)
    ensures var mid := |costs| / 2;
            && 0 < mid < |costs|
            && Sum(costs[..mid]) <= cap
            && Sum(costs[mid..]) <= cap
            && Sum(costs[mid + 1..]) <= cap
  {
    hide Sum;
    var mid := |costs| / 2;
    SumSplit(costs, mid);
    PartFits(costs[..mid], costs[mid..], costs[k], lo, hi, cap);
    PartFits(costs[mid..], costs[..mid], costs[k], lo, hi, cap);
    SumSplit(costs[mid..], 1);
    assert costs[mid..][1..] == costs[mid + 1..];
  }

  // ── Size policy ──

  /** Bounds on key lengths and on what an entry costs in a leaf. */
  datatype Policy = Policy(keyMin: nat, keyMax: nat, entryMin: nat, entryMax: nat)

  /** Room for ceil(max / min) items of the largest size, and for three of them. */
  predicate RoomFor(lo: nat, hi: nat, header: nat, pageSize: nat) {
    && 0 < lo <= hi
    && header + hi * ((hi - 1) / lo + 1) <= pageSize
    && 3 * hi <= pageSize
  }

  lemma RoomForOne(lo: nat, hi: nat, header: nat, pageSize: nat)
    requires RoomFor(lo, hi, header, pageSize)
    ensures header + hi <= pageSize && 3 * hi <= pageSize
  {
    MulMonotone(hi, 1, (hi - 1) / lo + 1);
  }

  predicate PolicyOk(pol: Policy, pageSize: nat) {
    && pol.keyMin <= pol.keyMax
    && RoomFor(pol.entryMin, pol.entryMax, LEAF_HEADER_LEN, pageSize)
    && RoomFor(INTERNAL_SLOT_LEN + pol.keyMin, INTERNAL_SLOT_LEN + pol.keyMax, INTERNAL_HEADER_LEN, pageSize)
  }

  predicate KeySized(pol: Policy, key: Bytes) { pol.keyMin <= |key| <= pol.keyMax }

  predicate EntrySized(pol: Policy, e: Entry) {
    KeySized(pol, e.key) && pol.entryMin <= Cost(e) <= pol.entryMax
  }

  predicate NodeSized(pol: Policy, n: Node) {
    if n.Leaf? then forall i :: 0 <= i < |n.entries| ==> EntrySized(pol, n.entries[i])
    else forall i :: 0 <= i < |n.seps| ==> KeySized(pol, n.seps[i].key)
  }

  predicate Sized(pol: Policy, pages: map<PageId, Node>) {
    forall id {:trigger NodeSized(pol, pages[id])} :: id in pages ==> NodeSized(pol, pages[id])
  }

  lemma SizedUpdate(pol: Policy, pages: map<PageId, Node>, id: PageId, n: Node)
    requires Sized(pol, pages) && NodeSized(pol, n)
    ensures Sized(pol, pages[id := n])
  {
    forall j {:trigger NodeSized(pol, pages[id := n][j])} | j in pages[id := n] ensures NodeSized(pol, pages[id := n][j]) {
      if j != id { assert NodeSized(pol, pages[j]); }
    }
  }

  lemma SizedWithout(pol: Policy, pages: map<PageId, Node>, id: PageId)
    requires Sized(pol, pages)
    ensures Sized(pol, pages - {id})
  {
    forall j {:trigger NodeSized(pol, (pages - {id})[j])} | j in pages - {id} ensures NodeSized(pol, (pages - {id})[j]) {
      assert NodeSized(pol, pages[j]);
    }
  }

  lemma SizedReparent(pol: Policy, pages: map<PageId, Node>, ids: set<PageId>, p: PageId)
    requires Sized(pol, pages)
    ensures Sized(pol, Reparent(pages, ids, p))
  {
    forall j {:trigger NodeSized(pol, Reparent(pages, ids, p)[j])} | j in Reparent(pages, ids, p)
      ensures NodeSized(pol, Reparent(pages, ids, p)[j])
    {
      assert NodeSized(pol, pages[j]);
    }
  }

  lemma FitUpdate(pages: map<PageId, Node>, pageSize: nat, id: PageId, n: Node)
    requires AllFit(pages, pageSize) && Fits(n, pageSize)
    ensures AllFit(pages[id := n], pageSize)
  {
    forall j {:trigger Fits(pages[id := n][j], pageSize)} | j in pages[id := n] ensures Fits(pages[id := n][j], pageSize) {
      if j != id { assert Fits(pages[j], pageSize); }
    }
  }

  lemma FitWithout(pages: map<PageId, Node>, pageSize: nat, id: PageId)
    requires AllFit(pages, pageSize)
    ensures AllFit(pages - {id}, pageSize)
  {
    forall j {:trigger Fits((pages - {id})[j], pageSize)} | j in pages - {id} ensures Fits((pages - {id})[j], pageSize) {
      assert Fits(pages[j], pageSize);
    }
  }

  lemma CostsSlice(es: seq<Entry>, a: nat, b: nat)
    requires a <= b <= |es|
    ensures Costs(es)[a..b] == Costs(es[a..b])
  {
  }

  lemma SepCostsSlice(ss: seq<Sep>, a: nat, b: nat)
    requires a <= b <= |ss|
    ensures SepCosts(ss)[a..b] == SepCosts(ss[a..b])
  {
  }

  lemma CostsConcat(a: seq<Entry>, b: seq<Entry>)
    ensures Sum(Costs(a + b)) == Sum(Costs(a)) + Sum(Costs(b))
  {
    assert Costs(a + b) == Costs(a) + Costs(b);
    SumConcat(Costs(a), Costs(b));
  }

  lemma SepCostsConcat(a: seq<Sep>, b: seq<Sep>)
    ensures Sum(SepCosts(a + b)) == Sum(SepCosts(a)) + Sum(SepCosts(b))
  {
    assert SepCosts(a + b) == SepCosts(a) + SepCosts(b);
    SumConcat(SepCosts(a), SepCosts(b));
  }

  /** A leaf split by count produces two leaves that fit. */
  lemma LeafHalvesFit(pol: Policy, pageSize: nat, es: seq<Entry>, k: nat)
    requires PolicyOk(pol, pageSize) && k < |es|
    requires forall i :: 0 <= i < |es| ==> EntrySized(pol, es[i])
    requires LEAF_HEADER_LEN + Sum(Costs(es)) - Cost(es[k]) <= pageSize < LEAF_HEADER_LEN + Sum(Costs(es))
    ensures var mid := |es| / 2;
            && 0 < mid < |es|
            && LEAF_HEADER_LEN + Sum(Costs(es[..mid])) <= pageSize
            && LEAF_HEADER_LEN + Sum(Costs(es[mid..])) <= pageSize
  {
    HalvesFit(Costs(es), k, pol.entryMin, pol.entryMax, pageSize - LEAF_HEADER_LEN);
    var mid := |es| / 2;
    CostsSlice(es, 0, mid);
    CostsSlice(es, mid, |es|);
    assert Costs(es)[..mid] == Costs(es)[0..mid] && es[..mid] == es[0..mid];
    assert Costs(es)[mid..] == Costs(es)[mid..|es|] && es[mid..] == es[mid..|es|];
  }

  /** An internal split by count produces two pages that fit. */
  lemma InternalHalvesFit(pol: Policy, pageSize: nat, ss: seq<Sep>, k: nat)
    requires PolicyOk(pol, pageSize) && k < |ss|
    requires forall i :: 0 <= i < |ss| ==> KeySized(pol, ss[i].key)
    requires INTERNAL_HEADER_LEN + Sum(SepCosts(ss)) - SepCost(ss[k]) <= pageSize < INTERNAL_HEADER_LEN + Sum(SepCosts(ss))
    ensures var mid := |ss| / 2;
            && 0 < mid < |ss|
            && INTERNAL_HEADER_LEN + Sum(SepCosts(ss[..mid])) <= pageSize
            && INTERNAL_HEADER_LEN + Sum(SepCosts(ss[mid + 1..])) <= pageSize
  {
    HalvesFit(SepCosts(ss), k, INTERNAL_SLOT_LEN + pol.keyMin, INTERNAL_SLOT_LEN + pol.keyMax, pageSize - INTERNAL_HEADER_LEN);
    var mid := |ss| / 2;
    SepCostsSlice(ss, 0, mid);
    SepCostsSlice(ss, mid + 1, |ss|);
    assert SepCosts(ss)[..mid] == SepCosts(ss)[0..mid] && ss[..mid] == ss[0..mid];
    assert SepCosts(ss)[mid + 1..] == SepCosts(ss)[mid + 1..|ss|] && ss[mid + 1..] == ss[mid + 1..|ss|];
  }

  /** A page with a single separator fits. */
  lemma OneSepFits(pol: Policy, pageSize: nat, s: Sep)
    requires PolicyOk(pol, pageSize) && KeySized(pol, s.key)
    ensures INTERNAL_HEADER_LEN + Sum(SepCosts([s])) <= pageSize
  {
    var lo, hi := INTERNAL_SLOT_LEN + pol.keyMin, INTERNAL_SLOT_LEN + pol.keyMax;
    MulMonotone(hi, 1, (hi - 1) / lo + 1);
    assert SepCosts([s]) == [SepCost(s)];
    assert [SepCost(s)][1..] == [];
  }
}
