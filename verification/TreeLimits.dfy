/** Sizes of entries and separators that overflow a page. */
module TreeLimits {
  import opened Keys
  import opened TreeModel
  import opened TreeLeaf
  import opened TreeSize
  import opened TreeSized

  // The advertised limits of 4 KiB keys and 64 KiB values are not enough.

  function Zeros(n: nat): Bytes {
    seq(n, _ => 0)
  }

  lemma {:induction false} SumIsAtLeast(costs: seq<nat>, k: nat)
    requires k < |costs|
    ensures costs[k] <= Sum(costs)
  {
    if k > 0 { SumIsAtLeast(costs[1..], k - 1); }
  }

  /** No leaf holds an entry larger than a page, before or after a split. */
  lemma TooLargeNeverFits(es: seq<Entry>, k: nat, pageSize: nat)
    requires k < |es| && LEAF_HEADER_LEN + Cost(es[k]) > pageSize
    ensures LEAF_HEADER_LEN + Sum(Costs(es)) > pageSize
    ensures var mid := |es| / 2;
            LEAF_HEADER_LEN + Sum(Costs(es[..mid])) > pageSize || LEAF_HEADER_LEN + Sum(Costs(es[mid..])) > pageSize
  {
    var mid := |es| / 2;
    SumIsAtLeast(Costs(es), k);
    if k < mid { SumIsAtLeast(Costs(es[..mid]), k); } else { SumIsAtLeast(Costs(es[mid..]), k - mid); }
  }

  lemma CostOfThree(a: Entry, b: Entry, c: Entry)
    ensures Sum(Costs([a])) == Cost(a)
    ensures Sum(Costs([a, b])) == Cost(a) + Cost(b)
    ensures Sum(Costs([a, b, c])) == Cost(a) + Cost(b) + Cost(c)
  {
    OneCost([], a, []);
    assert [] + [a] + [] == [a];
    assert Costs([]) == [];
    OneCost([a], b, []);
    assert [a] + [b] + [] == [a, b];
    OneCost([a, b], c, []);
    assert [a, b] + [c] + [] == [a, b, c];
  }

  /** A leaf that fits, and a new entry that would fit in a leaf of its own: cutting the three
      entries by count leaves two of them in a page too small for both. Cutting after the
      second entry would have worked. */
  lemma SplitByCountOverflows(es: seq<Entry>, e: Entry)
    requires es == [Entry([1], Zeros(1991)), Entry([2], Zeros(1991))]
    requires e == Entry([3], Zeros(3991))
    ensures Fits(Leaf(0, 0, 0, es), 4096) && Fits(Leaf(0, 0, 0, [e]), 4096)
    ensures IsPlace(es, e.key, false, 2)
    ensures var all := PutEntry(es, false, 2, e);
            && !Fits(Leaf(0, 0, 0, all), 4096)
            && !Fits(Leaf(0, 0, 0, all[|all| / 2..]), 4096)
            && Fits(Leaf(0, 0, 0, all[..2]), 4096) && Fits(Leaf(0, 0, 0, all[2..]), 4096)
  {
    var all := PutEntry(es, false, 2, e);
    assert all == [es[0], es[1], e];
    assert all[1..] == [es[1], e] && all[..2] == [es[0], es[1]] && all[2..] == [e];
    CostOfThree(es[0], es[1], e);
    CostOfThree(es[1], e, e);
    CostOfThree(e, e, e);
    CompareIsRankOrder([1], [3]);
    CompareIsRankOrder([2], [3]);
  }

  lemma TwoSeps(a: Sep, b: Sep)
    ensures Sum(SepCosts([a, b])) == SepCost(a) + SepCost(b)
  {
    assert [a, b] == [a] + [b];
    SepCostsConcat([a], [b]);
    SumOfOne(Entry([], []), a);
    SumOfOne(Entry([], []), b);
  }

  /** A tree that is one leaf. */
  function OneLeaf(id: PageId, es: seq<Entry>): Tree {
    Tree(map[id := Leaf(0, 0, 0, es)], id, map[id := Meta(0, 0.0, 1.0)], [id])
  }

  lemma OneLeafStruct(id: PageId, es: seq<Entry>)
    requires id != 0 && SortedIn(es, 0.0, 1.0)
    ensures Struct(OneLeaf(id, es))
  {
    var t := OneLeaf(id, es);
    assert OnChain(t, t.chain[0]);
    assert LinkOk(t, 0);
    assert NodeOk(t.pages[id], t.meta[id]);
  }
}
