/** What the two policies prescribe, by the times of the uses and by the steps of the hand. */
module ReplacerLaws {
  import opened Replacer

  function FirstOf(times: seq<nat>): nat {
    if times == [] then 0 else times[0]
  }

  /** By its uses frame v is given up before frame u: one with fewer than k uses before one with k, of those with fewer the
      one used first, and of the others the one whose k-th last use is the oldest; of equals the one with the lower number. */
  predicate GoesFirst(k: nat, log: seq<Use>, v: nat, u: nat)
    requires k > 0
  {
    var tv, tu := UseTimes(log, v), UseTimes(log, u);
    if |tv| >= k && |tu| >= k then tv[|tv| - k] < tu[|tu| - k] || (tv[|tv| - k] == tu[|tu| - k] && v <= u)
    else if |tv| < k && |tu| < k then FirstOf(tv) < FirstOf(tu) || (FirstOf(tv) == FirstOf(tu) && v <= u)
    else |tv| < k
  }

  lemma LruKIs(k: nat, log: seq<Use>, evictable: set<nat>, v: nat)
    requires k > 0
    ensures Prescribed(LruKOf(k), log, evictable, v) <==>
              v in evictable && forall u {:trigger u in evictable} :: u in evictable ==> GoesFirst(k, log, v, u)
  {
    hide UseTimes, EvictedBefore, LastK, GoesFirst;
    forall u
      ensures u in evictable ==>
                (EvictedBefore(k, v, LastK(UseTimes(log, v), k), u, LastK(UseTimes(log, u), k)) <==> GoesFirst(k, log, v, u))
    {
      PairIs(k, log, v, u);
    }
  }

  lemma PairIs(k: nat, log: seq<Use>, v: nat, u: nat)
    requires k > 0
    ensures EvictedBefore(k, v, LastK(UseTimes(log, v), k), u, LastK(UseTimes(log, u), k)) <==> GoesFirst(k, log, v, u)
  {
    hide UseTimes;
  }

  /** When a frame was used: the times of a use are those before it, and now; a frame that loses its page has none. */
  lemma UseTimesAre(log: seq<Use>, f: nat, page: nat, g: nat)
    ensures UseCount([]) == 0 && UseTimes([], g) == []
    ensures UseCount(log + [Used(f, page)]) == UseCount(log) + 1
    ensures UseTimes(log + [Used(f, page)], g) == if g == f then UseTimes(log, f) + [UseCount(log) + 1] else UseTimes(log, g)
    ensures UseTimes(log + [Forgot(f)], g) == if g == f then [] else UseTimes(log, g)
  {
    UseMore(log, Used(f, page), 1);
    UseMore(log, Forgot(f), 1);
  }

  /** The steps from the hand to a frame. */
  function Steps(hand: nat, f: nat, n: nat): nat
    requires hand < n && f < n
  {
    (f + n - hand) % n
  }

  lemma StepsAre(hand: nat, f: nat, n: nat)
    requires hand < n && f < n
    ensures Offset(hand, f, n) == Steps(hand, f, n) < n
  {
    if hand <= f { OnceRound(f - hand, n); } else { Within(f + n - hand, n); }
  }

  lemma Within(x: nat, n: nat)
    requires x < n
    ensures x % n == x
  {
  }

  lemma OnceRound(x: nat, n: nat)
    requires x < n
    ensures (x + n) % n == x
  {
    assert (x + n) / n == 1;
  }

  /** CLOCK gives up the frame without a bit that the hand comes to first, or if every frame to be had has its bit, the one
      that it comes to first at all. */
  lemma ClockIs(n: nat, log: seq<Use>, evictable: set<nat>, v: nat)
    requires n > 0
    ensures Prescribed(ClockOf(n), log, evictable, v) <==>
              var d := DialAfter(log, n);
              && v < n && v in evictable
              && (if exists u: nat :: u < n && u in evictable && !d.bits[u] then
                    !d.bits[v] && forall u: nat :: u < n && u in evictable && !d.bits[u] ==> Steps(d.hand, v, n) <= Steps(d.hand, u, n)
                  else forall u: nat :: u < n && u in evictable ==> Steps(d.hand, v, n) <= Steps(d.hand, u, n))
  {
    hide DialAfter, Offset, Steps;
    var d, pinned := DialAfter(log, n), PinnedOf(evictable, n);
    forall u: nat | u < n ensures Offset(d.hand, u, n) == Steps(d.hand, u, n) && (pinned[u] <==> u !in evictable) {
      StepsAre(d.hand, u, n);
    }
  }

  /** A use sets the bit, losing the page clears it, */
  lemma BitsAre(log: seq<Use>, f: nat, page: nat, n: nat)
    requires f < n
    ensures DialAfter([], n).hand == 0 && forall u :: 0 <= u < n ==> !DialAfter([], n).bits[u]
    ensures DialAfter(log + [Used(f, page)], n) == Dial(DialAfter(log, n).hand, DialAfter(log, n).bits[f := true])
    ensures DialAfter(log + [Forgot(f)], n) == Dial(DialAfter(log, n).hand, DialAfter(log, n).bits[f := false])
  {
    UseMore(log, Used(f, page), n);
    UseMore(log, Forgot(f), n);
    NothingYet(n);
  }

  /** and a sweep leaves the hand behind its victim, and clears the bits of the frames to be had that it passed; of all of
      them, when it had to come round. */
  lemma SweepLeaves(log: seq<Use>, evictable: set<nat>, v: nat, n: nat, u: nat)
    requires v < n && u < n
    ensures DialAfter(log + [Sought(evictable, v)], n).hand == (v + 1) % n
    ensures var d := DialAfter(log, n);
            DialAfter(log + [Sought(evictable, v)], n).bits[u] ==
            (d.bits[u] && (u !in evictable || ((exists w: nat :: w < n && w in evictable && !d.bits[w]) && Steps(d.hand, u, n) > Steps(d.hand, v, n))))
  {
    UseMore(log, Sought(evictable, v), n);
    hide DialAfter, Steps;
    var d, pinned := DialAfter(log, n), PinnedOf(evictable, n);
    StepsAre(d.hand, u, n);
    StepsAre(d.hand, v, n);
    assert (exists w: nat :: w < n && w in evictable && !d.bits[w]) <==> exists w :: 0 <= w < n && !pinned[w] && !d.bits[w];
  }
}
