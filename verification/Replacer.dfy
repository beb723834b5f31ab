/** Which frame to evict: the second-chance CLOCK, and LRU-K.

    Both keep a flag per frame that says whether it is pinned, and choose among the frames that are not. CLOCK
    passes a hand over the frames and clears the mark of recent use; LRU-K compares the times of past accesses. */
module Replacer {
  import opened Wrappers

  ghost function UnpinnedIn(pinned: seq<bool>): set<nat> {
    set f: nat | f < |pinned| && !pinned[f]
  }

  lemma PinOne(pinned: seq<bool>, f: nat)
    requires f < |pinned|
    ensures UnpinnedIn(pinned[f := true]) == UnpinnedIn(pinned) - {f}
    ensures UnpinnedIn(pinned[f := false]) == UnpinnedIn(pinned) + {f}
    ensures !pinned[f] <==> f in UnpinnedIn(pinned)
  {
  }

  lemma AllPinned(pinned: seq<bool>)
    ensures UnpinnedIn(pinned) == {} <==> forall f :: 0 <= f < |pinned| ==> pinned[f]
  {
    forall f: nat | f < |pinned| ensures !pinned[f] <==> f in UnpinnedIn(pinned) { PinOne(pinned, f); }
  }

  // ── CLOCK ──

  /** The number of steps the hand takes to a frame. */
  function Offset(hand: nat, f: nat, n: nat): nat
    requires hand < n && f < n
  {
    if hand <= f then f - hand else f + n - hand
  }

  function NextSlot(f: nat, n: nat): (r: nat)
    requires f < n
    ensures r == if f + 1 < n then f + 1 else 0
  {
    (f + 1) % n
  }

  /** The first frame from the hand that is not pinned, and has no bit when some frame has none. */
  ghost predicate ClockPick(hand: nat, referenced: seq<bool>, pinned: seq<bool>, v: nat) {
    var n := |pinned|;
    && |referenced| == n && hand < n && v < n && !pinned[v]
    && (if exists u :: 0 <= u < n && !pinned[u] && !referenced[u] then
          && !referenced[v]
          && (forall u {:trigger pinned[u]} :: 0 <= u < n && !pinned[u] && !referenced[u] ==> Offset(hand, v, n) <= Offset(hand, u, n))
        else
          forall u {:trigger pinned[u]} :: 0 <= u < n && !pinned[u] ==> Offset(hand, v, n) <= Offset(hand, u, n))
  }

  lemma ClockPickUnique(hand: nat, referenced: seq<bool>, pinned: seq<bool>, v: nat, w: nat)
    requires ClockPick(hand, referenced, pinned, v) && ClockPick(hand, referenced, pinned, w)
    ensures v == w
  {
    OffsetsDiffer(hand, v, |pinned|);
  }

  /** The frame picked, and the bits cleared on the way to it. */
  ghost predicate ClockChoice(hand: nat, referenced: seq<bool>, pinned: seq<bool>, v: nat, referenced': seq<bool>) {
    var n := |pinned|;
    && ClockPick(hand, referenced, pinned, v) && |referenced'| == n
    && (if exists u :: 0 <= u < n && !pinned[u] && !referenced[u] then
          forall u {:trigger referenced'[u]} :: 0 <= u < n ==>
            referenced'[u] == (referenced[u] && (pinned[u] || Offset(hand, u, n) > Offset(hand, v, n)))
        else
          forall u {:trigger referenced'[u]} :: 0 <= u < n ==> referenced'[u] == (referenced[u] && pinned[u]))
  }

  /** The sweep after i steps of at most two rounds. */
  ghost predicate Swept(hand0: nat, referenced0: seq<bool>, pinned: seq<bool>, i: nat, hand: nat, referenced: seq<bool>) {
    var n := |pinned|;
    && |referenced0| == |referenced| == n && hand0 < n && hand < n && i <= 2 * n
    && (i < n ==> Offset(hand0, hand, n) == i)
    && (n <= i < 2 * n ==> Offset(hand0, hand, n) == i - n)
    && (i <= n ==>
          forall u {:trigger referenced[u]} {:trigger pinned[u]} :: 0 <= u < n ==>
            && (Offset(hand0, u, n) < i && !pinned[u] ==> referenced0[u])
            && referenced[u] == (referenced0[u] && (pinned[u] || Offset(hand0, u, n) >= i)))
    && (i > n ==>
          forall u {:trigger referenced[u]} {:trigger pinned[u]} :: 0 <= u < n ==>
            && (!pinned[u] ==> referenced0[u])
            && referenced[u] == (referenced0[u] && pinned[u])
            && (Offset(hand0, u, n) < i - n ==> pinned[u]))
  }

  lemma SweepStep(hand0: nat, referenced0: seq<bool>, pinned: seq<bool>, i: nat, hand: nat, referenced: seq<bool>)
    requires Swept(hand0, referenced0, pinned, i, hand, referenced) && i < 2 * |pinned|
    requires pinned[hand] || referenced[hand]
    ensures Swept(hand0, referenced0, pinned, i + 1, NextSlot(hand, |pinned|),
                  if pinned[hand] then referenced else referenced[hand := false])
  {
    HandMoves(hand0, hand, |pinned|);
    OffsetsDiffer(hand0, hand, |pinned|);
  }

  lemma SweepFinds(hand0: nat, referenced0: seq<bool>, pinned: seq<bool>, i: nat, hand: nat, referenced: seq<bool>)
    requires Swept(hand0, referenced0, pinned, i, hand, referenced) && i < 2 * |pinned|
    requires !pinned[hand] && !referenced[hand]
    ensures ClockChoice(hand0, referenced0, pinned, hand, referenced)
  {
    OffsetsDiffer(hand0, hand, |pinned|);
    if i < |pinned| {
      assert !referenced0[hand];
    }
  }

  lemma SweepStarts(hand: nat, referenced: seq<bool>, pinned: seq<bool>)
    requires |referenced| == |pinned| && hand < |pinned|
    ensures Swept(hand, referenced, pinned, 0, hand, referenced)
  {
  }

  lemma SweepEnds(hand0: nat, referenced0: seq<bool>, pinned: seq<bool>, hand: nat, referenced: seq<bool>, f: nat)
    requires Swept(hand0, referenced0, pinned, 2 * |pinned|, hand, referenced) && f < |pinned|
    ensures pinned[f]
  {
    assert Offset(hand0, f, |pinned|) < |pinned|;
  }

  lemma OffsetsDiffer(hand0: nat, f: nat, n: nat)
    requires hand0 < n && f < n
    ensures forall u {:trigger Offset(hand0, u, n)} :: 0 <= u < n && u != f ==> Offset(hand0, u, n) != Offset(hand0, f, n)
  {
  }

  class ClockReplacer {
    const capacity: nat
    var hand: nat
    var referenced: seq<bool>
    var pinned: seq<bool>

    ghost predicate Valid()
      reads this
    {
      |referenced| == |pinned| == capacity && capacity > 0 && hand < capacity
    }

    ghost function Unpinned(): set<nat>
      reads this
    {
      UnpinnedIn(pinned)
    }

    constructor (capacity: nat)
      requires capacity > 0
      ensures Valid() && this.capacity == capacity && Unpinned() == {}
      ensures hand == 0 && forall f :: 0 <= f < capacity ==> !referenced[f]
    {
      this.capacity := capacity;
      hand := 0;
      referenced := seq(capacity, i => false);
      pinned := seq(capacity, i => true);
    }

    method Victim() returns (r: Option<nat>)
      requires Valid()
      modifies this
      ensures Valid() && (r.None? <==> old(Unpinned()) == {})
      ensures r.None? ==> unchanged(this)
      ensures r.Some? ==>
                && ClockChoice(old(hand), old(referenced), old(pinned), r.value, referenced)
                && pinned == old(pinned)[r.value := true] && hand == NextSlot(r.value, capacity)
                && r.value in old(Unpinned()) && Unpinned() == old(Unpinned()) - {r.value}
    {
      hide ClockChoice, Swept, UnpinnedIn;
      AllPinned(pinned);
      if forall f :: 0 <= f < capacity ==> pinned[f] { return None; }
      ghost var some: nat :| some < capacity && !pinned[some];
      ghost var hand0, referenced0, pinned0 := hand, referenced, pinned;
      SweepStarts(hand, referenced, pinned);
      for i := 0 to 2 * capacity
        invariant Valid() && pinned == pinned0
        invariant Swept(hand0, referenced0, pinned, i, hand, referenced)
      {
        var candidate := hand;
        if pinned[candidate] || referenced[candidate] { SweepStep(hand0, referenced0, pinned, i, hand, referenced); }
        hand := NextSlot(hand, capacity);
        if !pinned[candidate] {
          if referenced[candidate] {
            referenced := referenced[candidate := false];
          } else {
            SweepFinds(hand0, referenced0, pinned, i, candidate, referenced);
            PinOne(pinned, candidate);
            pinned := pinned[candidate := true];
            return Some(candidate);
          }
        }
      }
      SweepEnds(hand0, referenced0, pinned, hand, referenced, some);
      assert false;
    }

    method Pin(f: nat)
      requires Valid()
      modifies `pinned
      ensures Valid() && Unpinned() == old(Unpinned()) - {f}
    {
      if f < capacity { pinned := pinned[f := true]; }
    }

    method Unpin(f: nat)
      requires Valid()
      modifies `pinned
      ensures Valid() && Unpinned() == if f < capacity then old(Unpinned()) + {f} else old(Unpinned())
    {
      if f < capacity { pinned := pinned[f := false]; }
    }

    method RecordAccess(f: nat)
      requires Valid()
      modifies `referenced
      ensures Valid() && referenced == if f < capacity then old(referenced)[f := true] else old(referenced)
    {
      if f < capacity { referenced := referenced[f := true]; }
    }

    method Remove(f: nat)
      requires Valid()
      modifies `pinned, `referenced
      ensures Valid() && Unpinned() == old(Unpinned()) - {f}
      ensures referenced == if f < capacity then old(referenced)[f := false] else old(referenced)
    {
      if f < capacity {
        pinned := pinned[f := true];
        referenced := referenced[f := false];
      }
    }
  }

  lemma HandMoves(hand0: nat, hand: nat, n: nat)
    requires hand0 < n && hand < n
    ensures Offset(hand0, NextSlot(hand, n), n) == if Offset(hand0, hand, n) + 1 < n then Offset(hand0, hand, n) + 1 else 0
  {
  }

  // ── LRU-K ──

  /** The last k of all accesses. */
  function LastK(accesses: seq<nat>, k: nat): seq<nat> {
    if |accesses| <= k then accesses else accesses[|accesses| - k..]
  }

  predicate Increasing(s: seq<nat>) {
    forall i, j :: 0 <= i < j < |s| ==> s[i] < s[j]
  }

  function FirstAccess(history: seq<nat>): nat {
    if history == [] then 0 else history[0]
  }

  /** Frame v is evicted before frame u: fewer than k accesses come first, by the first of them, and
      then the k-th latest access decides; the lower frame number breaks ties. */
  predicate EvictedBefore(k: nat, v: nat, hv: seq<nat>, u: nat, hu: seq<nat>) {
    if |hv| < k then
      |hu| >= k || FirstAccess(hv) < FirstAccess(hu) || (FirstAccess(hv) == FirstAccess(hu) && v <= u)
    else
      |hu| >= k && (FirstAccess(hv) < FirstAccess(hu) || (FirstAccess(hv) == FirstAccess(hu) && v <= u))
  }

  ghost predicate LruKChoice(k: nat, history: seq<seq<nat>>, pinned: seq<bool>, v: nat) {
    && |history| == |pinned| && v < |pinned| && !pinned[v]
    && forall u {:trigger pinned[u]} {:trigger history[u]} :: 0 <= u < |pinned| && !pinned[u] ==> EvictedBefore(k, v, history[v], u, history[u])
  }

  lemma LruKChoiceUnique(k: nat, history: seq<seq<nat>>, pinned: seq<bool>, v: nat, w: nat)
    requires LruKChoice(k, history, pinned, v) && LruKChoice(k, history, pinned, w)
    ensures v == w
  {
    assert EvictedBefore(k, v, history[v], w, history[w]) && EvictedBefore(k, w, history[w], v, history[v]);
  }

  /** The best of the first n frames, of either kind. */
  ghost predicate Chosen(k: nat, now: nat, history: seq<seq<nat>>, pinned: seq<bool>, n: nat,
                         victim: Option<nat>, maxDistance: Option<nat>, victimInf: Option<nat>, earliest: Option<nat>)
    requires |history| == |pinned|
  {
    && n <= |pinned| && (victim.None? <==> maxDistance.None?) && (victimInf.None? <==> earliest.None?)
    && (victimInf.Some? ==> victimInf.value < n && !pinned[victimInf.value] && |history[victimInf.value]| < k
                            && earliest.value == FirstAccess(history[victimInf.value]))
    && (victimInf.None? ==> forall u {:trigger pinned[u]} :: 0 <= u < n && !pinned[u] ==> |history[u]| >= k)
    && (victimInf.Some? ==> forall u {:trigger pinned[u]} :: 0 <= u < n && !pinned[u] ==>
          EvictedBefore(k, victimInf.value, history[victimInf.value], u, history[u]))
    && (victim.Some? ==> victim.value < n && !pinned[victim.value] && |history[victim.value]| >= k
                         && FirstAccess(history[victim.value]) + maxDistance.value == now)
    && (victimInf.None? ==>
          if victim.Some? then
            forall u {:trigger pinned[u]} :: 0 <= u < n && !pinned[u] ==>
              EvictedBefore(k, victim.value, history[victim.value], u, history[u])
          else forall u {:trigger pinned[u]} :: 0 <= u < n ==> pinned[u])
  }

  /** One pass over the frames. */
  method Choose(k: nat, now: nat, history: seq<seq<nat>>, pinned: seq<bool>) returns (selected: Option<nat>)
    requires |history| == |pinned| && k > 0
    requires forall f {:trigger history[f]} :: 0 <= f < |history| ==> FirstAccess(history[f]) <= now
    ensures selected.Some? ==> LruKChoice(k, history, pinned, selected.value)
    ensures selected.None? ==> forall f :: 0 <= f < |pinned| ==> pinned[f]
  {
    var maxDistance: Option<nat>, victim: Option<nat> := None, None;
    var earliest: Option<nat>, victimInf: Option<nat> := None, None;
    for id: nat := 0 to |pinned|
      invariant Chosen(k, now, history, pinned, id, victim, maxDistance, victimInf, earliest)
    {
      if !pinned[id] {
        var hist := history[id];
        if |hist| < k {
          var firstAccess := if hist == [] then 0 else hist[0];
          if earliest == None || firstAccess < earliest.value {
            earliest := Some(firstAccess);
            victimInf := Some(id);
          }
        } else if victimInf == None {
          var distance := if now < hist[0] then 0 else now - hist[0];
          if maxDistance == None || distance > maxDistance.value {
            maxDistance := Some(distance);
            victim := Some(id);
          }
        }
      }
    }
    selected := if victimInf.Some? then victimInf else victim;
  }

  /** A frame's history is its last k accesses, in order, none later than now. */
  ghost predicate Remembers(history: seq<nat>, accesses: seq<nat>, k: nat, now: nat) {
    history == LastK(accesses, k) && Increasing(accesses) && forall i :: 0 <= i < |accesses| ==> accesses[i] <= now
  }

  lemma AccessRemembered(history: seq<nat>, accesses: seq<nat>, k: nat, now: nat)
    requires Remembers(history, accesses, k, now) && k > 0
    ensures Remembers((if |history| == k then history[1..] else history) + [now + 1], accesses + [now + 1], k, now + 1)
  {
  }

  lemma LaterRemembers(history: seq<nat>, accesses: seq<nat>, k: nat, now: nat)
    requires Remembers(history, accesses, k, now)
    ensures Remembers(history, accesses, k, now + 1)
  {
  }

  lemma RemembersFirst(history: seq<nat>, accesses: seq<nat>, k: nat, now: nat)
    requires Remembers(history, accesses, k, now)
    ensures FirstAccess(history) <= now
  {
  }

  lemma RemembersNothing(k: nat, now: nat)
    ensures Remembers([], [], k, now)
  {
  }

  class LruKReplacer {
    const capacity: nat
    const k: nat
    var currentTimestamp: nat
    var history: seq<seq<nat>>
    var pinned: seq<bool>
    /** Every access since a page was brought into the frame. */
    ghost var accesses: seq<seq<nat>>

    ghost predicate Valid()
      reads this
    {
      && |history| == |pinned| == |accesses| == capacity && k > 0
      && forall f {:trigger history[f]} {:trigger accesses[f]} :: 0 <= f < capacity ==>
           Remembers(history[f], accesses[f], k, currentTimestamp)
    }

    ghost function Unpinned(): set<nat>
      reads this
    {
      UnpinnedIn(pinned)
    }

    constructor (capacity: nat, k: nat)
      ensures Valid() && this.capacity == capacity && this.k == (if k == 0 then 1 else k) && Unpinned() == {}
      ensures currentTimestamp == 0 && forall f :: 0 <= f < capacity ==> accesses[f] == []
    {
      this.capacity := capacity;
      this.k := if k == 0 then 1 else k;
      currentTimestamp := 0;
      history := seq(capacity, i => []);
      accesses := seq(capacity, i => []);
      pinned := seq(capacity, i => true);
    }

    method Victim() returns (selected: Option<nat>)
      requires Valid()
      modifies `pinned
      ensures Valid() && (selected.None? <==> old(Unpinned()) == {})
      ensures selected.None? ==> unchanged(this)
      ensures selected.Some? ==>
                && LruKChoice(k, history, old(pinned), selected.value) && pinned == old(pinned)[selected.value := true]
                && selected.value in old(Unpinned()) && Unpinned() == old(Unpinned()) - {selected.value}
    {
      forall f | 0 <= f < capacity ensures FirstAccess(history[f]) <= currentTimestamp {
        RemembersFirst(history[f], accesses[f], k, currentTimestamp);
      }
      selected := Choose(k, currentTimestamp, history, pinned);
      AllPinned(pinned);
      if selected.Some? {
        PinOne(pinned, selected.value);
        pinned := pinned[selected.value := true];
      }
    }

    method Pin(f: nat)
      requires Valid()
      modifies `pinned
      ensures Valid() && Unpinned() == old(Unpinned()) - {f}
    {
      if f < capacity { pinned := pinned[f := true]; }
    }

    method Unpin(f: nat)
      requires Valid()
      modifies `pinned
      ensures Valid() && Unpinned() == if f < capacity then old(Unpinned()) + {f} else old(Unpinned())
    {
      if f < capacity { pinned := pinned[f := false]; }
    }

    method RecordAccess(f: nat)
      requires Valid()
      modifies `currentTimestamp, `history, `accesses
      ensures Valid()
      ensures f >= capacity ==> unchanged(this)
      ensures f < capacity ==>
                && currentTimestamp == old(currentTimestamp) + 1
                && accesses == old(accesses)[f := old(accesses)[f] + [currentTimestamp]]
    {
      hide Remembers;
      if f < capacity {
        ghost var history0, accesses0, now := history, accesses, currentTimestamp;
        forall g | 0 <= g < capacity ensures Remembers(history0[g], accesses0[g], k, now + 1) {
          LaterRemembers(history0[g], accesses0[g], k, now);
        }
        AccessRemembered(history[f], accesses[f], k, now);
        currentTimestamp := currentTimestamp + 1;
        var hist := history[f];
        if |hist| == k { hist := hist[1..]; }
        history := history[f := hist + [currentTimestamp]];
        accesses := accesses[f := accesses[f] + [currentTimestamp]];
        forall g | 0 <= g < capacity ensures Remembers(history[g], accesses[g], k, currentTimestamp) {
          if g != f { assert history[g] == history0[g] && accesses[g] == accesses0[g]; }
        }
      }
    }

    method Remove(f: nat)
      requires Valid()
      modifies `pinned, `history, `accesses
      ensures Valid() && Unpinned() == old(Unpinned()) - {f}
      ensures f < capacity ==> accesses == old(accesses)[f := []]
      ensures f >= capacity ==> unchanged(this)
    {
      if f < capacity {
        pinned := pinned[f := true];
        RemembersNothing(k, currentTimestamp);
        history := history[f := []];
        accesses := accesses[f := []];
      }
    }
  }

  // ── What the policies prescribe ──

  /** What a policy is told and asked: a frame was used for a page, or has lost its page; a victim was sought. */
  datatype Use = Used(frame: nat, page: nat) | Forgot(frame: nat) | Sought(evictable: set<nat>, victim: nat)

  datatype Kind = ClockOf(frames: nat) | LruKOf(k: nat)

  /** The number of uses so far, which is the time. */
  function UseCount(log: seq<Use>): nat {
    if log == [] then 0 else UseCount(log[..|log| - 1]) + if log[|log| - 1].Used? then 1 else 0
  }

  /** The times at which a frame was used since it last lost its page. */
  function UseTimes(log: seq<Use>, f: nat): seq<nat> {
    if log == [] then []
    else
      var before, last := UseTimes(log[..|log| - 1], f), log[|log| - 1];
      if last.Sought? || last.frame != f then before
      else if last.Used? then before + [UseCount(log)]
      else []
  }

  /** CLOCK's hand and bits. */
  datatype Dial = Dial(hand: nat, bits: seq<bool>)

  function PinnedOf(evictable: set<nat>, n: nat): (p: seq<bool>)
    ensures |p| == n && forall f {:trigger p[f]} :: 0 <= f < n ==> (p[f] <==> f !in evictable)
  {
    seq(n, f requires 0 <= f < n => f !in evictable)
  }

  /** The bits that a sweep from the hand to v leaves: when some frame to be had has none, those it passed are cleared, and
      else those of all frames to be had. */
  ghost function BitsAfter(hand: nat, bits: seq<bool>, pinned: seq<bool>, v: nat): seq<bool>
    requires hand < |pinned| == |bits| && v < |pinned|
  {
    var n := |pinned|;
    if exists u :: 0 <= u < n && !pinned[u] && !bits[u] then
      seq(n, u requires 0 <= u < n => bits[u] && (pinned[u] || Offset(hand, u, n) > Offset(hand, v, n)))
    else seq(n, u requires 0 <= u < n => bits[u] && pinned[u])
  }

  ghost function DialAfter(log: seq<Use>, n: nat): (d: Dial)
    requires n > 0
    ensures d.hand < n == |d.bits|
  {
    if log == [] then Dial(0, seq(n, i => false)) else NextDial(DialAfter(log[..|log| - 1], n), log[|log| - 1], n)
  }

  /** A use sets the frame's bit, losing its page clears it, and a sweep clears bits and leaves the hand behind the victim. */
  ghost function NextDial(d: Dial, u: Use, n: nat): (d': Dial)
    requires d.hand < n == |d.bits|
    ensures d'.hand < n == |d'.bits|
  {
    match u
    case Used(f, _) => if f < n then d.(bits := d.bits[f := true]) else d
    case Forgot(f) => if f < n then d.(bits := d.bits[f := false]) else d
    case Sought(evictable, v) =>
      if v < n then Dial(NextSlot(v, n), BitsAfter(d.hand, d.bits, PinnedOf(evictable, n), v)) else d
  }

  /** The victim among the evictable frames: for LRU-K by the last k uses of each since it got its page, for CLOCK by the
      hand and the bits that all uses and sweeps so far have left. */
  ghost predicate Prescribed(kind: Kind, log: seq<Use>, evictable: set<nat>, v: nat) {
    match kind
    case LruKOf(k) =>
      v in evictable && forall u {:trigger UseTimes(log, u)} :: u in evictable ==>
        EvictedBefore(k, v, LastK(UseTimes(log, v), k), u, LastK(UseTimes(log, u), k))
    case ClockOf(n) => n > 0 && ClockPick(DialAfter(log, n).hand, DialAfter(log, n).bits, PinnedOf(evictable, n), v)
  }

  /** Every victim of a run was the one prescribed. */
  ghost predicate AllPrescribed(kind: Kind, log: seq<Use>) {
    forall i {:trigger log[i]} :: 0 <= i < |log| && log[i].Sought? ==> Prescribed(kind, log[..i], log[i].evictable, log[i].victim)
  }

  lemma PrescribedThen(kind: Kind, log: seq<Use>, evictable: set<nat>, v: nat, later: seq<Use>)
    requires AllPrescribed(kind, later) && |log| < |later| && later[..|log|] == log && later[|log|] == Sought(evictable, v)
    ensures Prescribed(kind, log, evictable, v)
  {
  }

  lemma OneMorePrescribed(kind: Kind, log: seq<Use>, u: Use)
    requires AllPrescribed(kind, log) && (u.Sought? ==> Prescribed(kind, log, u.evictable, u.victim))
    ensures AllPrescribed(kind, log + [u])
  {
    hide Prescribed;
    var more := log + [u];
    forall i | 0 <= i < |more| && more[i].Sought? ensures Prescribed(kind, more[..i], more[i].evictable, more[i].victim) {
      assert more[..i] == log[..i];
      if i == |log| { assert log[..i] == log; }
    }
  }

  /** One use more. */
  lemma UseMore(log: seq<Use>, u: Use, n: nat)
    requires n > 0
    ensures UseCount(log + [u]) == UseCount(log) + if u.Used? then 1 else 0
    ensures forall f :: UseTimes(log + [u], f)
                        == if u.Sought? || u.frame != f then UseTimes(log, f)
                           else if u.Used? then UseTimes(log, f) + [UseCount(log) + 1] else []
    ensures DialAfter(log + [u], n) == NextDial(DialAfter(log, n), u, n)
  {
    assert (log + [u])[..|log|] == log;
  }

  lemma ChoiceIsPick(d: Dial, pinned: seq<bool>, v: nat, bits: seq<bool>)
    requires ClockChoice(d.hand, d.bits, pinned, v, bits)
    ensures ClockPick(d.hand, d.bits, pinned, v)
  {
  }

  lemma PinnedAre(pinned: seq<bool>)
    ensures PinnedOf(UnpinnedIn(pinned), |pinned|) == pinned
  {
    forall f | 0 <= f < |pinned| ensures pinned[f] <==> f !in UnpinnedIn(pinned) { PinOne(pinned, f); }
  }

  /** What the sweep does is what the dial says. */
  lemma SweptDial(d: Dial, pinned: seq<bool>, v: nat, bits: seq<bool>)
    requires ClockChoice(d.hand, d.bits, pinned, v, bits)
    ensures NextDial(d, Sought(UnpinnedIn(pinned), v), |pinned|) == Dial(NextSlot(v, |pinned|), bits)
  {
    PinnedAre(pinned);
    hide UnpinnedIn, PinnedOf;
    assert BitsAfter(d.hand, d.bits, pinned, v) == bits;
  }

  lemma ChosenIsPrescribed(k: nat, history: seq<seq<nat>>, pinned: seq<bool>, v: nat, log: seq<Use>)
    requires LruKChoice(k, history, pinned, v)
    requires forall f {:trigger history[f]} :: 0 <= f < |history| ==> history[f] == LastK(UseTimes(log, f), k)
    ensures Prescribed(LruKOf(k), log, UnpinnedIn(pinned), v)
  {
    hide UseTimes, LastK, EvictedBefore;
    PinOne(pinned, v);
    forall u | u in UnpinnedIn(pinned) ensures EvictedBefore(k, v, LastK(UseTimes(log, v), k), u, LastK(UseTimes(log, u), k)) {
      assert u < |pinned| && !pinned[u];
      assert history[u] == LastK(UseTimes(log, u), k) && history[v] == LastK(UseTimes(log, v), k);
    }
  }

  // Two short runs. The log is written as it grows.

  function FirstThree(): seq<Use> {
    [] + [Used(0, 1)] + [Used(1, 2)] + [Used(2, 3)]
  }

  lemma AfterThree(n: nat)
    requires n == 3
    ensures var log := FirstThree();
            && UseCount(log) == 3 && UseTimes(log, 0) == [1] && UseTimes(log, 1) == [2] && UseTimes(log, 2) == [3]
            && DialAfter(log, n) == Dial(0, [true, true, true])
  {
    hide UseTimes, UseCount, DialAfter;
    var a := [] + [Used(0, 1)];
    var b := a + [Used(1, 2)];
    NothingYet(n);
    UseMore([], Used(0, 1), n);
    UseMore(a, Used(1, 2), n);
    UseMore(b, Used(2, 3), n);
    assert UseTimes(a, 0) == [1] && UseTimes(a, 1) == [] && UseTimes(a, 2) == [];
    assert UseTimes(b, 0) == [1] && UseTimes(b, 1) == [2] && UseTimes(b, 2) == [];
  }

  lemma NothingYet(n: nat)
    requires n > 0
    ensures UseCount([]) == 0 && (forall f :: UseTimes([], f) == []) && DialAfter([], n) == Dial(0, seq(n, i => false))
  {
  }

  /** Three pages are brought in and the first two used again: LRU-2 then gives up the third. */
  lemma ThirdIsEvicted(v: nat)
    ensures Prescribed(LruKOf(2), FirstThree() + [Used(0, 1)] + [Used(1, 2)], {0, 1, 2}, v) <==> v == 2
  {
    hide UseTimes, UseCount, DialAfter;
    var a := FirstThree() + [Used(0, 1)];
    var log := a + [Used(1, 2)];
    AfterThree(3);
    UseMore(FirstThree(), Used(0, 1), 3);
    UseMore(a, Used(1, 2), 3);
    hide FirstThree;
    assert UseTimes(a, 0) == [1, 4] && UseTimes(a, 1) == [2] && UseTimes(a, 2) == [3];
    assert UseTimes(log, 0) == [1, 4] && UseTimes(log, 1) == [2, 5] && UseTimes(log, 2) == [3];
  }

  /** CLOCK passes a frame that was used since the hand came by: with the hand behind the first frame, which was given a new
      page, and the second used again, the third is the victim. */
  lemma SecondChance(v: nat)
    ensures Prescribed(ClockOf(3), FirstThree() + [Sought({0, 1, 2}, 0)] + [Forgot(0)] + [Used(0, 4)] + [Used(1, 2)], {0, 1, 2}, v)
            <==> v == 2
  {
    hide UseTimes, UseCount, DialAfter;
    var a := FirstThree() + [Sought({0, 1, 2}, 0)];
    var b := a + [Forgot(0)];
    var c := b + [Used(0, 4)];
    AfterThree(3);
    UseMore(FirstThree(), Sought({0, 1, 2}, 0), 3);
    UseMore(a, Forgot(0), 3);
    UseMore(b, Used(0, 4), 3);
    UseMore(c, Used(1, 2), 3);
    hide FirstThree;
    assert DialAfter(a, 3) == Dial(1, [false, false, false]);
    assert DialAfter(c + [Used(1, 2)], 3) == Dial(1, [true, true, false]);
    var pinned := PinnedOf({0, 1, 2}, 3);
    assert !pinned[0] && !pinned[1] && !pinned[2];
  }
}
