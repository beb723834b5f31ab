/** Which transactions a database has done, over whole runs. */
module DatabaseHistory {
  import opened Wrappers
  import opened Keys
  import opened WalFormat
  import opened WalMeaning
  import opened TransactionLog
  import opened WriteAheadLog
  import opened DatabaseModel
  import opened Compaction
  import opened Database
  import opened DatabaseRuns

  predicate Acknowledged<V>(e: Event<V>) {
    e.Transacted? && e.result.Done?
  }

  /** Acknowledged, or failed when its records may all have been written. */
  predicate MayCount<V(==)>(e: Event<V>) {
    Acknowledged(e) || (e.Transacted? && e.result == Failed(WalError(Io)))
  }

  /** Some of the first n transactions, whole and in the order of the run: the acknowledged ones among them are exactly
      those in `acked`, the others may count. */
  ghost predicate IsHistory<V>(events: seq<Event<V>>, n: nat, done: seq<nat>, acked: set<nat>) {
    && n <= |events|
    && (forall k {:trigger done[k]} :: 0 <= k < |done| ==> done[k] < n && MayCount(events[done[k]]))
    && (forall j, k :: 0 <= j < k < |done| ==> done[j] < done[k])
    && (forall i {:trigger i in acked} :: i in acked ==> i < n && i in done && Acknowledged(events[i]))
    && (forall k {:trigger done[k]} :: 0 <= k < |done| && Acknowledged(events[done[k]]) ==> done[k] in acked)
  }

  /** The map after those transactions, from the empty one. */
  ghost function MapOf<V>(events: seq<Event<V>>, done: seq<nat>): map<Bytes, V> {
    if done == [] then map[]
    else if Last(done) < |events| && events[Last(done)].Transacted?
      then ApplyOps(MapOf(events, done[..|done| - 1]), events[Last(done)].ops)
    else map[]
  }

  /** Their operations, one transaction after the other. */
  function OpsOf<V>(events: seq<Event<V>>, done: seq<nat>): seq<Operation<V>> {
    if done == [] then []
    else
      var n := done[|done| - 1];
      OpsOf(events, done[..|done| - 1]) + if n < |events| && events[n].Transacted? then events[n].ops else []
  }

  /** In the map after a history the last operation on a key decides. */
  lemma HistoryDecides<V(!new)>(events: seq<Event<V>>, n: nat, done: seq<nat>, acked: set<nat>)
    requires IsHistory(events, n, done, acked)
    ensures Became(map[], OpsOf(events, done), MapOf(events, done))
  {
    hide Became;
    MapOfOps(events, done);
    LastOperationDecides(map[], OpsOf(events, done));
  }

  lemma {:induction false} MapOfOps<V>(events: seq<Event<V>>, done: seq<nat>)
    requires forall k {:trigger done[k]} :: 0 <= k < |done| ==> done[k] < |events| && MayCount(events[done[k]])
    ensures MapOf(events, done) == ApplyOps(map[], OpsOf(events, done))
    decreases |done|
  {
    hide ApplyOps;
    if done == [] {
      NoOps<V>();
    } else {
      var init, n := done[..|done| - 1], done[|done| - 1];
      MapOfOps(events, init);
      ApplyConcat(map[], OpsOf(events, init), events[n].ops);
    }
  }

  lemma NoOps<V>()
    ensures ApplyOps<V>(map[], []) == map[]
  {
  }

  ghost predicate HasHistory<V>(events: seq<Event<V>>, n: nat, m: map<Bytes, V>, acked: set<nat>) {
    exists done: seq<nat> :: IsHistory(events, n, done, acked) && m == MapOf(events, done)
  }

  ghost predicate AllHave<V>(events: seq<Event<V>>, n: nat, versions: Versions<V>, acked: set<nat>) {
    forall m {:trigger HasHistory(events, n, m, acked)} :: m in versions ==> HasHistory(events, n, m, acked)
  }

  /** The acknowledged transactions that are safe: in the log, and in each thing that may come back. */
  datatype Safe = Safe(now: set<nat>, olds: seq<set<nat>>)

  function SafeAfter<V>(events: seq<Event<V>>, n: nat): Safe
    requires n <= |events|
  {
    if n == 0 then Safe({}, [])
    else
      var s := SafeAfter(events, n - 1);
      match events[n - 1]
      case Transacted(_, Done(_)) => Safe(s.now + {n - 1}, s.olds)
      case Transacted(_, Failed(_)) => s
      case Checkpointed(_, reached) => SafeWhen(s, reached)
      case Opened(_, reached) => SafeWhen(s, reached)
      case PowerLost(_, None) => Safe(s.now, [])
      case PowerLost(_, Some(i)) => Safe(if i < |s.olds| then s.olds[i] else {}, [])
      case Closed => s
  }

  function SafeWhen(s: Safe, reached: Reached): Safe {
    match reached
    case Untouched => s
    case Changed => Safe(s.now, s.olds + [s.now])
    case DirSynced => Safe(s.now, [])
  }

  lemma LaterHistory<V>(events: seq<Event<V>>, n: nat, versions: Versions<V>, acked: set<nat>)
    requires n < |events| && AllHave(events, n, versions, acked)
    ensures AllHave(events, n + 1, versions, acked)
  {
    forall m | m in versions ensures HasHistory(events, n + 1, m, acked) {
      assert HasHistory(events, n, m, acked);
      var done: seq<nat> :| IsHistory(events, n, done, acked) && m == MapOf(events, done);
      assert IsHistory(events, n + 1, done, acked);
    }
  }

  lemma FewerHistories<V>(events: seq<Event<V>>, n: nat, versions: Versions<V>, acked: set<nat>, fewer: Versions<V>)
    requires AllHave(events, n, versions, acked) && fewer <= versions
    ensures AllHave(events, n, fewer, acked)
  {
    forall m | m in fewer ensures HasHistory(events, n, m, acked) { assert m in versions; }
  }

  function WithNext<V>(events: seq<Event<V>>, n: nat, acked: set<nat>): set<nat>
    requires n < |events|
  {
    if Acknowledged(events[n]) then acked + {n} else acked
  }

  /** One transaction more. */
  lemma NextHistory<V>(events: seq<Event<V>>, n: nat, m: map<Bytes, V>, acked: set<nat>)
    requires n < |events| && MayCount(events[n]) && HasHistory(events, n, m, acked)
    ensures HasHistory(events, n + 1, ApplyOps(m, events[n].ops), WithNext(events, n, acked))
  {
    hide ApplyOps, MayCount;
    var done: seq<nat> :| IsHistory(events, n, done, acked) && m == MapOf(events, done);
    hide IsHistory, MapOf, WithNext;
    OneMoreDone(events, n, done, acked);
    OneMoreMap(events, n, done);
    assert IsHistory(events, n + 1, done + [n], WithNext(events, n, acked));
  }

  lemma OneMoreMap<V>(events: seq<Event<V>>, n: nat, done: seq<nat>)
    requires n < |events| && MayCount(events[n])
    ensures events[n].Transacted? && MapOf(events, done + [n]) == ApplyOps(MapOf(events, done), events[n].ops)
  {
    hide ApplyOps;
    assert (done + [n])[..|done|] == done && Last(done + [n]) == n;
  }

  lemma OneMoreDone<V>(events: seq<Event<V>>, n: nat, done: seq<nat>, acked: set<nat>)
    requires n < |events| && MayCount(events[n]) && IsHistory(events, n, done, acked)
    ensures IsHistory(events, n + 1, done + [n], WithNext(events, n, acked))
  {
    hide MayCount, Acknowledged;
    var more := done + [n];
    forall i | i in WithNext(events, n, acked) ensures i in more {
      if i == n { assert more[|done|] == n; } else { assert i in done; }
    }
  }

  /** In every state of every run, each version of the log and of the files that may come back is the map after some
      whole transactions in order, none that was refused, and of the acknowledged ones exactly those that are safe. */
  lemma {:induction false} RunHasHistory<V>(events: seq<Event<V>>, versions: seq<Durable<V>>, n: nat)
    requires |versions| == |events| + 1 && versions[0] == Durable([map[]], []) && n <= |events|
    requires forall k {:trigger versions[k]} :: 0 <= k < |versions| ==> versions[k].now != []
    requires forall k {:trigger events[k]} :: 0 <= k < |events| ==> AtomicStep(versions[k], events[k], versions[k + 1])
    ensures AllHave(events, n, versions[n].now, SafeAfter(events, n).now)
    ensures |SafeAfter(events, n).olds| == |versions[n].olds|
    ensures forall i {:trigger versions[n].olds[i]} :: 0 <= i < |versions[n].olds| ==>
              AllHave(events, n, versions[n].olds[i], SafeAfter(events, n).olds[i])
    decreases n
  {
    if n == 0 {
      assert IsHistory(events, 0, [], {}) && MapOf(events, []) == map[];
      assert HasHistory(events, 0, map[], {});
    } else {
      RunHasHistory(events, versions, n - 1);
      assert AtomicStep(versions[n - 1], events[n - 1], versions[n]);
      StepHasHistory(events, n - 1, versions[n - 1], versions[n]);
    }
  }

  lemma StepHasHistory<V>(events: seq<Event<V>>, n: nat, a: Durable<V>, a': Durable<V>)
    requires n < |events| && a.now != [] && AtomicStep(a, events[n], a')
    requires AllHave(events, n, a.now, SafeAfter(events, n).now) && |SafeAfter(events, n).olds| == |a.olds|
    requires forall i {:trigger a.olds[i]} :: 0 <= i < |a.olds| ==> AllHave(events, n, a.olds[i], SafeAfter(events, n).olds[i])
    ensures AllHave(events, n + 1, a'.now, SafeAfter(events, n + 1).now) && |SafeAfter(events, n + 1).olds| == |a'.olds|
    ensures forall i {:trigger a'.olds[i]} :: 0 <= i < |a'.olds| ==> AllHave(events, n + 1, a'.olds[i], SafeAfter(events, n + 1).olds[i])
  {
    var s := SafeAfter(events, n);
    LaterHistory(events, n, a.now, s.now);
    forall i | 0 <= i < |a.olds| ensures AllHave(events, n + 1, a.olds[i], s.olds[i]) { LaterHistory(events, n, a.olds[i], s.olds[i]); }
    hide AllHave, HasHistory, ApplyOps;
    match events[n]
    case Transacted(ops, r) =>
      if MayCount(events[n]) { LatestDone(events, n, a.now, s.now); }
    case Checkpointed(_, reached) =>
      LastOnly(events, n + 1, a.now, s.now);
      if reached == Changed {
        forall i | 0 <= i < |a'.olds| ensures AllHave(events, n + 1, a'.olds[i], SafeAfter(events, n + 1).olds[i]) {
          if i < |a.olds| { assert a'.olds[i] == a.olds[i]; }
        }
      }
    case PowerLost(_, None) => FewerHistories(events, n + 1, a.now, s.now, a'.now);
    case PowerLost(_, Some(i)) => FewerHistories(events, n + 1, a.olds[i], s.olds[i], a'.now);
    case Closed =>
    case Opened(_, reached) =>
      if reached == Changed {
        forall i | 0 <= i < |a'.olds| ensures AllHave(events, n + 1, a'.olds[i], SafeAfter(events, n + 1).olds[i]) {
          if i < |a.olds| { assert a'.olds[i] == a.olds[i]; }
        }
      }
  }

  lemma LastOnly<V>(events: seq<Event<V>>, n: nat, versions: Versions<V>, acked: set<nat>)
    requires versions != [] && AllHave(events, n, versions, acked)
    ensures AllHave(events, n, [Last(versions)], acked)
  {
    assert Last(versions) in versions;
  }

  /** The map after transaction n is the last version's, with transaction n done. */
  lemma LatestDone<V>(events: seq<Event<V>>, n: nat, versions: Versions<V>, acked: set<nat>)
    requires n < |events| && MayCount(events[n]) && versions != [] && AllHave(events, n, versions, acked)
    ensures AllHave(events, n + 1, [ApplyOps(Last(versions), events[n].ops)], WithNext(events, n, acked))
    ensures !Acknowledged(events[n]) ==> AllHave(events, n + 1, versions + [ApplyOps(Last(versions), events[n].ops)], acked)
  {
    var latest := ApplyOps(Last(versions), events[n].ops);
    assert Last(versions) in versions;
    NextHistory(events, n, Last(versions), acked);
    LaterHistory(events, n, versions, acked);
    if !Acknowledged(events[n]) {
      forall m | m in versions + [latest] ensures HasHistory(events, n + 1, m, acked) {
        if m in versions { assert HasHistory(events, n + 1, m, acked); }
      }
    }
  }

  // ── When an acknowledged transaction is safe ──

  /** For each thing that may come back, the checkpoint or the opening after which the log's name stood for another. */
  function ReplacedBy<V>(events: seq<Event<V>>, n: nat): seq<nat>
    requires n <= |events|
  {
    if n == 0 then []
    else
      var before := ReplacedBy(events, n - 1);
      match events[n - 1]
      case Checkpointed(_, Changed) => before + [n - 1]
      case Checkpointed(_, DirSynced) => []
      case Opened(_, Changed) => before + [n - 1]
      case Opened(_, DirSynced) => []
      case PowerLost(_, _) => []
      case _ => before
  }

  /** A loss of power brought back what the log's name had stood for before transaction i: an older file, or none. */
  ghost predicate Undone<V>(events: seq<Event<V>>, i: nat, n: nat)
    requires n <= |events|
  {
    exists j: nat :: i < j < n && BringsBack(events, i, j)
  }

  ghost predicate BringsBack<V>(events: seq<Event<V>>, i: nat, j: nat)
    requires j < |events|
  {
    match events[j]
    case PowerLost(_, Some(o)) => o >= |ReplacedBy(events, j)| || ReplacedBy(events, j)[o] < i
    case _ => false
  }

  /** What the name stood for until r holds transaction i if the log does and i came before r. */
  ghost predicate OldHolds<V>(events: seq<Event<V>>, i: nat, n: nat, r: nat, holds: set<nat>, now: set<nat>)
    requires n <= |events|
  {
    && r < n && (events[r].Checkpointed? || events[r].Opened?) && (forall j {:trigger events[j]} :: r <= j < n ==> !events[j].PowerLost?)
    && (i in holds <==> i < r && i in now)
  }

  /** Exactly the acknowledged transactions are safe that no loss of power undid by bringing back what the log's name had
      stood for before. */
  lemma {:induction false} SafeExactly<V>(events: seq<Event<V>>, i: nat, n: nat)
    requires n <= |events|
    ensures i in SafeAfter(events, n).now <==> i < n && Acknowledged(events[i]) && !Undone(events, i, n)
    ensures |ReplacedBy(events, n)| == |SafeAfter(events, n).olds|
    ensures forall o {:trigger ReplacedBy(events, n)[o]} :: 0 <= o < |ReplacedBy(events, n)| ==>
              OldHolds(events, i, n, ReplacedBy(events, n)[o], SafeAfter(events, n).olds[o], SafeAfter(events, n).now)
    decreases n
  {
    if n == 0 {
    } else {
      hide Undone, SafeAfter, ReplacedBy, OldHolds;
      SafeExactly(events, i, n - 1);
      UndoneStep(events, i, n);
      if events[n - 1].PowerLost? {
        PowerLostNow(events, i, n);
      } else {
        NowStays(events, i, n);
        OldsStay(events, i, n);
      }
    }
  }

  /** What a loss of power leaves safe: what is there anyway, or what comes back holds. */
  lemma PowerLostNow<V>(events: seq<Event<V>>, i: nat, n: nat)
    requires 0 < n <= |events| && events[n - 1].PowerLost?
    requires i in SafeAfter(events, n - 1).now ==> i < n - 1 && Acknowledged(events[i])
    requires |ReplacedBy(events, n - 1)| == |SafeAfter(events, n - 1).olds|
    requires var s, before := SafeAfter(events, n - 1), ReplacedBy(events, n - 1);
             forall o {:trigger before[o]} :: 0 <= o < |before| ==> OldHolds(events, i, n - 1, before[o], s.olds[o], s.now)
    ensures i in SafeAfter(events, n).now <==> i in SafeAfter(events, n - 1).now && !BringsBack(events, i, n - 1)
    ensures ReplacedBy(events, n) == [] && SafeAfter(events, n).olds == []
  {
    var s, before := SafeAfter(events, n - 1), ReplacedBy(events, n - 1);
    var t := SafeAfter(events, n);
    assert t == if events[n - 1].back.None? then Safe(s.now, [])
                else Safe(if events[n - 1].back.value < |s.olds| then s.olds[events[n - 1].back.value] else {}, []);
    hide SafeAfter, ReplacedBy;
    if events[n - 1].back.Some? && events[n - 1].back.value < |before| {
      var r := before[events[n - 1].back.value];
      assert events[r].Checkpointed? || events[r].Opened?;
    }
  }

  lemma NowStays<V>(events: seq<Event<V>>, i: nat, n: nat)
    requires 0 < n <= |events| && !events[n - 1].PowerLost?
    ensures i in SafeAfter(events, n).now
            <==> i in SafeAfter(events, n - 1).now || (i == n - 1 && Acknowledged(events[i]))
    ensures !BringsBack(events, i, n - 1)
  {
    hide ReplacedBy;
  }

  lemma OldsStay<V>(events: seq<Event<V>>, i: nat, n: nat)
    requires 0 < n <= |events| && !events[n - 1].PowerLost?
    requires |ReplacedBy(events, n - 1)| == |SafeAfter(events, n - 1).olds|
    requires i in SafeAfter(events, n - 1).now ==> i < n - 1
    requires var s, before := SafeAfter(events, n - 1), ReplacedBy(events, n - 1);
             forall o {:trigger before[o]} :: 0 <= o < |before| ==> OldHolds(events, i, n - 1, before[o], s.olds[o], s.now)
    ensures |ReplacedBy(events, n)| == |SafeAfter(events, n).olds|
    ensures forall o {:trigger ReplacedBy(events, n)[o]} :: 0 <= o < |ReplacedBy(events, n)| ==>
              OldHolds(events, i, n, ReplacedBy(events, n)[o], SafeAfter(events, n).olds[o], SafeAfter(events, n).now)
  {
    var s, before := SafeAfter(events, n - 1), ReplacedBy(events, n - 1);
    var t, after := SafeAfter(events, n), ReplacedBy(events, n);
    NoPowerLost(events, n);
    hide SafeAfter, ReplacedBy;
    forall o | 0 <= o < |after| ensures OldHolds(events, i, n, after[o], t.olds[o], t.now) {
      if o < |before| {
        assert after[o] == before[o] && t.olds[o] == s.olds[o];
        assert OldHolds(events, i, n - 1, before[o], s.olds[o], s.now);
      }
    }
  }

  /** What an event other than a loss of power does to the transactions that are safe, now and in what may come back. */
  lemma NoPowerLost<V>(events: seq<Event<V>>, n: nat)
    requires 0 < n <= |events| && !events[n - 1].PowerLost?
    ensures var s, before := SafeAfter(events, n - 1), ReplacedBy(events, n - 1);
            var t, after := SafeAfter(events, n), ReplacedBy(events, n);
            || (after == [] && t.olds == [])
            || (after == before && t.olds == s.olds && (t.now == s.now || t.now == s.now + {n - 1}))
            || (after == before + [n - 1] && t.olds == s.olds + [s.now] && t.now == s.now
                && (events[n - 1].Checkpointed? || events[n - 1].Opened?))
  {
  }

  lemma UndoneStep<V>(events: seq<Event<V>>, i: nat, n: nat)
    requires 0 < n <= |events|
    ensures Undone(events, i, n) <==> Undone(events, i, n - 1) || (i < n - 1 && BringsBack(events, i, n - 1))
    ensures Undone(events, i, n) ==> i < n - 1
  {
    hide BringsBack;
    if Undone(events, i, n) {
      var j: nat :| i < j < n && BringsBack(events, i, j);
      if j < n - 1 { assert Undone(events, i, n - 1); }
    }
  }

  /** When nothing comes back every acknowledged transaction is safe, whatever else happens. */
  lemma AcknowledgedSafe<V>(events: seq<Event<V>>, n: nat, i: nat)
    requires n <= |events| && forall j {:trigger events[j]} :: 0 <= j < n && events[j].PowerLost? ==> events[j].back.None?
    requires i < n && Acknowledged(events[i])
    ensures i in SafeAfter(events, n).now
  {
    SafeExactly(events, i, n);
  }

  /** A transaction acknowledged when nothing can come back is never undone: it is enough that the directory was synced, at
      any time before it, after the log's name last changed. */
  lemma SafeOnceSynced<V(!new)>(c: Codec<V>, schema: Schema<V>, states: seq<System<V>>, events: seq<Event<V>>, i: nat, n: nat)
    requires IsRun(c, schema, states, events) && i < n <= |events| && |states| == |events| + 1
    requires Acknowledged(events[i]) && Olds(states[i]) == []
    ensures i in SafeAfter(events, n).now
  {
    hide IsRun;
    SafeExactly(events, i, n);
    OldsAreReplaced(c, schema, states, events, i);
    forall j: nat | i < j < n ensures !BringsBack(events, i, j) {
      RunStep(c, schema, states, events, j);
      OldsAreReplaced(c, schema, states, events, j);
      ReplacedSince(events, i, j);
    }
  }

  lemma RunStep<V(!new)>(c: Codec<V>, schema: Schema<V>, states: seq<System<V>>, events: seq<Event<V>>, j: nat)
    requires IsRun(c, schema, states, events) && j < |events|
    ensures |states| == |events| + 1 && Next(c, schema, states[j], events[j], states[j + 1])
    ensures events[j].PowerLost? && events[j].back.Some? ==> events[j].back.value < |Olds(states[j])|
  {
    assert Next(c, schema, states[j], events[j], states[j + 1]);
  }

  lemma {:induction false} OldsAreReplaced<V(!new)>(
      c: Codec<V>, schema: Schema<V>, states: seq<System<V>>, events: seq<Event<V>>, n: nat)
    requires IsRun(c, schema, states, events) && n <= |events| && |states| == |events| + 1
    ensures |ReplacedBy(events, n)| == |Olds(states[n])|
  {
    hide *;
    if n == 0 {
      AtStart(c, schema, states, events);
    } else {
      OldsAreReplaced(c, schema, states, events, n - 1);
      RunStep(c, schema, states, events, n - 1);
      OldsStep(c, schema, states[n - 1], events[n - 1], states[n]);
      ReplacedStep(events, n);
    }
  }

  lemma AtStart<V(!new)>(c: Codec<V>, schema: Schema<V>, states: seq<System<V>>, events: seq<Event<V>>)
    requires IsRun(c, schema, states, events) && |states| == |events| + 1
    ensures |ReplacedBy(events, 0)| == |Olds(states[0])|
  {
    hide Next;
  }

  lemma ReplacedStep<V>(events: seq<Event<V>>, n: nat)
    requires 0 < n <= |events|
    ensures |ReplacedBy(events, n)| == MayComeBack(events[n - 1], |ReplacedBy(events, n - 1)|)
  {
  }

  /** How many things the log's name may stand for again, when before the event it was n. */
  function MayComeBack<V>(e: Event<V>, n: nat): nat {
    match e
    case Checkpointed(_, Changed) => n + 1
    case Checkpointed(_, DirSynced) => 0
    case Opened(_, Changed) => n + 1
    case Opened(_, DirSynced) => 0
    case PowerLost(_, _) => 0
    case _ => n
  }

  lemma OldsStep<V(!new)>(c: Codec<V>, schema: Schema<V>, s: System<V>, e: Event<V>, s': System<V>)
    requires Next(c, schema, s, e, s')
    ensures |Olds(s')| == MayComeBack(e, |Olds(s)|)
  {
    hide ReadLog, OpenData;
  }

  lemma {:induction false} ReplacedSince<V>(events: seq<Event<V>>, i: nat, n: nat)
    requires i <= n <= |events| && ReplacedBy(events, i) == []
    ensures forall k {:trigger ReplacedBy(events, n)[k]} :: 0 <= k < |ReplacedBy(events, n)| ==> i <= ReplacedBy(events, n)[k] < n
    decreases n
  {
    if n > i {
      ReplacedSince(events, i, n - 1);
      var before := ReplacedBy(events, n - 1);
      forall k | 0 <= k < |ReplacedBy(events, n)| ensures i <= ReplacedBy(events, n)[k] < n {
        if k < |before| { assert ReplacedBy(events, n)[k] == before[k]; }
      }
    }
  }

  /** What any reached state shows, in memory or when opened, is the map after some whole transactions in order,
      none that was refused, and of the acknowledged ones exactly those that are safe. */
  lemma RunShowsHistory<V(!new)>(c: Codec<V>, schema: Schema<V>, states: seq<System<V>>, events: seq<Event<V>>)
    returns (latest: seq<map<Bytes, V>>)
    requires Lawful(c) && schema(map[]) && IsRun(c, schema, states, events)
    ensures |latest| == |states|
    ensures forall j {:trigger latest[j]} :: 0 <= j < |states| ==>
              Shows(c, schema, states[j], latest[j]) && HasHistory(events, j, latest[j], SafeAfter(events, j).now)
  {
    hide Shows, HasHistory, AllInv, DurableOf, AtomicStep, IsRun;
    var versions, log, logs := RunRefines(c, schema, states, events);
    RunSized(c, schema, states, events);
    latest := seq(|states|, j requires 0 <= j < |states| => Last(versions[j].now));
    forall j | 0 <= j < |states| ensures HasHistory(events, j, latest[j], SafeAfter(events, j).now) {
      RunHasHistory(events, versions, j);
      assert latest[j] in versions[j].now;
    }
  }

  lemma RunSized<V(!new)>(c: Codec<V>, schema: Schema<V>, states: seq<System<V>>, events: seq<Event<V>>)
    requires IsRun(c, schema, states, events)
    ensures |states| == |events| + 1
  {
  }

  // ── An acknowledged transaction that is lost ──

  lemma {:induction false} ReservedIsLittle<V>(c: Codec<V>, ops: seq<Operation<V>>)
    ensures ReservedBytes(EncodeOps(c, ops)) <= 34 + 25 * |ops| + OpsBytes(c, ops)
    decreases |ops|
  {
    if ops != [] {
      var init := ops[..|ops| - 1];
      ReservedIsLittle(c, init);
      assert EncodeOps(c, ops)[..|ops| - 1] == EncodeOps(c, init);
    }
  }

  /** The limits on a transaction leave room for one in a new log. */
  lemma OneTransactionFits<V>(c: Codec<V>, ops: seq<Operation<V>>, id: u64)
    requires OpsAccepted(c, ops)
    ensures |MAGIC| + LogSize(TransactionRecords(id, EncodeOps(c, ops))) <= MAX_WAL_BYTES
  {
    ReservedIsLittle(c, ops);
    ReservationIsExact(id, EncodeOps(c, ops));
  }

  /** A checkpoint is renamed into place but its directory sync fails; the database is opened again and a transaction is
      acknowledged; then power is lost and the file from before the checkpoint comes back. */
  lemma OldFileReturns<V(!new)>(c: Codec<V>, schema: Schema<V>, ops: seq<Operation<V>>)
    returns (states: seq<System<V>>, events: seq<Event<V>>)
    requires Lawful(c) && schema(map[]) && OpsAccepted(c, ops) && AllText(c, ops) && schema(ApplyOps(map[], ops))
    ensures IsRun(c, schema, states, events) && |events| == 7
    ensures events[4] == Transacted(ops, Done(())) && states[5].Up? && states[5].live.data == ApplyOps(map[], ops)
    ensures states[7].Up? && !states[7].live.poisoned && states[7].live.data == map[]
  {
    hide ReadLog, ApplyOps, TransactionRecords, EncodeOps, OpsAccepted, OpenStep, Encode, TransactStep, CheckpointStep;
    var name, first := Present(MAGIC, |MAGIC|), [Present(MAGIC, |MAGIC|)];
    var checkpointed := NewLive<V>(first).(poisoned := true);
    states := [Down(Absent, []), Up(NewLive([])), Up(checkpointed), Down(name, first), Up(NewLive(first)),
               Up(OneDone(c, ops, first)), Down(name, []), Up(NewLive([]))];
    events := [Opened(Done(NewLive([])), DirSynced), Checkpointed(Failed(IoFailed), Changed), Closed,
               Opened(Done(NewLive(first)), Untouched), Transacted(ops, Done(())), PowerLost(|MAGIC|, Some(0)),
               Opened(Done(NewLive([])), Untouched)];
    NewLogOpens(c, schema, Absent, [], DirSynced);
    NewLogOpens(c, schema, name, first, Untouched);
    NewLogOpens(c, schema, name, [], Untouched);
    NotSynced(c);
    FirstTransaction(c, schema, ops, first);
    assert MAGIC[..|MAGIC|] == MAGIC;
    forall i | 0 <= i < |events| ensures Next(c, schema, states[i], events[i], states[i + 1]) {
    }
  }

  /** The log is created but its directory sync fails; the database is opened again, which syncs no directory, and a
      transaction is acknowledged; then power is lost and the directory without a log comes back. */
  lemma NewFileVanishes<V(!new)>(c: Codec<V>, schema: Schema<V>, ops: seq<Operation<V>>)
    returns (states: seq<System<V>>, events: seq<Event<V>>)
    requires Lawful(c) && schema(map[]) && OpsAccepted(c, ops) && AllText(c, ops) && schema(ApplyOps(map[], ops))
    ensures IsRun(c, schema, states, events) && |events| == 5 && forall e :: e in events ==> !e.Checkpointed?
    ensures events[2] == Transacted(ops, Done(())) && states[3].Up? && states[3].live.data == ApplyOps(map[], ops)
    ensures states[4] == Down(Absent, []) && states[5].Up? && !states[5].live.poisoned && states[5].live.data == map[]
  {
    hide ReadLog, ApplyOps, TransactionRecords, EncodeOps, OpsAccepted, OpenStep, Encode, TransactStep, CheckpointStep;
    var name, none := Present(MAGIC, |MAGIC|), [Absent];
    states := [Down(Absent, []), Down(name, none), Up(NewLive(none)), Up(OneDone(c, ops, none)), Down(Absent, []), Up(NewLive([]))];
    events := [Opened(Failed(IoFailed), Changed), Opened(Done(NewLive(none)), Untouched), Transacted(ops, Done(())),
               PowerLost(0, Some(0)), Opened(Done(NewLive([])), DirSynced)];
    CreatedOnly(c, schema);
    NewLogOpens(c, schema, name, none, Untouched);
    NewLogOpens(c, schema, Absent, [], DirSynced);
    FirstTransaction(c, schema, ops, none);
    forall i | 0 <= i < |events| ensures Next(c, schema, states[i], events[i], states[i + 1]) {
    }
  }

  lemma CreatedOnly<V(!new)>(c: Codec<V>, schema: Schema<V>)
    ensures OpenStep(c, schema, Absent, [], Present(MAGIC, |MAGIC|), Failed(IoFailed), Changed)
  {
  }

  lemma NewLogOpens<V(!new)>(c: Codec<V>, schema: Schema<V>, before: NamedLog, olds: seq<NamedLog>, reached: Reached)
    requires schema(map[]) && reached != Changed && before == if reached == DirSynced then Absent else Present(MAGIC, |MAGIC|)
    ensures var olds' := OldsAfter(olds, before, reached);
            OpenStep(c, schema, before, olds, Present(MAGIC, |MAGIC|), Done(NewLive(olds')), reached)
  {
    NewLogReads(c, schema, OldsAfter(olds, before, reached), Done(NewLive(OldsAfter(olds, before, reached))));
  }

  lemma NotSynced<V(!new)>(c: Codec<V>)
    ensures CheckpointStep(c, NewLive([]), NewLive([Present(MAGIC, |MAGIC|)]).(poisoned := true), Failed(IoFailed), Changed)
  {
    EmptyRewritten(c, NewLive([]), NewLive([Present(MAGIC, |MAGIC|)]).(poisoned := true));
  }

  /** A new log after one transaction. */
  function OneDone<V>(c: Codec<V>, ops: seq<Operation<V>>, olds: seq<NamedLog>): Live<V> {
    var bytes := Encode(TransactionRecords(1, EncodeOps(c, ops)));
    Live(MAGIC + bytes, |MAGIC + bytes|, |MAGIC| + |bytes|, ApplyOps(map[], ops), 2, false, olds)
  }

  lemma FirstTransaction<V(!new)>(c: Codec<V>, schema: Schema<V>, ops: seq<Operation<V>>, olds: seq<NamedLog>)
    requires OpsAccepted(c, ops) && schema(ApplyOps(map[], ops))
    ensures TransactStep(c, schema, NewLive(olds), OneDone(c, ops, olds), ops, Done(()))
  {
    hide TransactionRecords, EncodeOps, OpsAccepted, Encode, ApplyOps;
    OneTransactionFits(c, ops, 1);
  }

  lemma EmptyRewritten<V>(c: Codec<V>, s: Live<V>, s': Live<V>)
    requires s.data == s'.data == map[] && s'.file == MAGIC && s'.synced == |MAGIC|
    ensures Rewritten(c, [], s, s')
  {
    assert CheckpointRecords(c, [], s.nextId) == [] && MAGIC + Encode([]) == MAGIC;
  }
}
