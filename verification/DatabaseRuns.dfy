/** Every run of the database refines an atomic, durable map. */
module DatabaseRuns {
  import opened Wrappers
  import opened Keys
  import opened WalFormat
  import opened WalMeaning
  import opened TransactionLog
  import opened WriteAheadLog
  import opened DatabaseModel
  import opened Compaction
  import opened Database

  // A run is any order of openings, transactions, checkpoints and losses of power that keep any bytes beyond the durable
  // ones. A file that was created or renamed may lose its name again until the directory has been synced.

  /** The log on disk with no process using it, or a process with the database open. */
  datatype System<V> = Down(log: NamedLog, olds: seq<NamedLog>) | Up(live: Live<V>)

  /** What the log's name stands for. */
  function Named<V>(s: System<V>): NamedLog {
    if s.Up? then Present(s.live.file, s.live.synced) else s.log
  }

  /** A missing log has no bytes. */
  function File<V>(s: System<V>): Bytes {
    if Named(s).Present? then Named(s).file else []
  }

  function Synced<V>(s: System<V>): nat {
    if Named(s).Present? then Named(s).synced else 0
  }

  /** What the log's name may stand for after a loss of power. */
  function Olds<V>(s: System<V>): seq<NamedLog> {
    if s.Up? then s.live.olds else s.olds
  }

  /** What is left of a log when k of its bytes are. */
  function Cut(log: NamedLog, k: nat): NamedLog
    requires log.Present? ==> k <= |log.file|
  {
    if log.Present? then Present(log.file[..k], log.synced) else log
  }

  ghost predicate MayBeLeft(log: NamedLog, k: nat) {
    if log.Present? then log.synced <= k <= |log.file| else k == 0
  }

  datatype Event<V> =
    | Transacted(ops: seq<Operation<V>>, result: Outcome<()>)
    | Checkpointed(result: Outcome<()>, reached: Reached)
    | PowerLost(kept: nat, back: Option<nat>)
    | Closed
    | Opened(opening: Outcome<Live<V>>, directory: Reached)

  /** A process that dies is `Closed`; one that dies on the way through an operation has it failed first. */
  ghost predicate Next<V(!new)>(c: Codec<V>, schema: Schema<V>, s: System<V>, e: Event<V>, s': System<V>) {
    match e
    case Transacted(ops, r) => s.Up? && s'.Up? && AllText(c, ops) && TransactStep(c, schema, s.live, s'.live, ops, r)
    case Checkpointed(r, reached) => s.Up? && s'.Up? && CheckpointStep(c, s.live, s'.live, r, reached)
    case PowerLost(k, None) => MayBeLeft(Named(s), k) && s' == Down(Cut(Named(s), k), [])
    case PowerLost(k, Some(i)) => i < |Olds(s)| && MayBeLeft(Olds(s)[i], k) && s' == Down(Cut(Olds(s)[i], k), [])
    case Closed => s.Up? && s' == Down(Named(s), Olds(s))
    case Opened(r, reached) =>
      && s.Down? && OpenStep(c, schema, s.log, s.olds, Named(s'), r, reached)
      && (if r.Done? then s' == Up(r.value) else s'.Down? && s'.olds == OldsAfter(s.olds, s.log, reached))
  }

  /** A directory in which no log has been created yet. */
  ghost predicate IsNew<V>(s: System<V>) {
    s == Down(Absent, [])
  }

  // ── The specification: a map that changes by whole transactions ──

  /** The map that is durable, and the maps after each later transaction that a loss of power may still undo. */
  type Versions<V> = seq<map<Bytes, V>>

  /** The versions of the log, and those of what the log's name may stand for after a loss of power. */
  datatype Durable<V> = Durable(now: Versions<V>, olds: seq<Versions<V>>)

  ghost predicate AtomicStep<V>(a: Durable<V>, e: Event<V>, a': Durable<V>)
    requires a.now != []
  {
    match e
    case Transacted(ops, Done(_)) => a' == Durable([ApplyOps(Last(a.now), ops)], a.olds)
    case Transacted(ops, Failed(error)) =>
      a' == a || (error == WalError(Io) && a' == Durable(a.now + [ApplyOps(Last(a.now), ops)], a.olds))
    case Checkpointed(Done(_), reached) => reached == DirSynced && a' == Durable([Last(a.now)], [])
    case Checkpointed(Failed(_), Untouched) => a' == a
    case Checkpointed(Failed(_), Changed) => a' == Durable([Last(a.now)], a.olds + [a.now])
    case Checkpointed(Failed(_), DirSynced) => a' == Durable([Last(a.now)], [])
    case PowerLost(_, None) => a'.now != [] && a'.now <= a.now && a'.olds == []
    case PowerLost(_, Some(i)) => i < |a.olds| && a'.now != [] && a'.now <= a.olds[i] && a'.olds == []
    case Closed => a' == a
    case Opened(_, Untouched) => a' == a
    case Opened(_, Changed) => a' == Durable(a.now, a.olds + [a.now])
    case Opened(_, DirSynced) => a' == Durable(a.now, [])
  }

  // ── The invariant ──

  /** The number of whole records among the first k bytes of a file. */
  function Kept(log: seq<Record>, k: nat): (n: nat)
    ensures n <= |log|
  {
    if k < |MAGIC| then 0 else Whole(log, k - |MAGIC|)
  }

  /** The number of transactions committed within the first k bytes. */
  function CommittedBy(log: seq<Record>, k: nat): nat {
    |CommittedIn(log[..Kept(log, k)])|
  }

  /** The map after the first n committed transactions. */
  ghost function MapAfter<V>(c: Codec<V>, log: seq<Record>, n: nat): map<Bytes, V> {
    if n <= |CommittedIn(log)| && Replay(c, CommittedIn(log)[..n]).Some? then Replay(c, CommittedIn(log)[..n]).value else map[]
  }

  /** A log as the database writes it. */
  ghost predicate LogOk<V>(c: Codec<V>, log: seq<Record>) {
    && RecordsOk(log) && WellOrdered(log) && FaithfulLog(c, log) && IdsBelow(log, MAX_U64)
    && |MAGIC| + LogSize(log) <= MAX_WAL_BYTES
  }

  /** The versions from the durable one to the one in the file. */
  ghost function VersionsOf<V>(c: Codec<V>, s: System<V>, log: seq<Record>): (a: Versions<V>)
    requires CommittedBy(log, Synced(s)) <= CommittedBy(log, |File(s)|)
    ensures a != []
  {
    var first := CommittedBy(log, Synced(s));
    seq(CommittedBy(log, |File(s)|) - first + 1, i requires 0 <= i => MapAfter(c, log, first + i))
  }

  /** The file is the beginning of a good log; when the database is open and usable it is all of that log,
      and the memory is what the log means. */
  ghost predicate Inv<V>(c: Codec<V>, schema: Schema<V>, s: System<V>, log: seq<Record>) {
    && LogOk(c, log)
    && File(s) <= MAGIC + Encode(log) && Synced(s) <= |File(s)|
    && CommittedBy(log, Synced(s)) <= CommittedBy(log, |File(s)|)
    && (forall m :: m in VersionsOf(c, s, log) ==> schema(m))
    && (s.Up? && !s.live.poisoned ==> Agrees(c, s.live, log))
  }

  ghost predicate Agrees<V>(c: Codec<V>, live: Live<V>, log: seq<Record>) {
    && live.file == MAGIC + Encode(log) && live.length == |live.file|
    && IdsBelow(log, live.nextId) && live.data == MapAfter(c, log, |CommittedIn(log)|)
  }

  // ── Counting within files ──

  lemma {:induction false} WholeOfPrefix(log: seq<Record>, n: nat, k: nat)
    requires n <= |log| && k <= LogSize(log[..n])
    ensures Whole(log[..n], k) == Whole(log, k) <= n
    decreases |log|
  {
    if n > 0 {
      assert log[..n][1..] == log[1..][..n - 1];
      if k >= Size(log[0]) { WholeOfPrefix(log[1..], n - 1, k - Size(log[0])); }
    }
  }

  /** Cutting the log at a record changes nothing for the bytes before the cut. */
  lemma CommittedByPrefix(log: seq<Record>, n: nat, k: nat)
    requires n <= |log| && k <= |MAGIC| + LogSize(log[..n])
    ensures CommittedBy(log[..n], k) == CommittedBy(log, k) <= |CommittedIn(log[..n])|
  {
    if k >= |MAGIC| { WholeOfPrefix(log, n, k - |MAGIC|); }
    var kept := Kept(log, k);
    assert Kept(log[..n], k) == kept;
    assert log[..n][..kept] == log[..kept];
    CommittedPrefix(log, kept, n);
  }

  lemma CommittedByWhole(log: seq<Record>)
    ensures CommittedBy(log, |MAGIC| + LogSize(log)) == |CommittedIn(log)|
  {
    assert log[..|log|] == log;
    EndsRecordIsExact(log, LogSize(log), |log|);
  }

  lemma CommittedByGrows(log: seq<Record>, k: nat, k': nat)
    requires k <= k'
    ensures CommittedBy(log, k) <= CommittedBy(log, k') <= |CommittedIn(log)|
  {
    if k >= |MAGIC| {
      WholeFits(log, k - |MAGIC|, Whole(log, k - |MAGIC|));
      WholeFits(log, k' - |MAGIC|, Whole(log, k - |MAGIC|));
    }
    assert log[..|log|] == log;
    CommittedPrefix(log, Kept(log, k), Kept(log, k'));
    CommittedPrefix(log, Kept(log, k'), |log|);
  }

  /** A longer log has the same maps after the transactions of the shorter one. */
  lemma MapAfterPrefix<V>(c: Codec<V>, log: seq<Record>, j: nat, n: nat)
    requires j <= |log| && n <= |CommittedIn(log[..j])|
    ensures n <= |CommittedIn(log)| && MapAfter(c, log, n) == MapAfter(c, log[..j], n)
  {
    assert log[..|log|] == log;
    CommittedPrefix(log, j, |log|);
    assert CommittedIn(log)[..n] == CommittedIn(log[..j])[..n];
  }

  lemma LogReplays<V>(c: Codec<V>, log: seq<Record>, n: nat)
    requires LogOk(c, log) && n <= |CommittedIn(log)|
    ensures Replay(c, CommittedIn(log)[..n]) == Some(MapAfter(c, log, n))
  {
    CommittedAreFaithful(c, log);
    ReplayAllCost(c, CommittedIn(log));
    ReplayPrefix(c, CommittedIn(log), n);
  }

  lemma {:induction false} LogOkPrefix<V>(c: Codec<V>, log: seq<Record>, j: nat)
    requires LogOk(c, log) && j <= |log|
    ensures LogOk(c, log[..j])
  {
    PrefixesWellOrdered(log, j);
    LogGrows(log, j, |log|);
    assert log[..|log|] == log;
  }

  // ── Transactions ──

  lemma LogBytes(log: seq<Record>)
    ensures |MAGIC + Encode(log)| == |MAGIC| + LogSize(log)
  {
    EncodedSize(log);
  }

  lemma EncodedOpsFaithful<V(!new)>(c: Codec<V>, ops: seq<Operation<V>>, id: u64)
    requires Lawful(c) && AllText(c, ops) && (forall i :: 0 <= i < |ops| ==> OpAccepted(c, ops[i]))
    ensures FaithfulLog(c, TransactionRecords(id, EncodeOps(c, ops))) && RecordsOk(TransactionRecords(id, EncodeOps(c, ops)))
  {
    var ws := EncodeOps(c, ops);
    forall i {:trigger ws[i]} | 0 <= i < |ws| ensures Faithful(c, ws[i]) && WriteOk(ws[i]) {
      assert OpAccepted(c, ops[i]) && c.isText(ops[i].key);
    }
  }

  lemma JoinedLog<V>(c: Codec<V>, log: seq<Record>, more: seq<Record>)
    requires LogOk(c, log) && RecordsOk(more) && FaithfulLog(c, more)
    requires WellOrdered(log + more) && IdsBelow(log + more, MAX_U64)
    requires |MAGIC| + LogSize(log) + LogSize(more) <= MAX_WAL_BYTES
    ensures LogOk(c, log + more)
  {
    hide WellOrdered, IdsBelow;
    LogSizeConcat(log, more);
  }

  /** A transaction's records after a good log are a good log, and mean the operations done. */
  lemma AppendOps<V(!new)>(c: Codec<V>, log: seq<Record>, ops: seq<Operation<V>>, id: u64)
    requires Lawful(c) && LogOk(c, log) && IdsBelow(log, id) && id < MAX_U64
    requires OpsAccepted(c, ops) && AllText(c, ops)
    requires |MAGIC| + LogSize(log) + LogSize(TransactionRecords(id, EncodeOps(c, ops))) <= MAX_WAL_BYTES
    ensures var log' := log + TransactionRecords(id, EncodeOps(c, ops));
            && LogOk(c, log') && IdsBelow(log', id + 1)
            && |CommittedIn(log')| == |CommittedIn(log)| + 1
            && MapAfter(c, log', |CommittedIn(log)| + 1) == ApplyOps(MapAfter(c, log, |CommittedIn(log)|), ops)
  {
    hide Encode, LogSize, MapAfter, ApplyOps, WellOrdered, Replay, CommittedIn, FaithfulLog, RecordsOk,
         TransactionRecords;
    var ws := EncodeOps(c, ops);
    var n := |CommittedIn(log)|;
    LogReplays(c, log, n);
    assert CommittedIn(log)[..n] == CommittedIn(log);
    AppendedReplays(c, log, MapAfter(c, log, n), ops, id);
    AppendTransaction(log, id, ws);
    EncodedOpsFaithful(c, ops, id);
    var log' := log + TransactionRecords(id, ws);
    JoinedLog(c, log, TransactionRecords(id, ws));
    LogReplays(c, log', n + 1);
    assert CommittedIn(log')[..n + 1] == CommittedIn(log');
  }

  /** While a transaction is being appended, the file holds what it held, or in the end one transaction more. */
  lemma PartlyAppended(log: seq<Record>, id: u64, ws: seq<Write>, k: nat)
    requires WellOrdered(log) && Begin(id) !in log && |ws| <= MAX_TRANSACTION_OPERATIONS
    requires |MAGIC| + LogSize(log) <= k <= |MAGIC| + LogSize(log) + LogSize(TransactionRecords(id, ws))
    ensures var log' := log + TransactionRecords(id, ws);
            CommittedBy(log', k) == |CommittedIn(log)| || CommittedBy(log', k) == |CommittedIn(log)| + 1
  {
    hide TransactionRecords, CommittedIn, WellOrdered, LogSize;
    var log' := log + TransactionRecords(id, ws);
    EndRecords(id, ws);
    var kept := Kept(log', k);
    WholeFits(log', k - |MAGIC|, |log|);
    assert log'[..|log|] == log;
    if kept == |log'| {
      assert log'[..kept] == log';
      AppendTransaction(log, id, ws);
    } else {
      PartOfTransaction(log, id, ws, kept);
    }
  }

  /** The versions of a longer log over the same files. */
  lemma VersionsOfLonger<V>(c: Codec<V>, s: System<V>, log: seq<Record>, j: nat)
    requires j <= |log| && Synced(s) <= |File(s)| <= |MAGIC| + LogSize(log[..j])
    requires CommittedBy(log[..j], Synced(s)) <= CommittedBy(log[..j], |File(s)|)
    ensures CommittedBy(log, Synced(s)) <= CommittedBy(log, |File(s)|)
    ensures VersionsOf(c, s, log) == VersionsOf(c, s, log[..j])
  {
    CommittedByPrefix(log, j, Synced(s));
    CommittedByPrefix(log, j, |File(s)|);
    var first, last := CommittedBy(log, Synced(s)), CommittedBy(log, |File(s)|);
    forall n | first <= n <= last ensures MapAfter(c, log, n) == MapAfter(c, log[..j], n) { MapAfterPrefix(c, log, j, n); }
  }

  lemma LastVersion<V>(c: Codec<V>, s: System<V>, log: seq<Record>)
    requires CommittedBy(log, Synced(s)) <= CommittedBy(log, |File(s)|)
    ensures Last(VersionsOf(c, s, log)) == MapAfter(c, log, CommittedBy(log, |File(s)|))
  {
  }

  /** An open, usable database has the latest version in memory. */
  lemma MemoryIsLatest<V>(c: Codec<V>, schema: Schema<V>, s: System<V>, log: seq<Record>)
    requires Inv(c, schema, s, log) && s.Up? && !s.live.poisoned
    ensures s.live.data == Last(VersionsOf(c, s, log)) && |File(s)| == |MAGIC| + LogSize(log)
    ensures CommittedBy(log, |File(s)|) == |CommittedIn(log)|
  {
    LogBytes(log);
    CommittedByWhole(log);
    LastVersion(c, s, log);
  }

  lemma TransactDone<V(!new)>(
      c: Codec<V>, schema: Schema<V>, s: System<V>, log: seq<Record>, ops: seq<Operation<V>>, s': System<V>)
    returns (log': seq<Record>)
    requires Lawful(c) && Inv(c, schema, s, log) && Next(c, schema, s, Transacted(ops, Done(())), s')
    ensures Inv(c, schema, s', log') && VersionsOf(c, s', log') == [ApplyOps(Last(VersionsOf(c, s, log)), ops)]
  {
    hide Encode, LogSize, TransactionRecords, EncodeOps, LogOk, CommittedIn, ApplyOps, OpsAccepted, MapAfter,
         CommittedBy;
    var live := s.live;
    var t := TransactionRecords(live.nextId, EncodeOps(c, ops));
    log' := log + t;
    MemoryIsLatest(c, schema, s, log);
    AppendOps(c, log, ops, live.nextId);
    EncodeConcat(log, t);
    Associative(MAGIC, Encode(log), Encode(t));
    LogBytes(log');
    CommittedByWhole(log');
    assert VersionsOf(c, s', log') == [ApplyOps(live.data, ops)];
  }

  lemma TransactFailed<V(!new)>(
      c: Codec<V>, schema: Schema<V>, s: System<V>, log: seq<Record>, ops: seq<Operation<V>>, e: DbError, s': System<V>)
    returns (log': seq<Record>)
    requires Lawful(c) && Inv(c, schema, s, log) && Next(c, schema, s, Transacted(ops, Failed(e)), s')
    ensures Inv(c, schema, s', log')
    ensures VersionsOf(c, s', log') == VersionsOf(c, s, log)
            || (e == WalError(Io) && VersionsOf(c, s', log') == VersionsOf(c, s, log) + [ApplyOps(Last(VersionsOf(c, s, log)), ops)])
  {
    hide Encode, LogSize, TransactionRecords, EncodeOps, LogOk, CommittedIn, ApplyOps, OpsAccepted, MapAfter,
         CommittedBy;
    var live := s.live;
    if Refusal(c, schema, live, ops).Some? {
      log' := log;
    } else {
      var t := TransactionRecords(live.nextId, EncodeOps(c, ops));
      log' := log + t;
      MemoryIsLatest(c, schema, s, log);
      AppendOps(c, log, ops, live.nextId);
      EncodeConcat(log, t);
      Associative(MAGIC, Encode(log), Encode(t));
      EncodedSize(t);
      PartlyInFile(c, schema, s, log, ops, s');
    }
  }

  /** The versions after a transaction that stopped somewhere. */
  lemma PartlyInFile<V(!new)>(
      c: Codec<V>, schema: Schema<V>, s: System<V>, log: seq<Record>, ops: seq<Operation<V>>, s': System<V>)
    requires Lawful(c) && Inv(c, schema, s, log) && s.Up? && s'.Up? && !s.live.poisoned
    requires OpsAccepted(c, ops) && AllText(c, ops) && s.live.nextId < MAX_U64
    requires s.live.length + LogSize(TransactionRecords(s.live.nextId, EncodeOps(c, ops))) <= MAX_WAL_BYTES
    requires Synced(s') == Synced(s) && |File(s)| <= |File(s')|
    requires |File(s')| <= |File(s)| + LogSize(TransactionRecords(s.live.nextId, EncodeOps(c, ops)))
    ensures var log' := log + TransactionRecords(s.live.nextId, EncodeOps(c, ops));
            && CommittedBy(log', Synced(s')) <= CommittedBy(log', |File(s')|)
            && (VersionsOf(c, s', log') == VersionsOf(c, s, log)
                || VersionsOf(c, s', log') == VersionsOf(c, s, log) + [ApplyOps(s.live.data, ops)])
  {
    hide Encode, LogSize, TransactionRecords, EncodeOps, LogOk, CommittedIn, ApplyOps, OpsAccepted, MapAfter,
         CommittedBy, WellOrdered;
    var id, ws := s.live.nextId, EncodeOps(c, ops);
    var t := TransactionRecords(id, ws);
    var log' := log + t;
    MemoryIsLatest(c, schema, s, log);
    GoodLog(c, log, id);
    AppendOps(c, log, ops, id);
    assert log'[..|log|] == log;
    VersionsOfLonger(c, s, log', |log|);
    CommittedByPrefix(log', |log|, |File(s)|);
    CommittedByPrefix(log', |log|, Synced(s));
    AcceptedLength(c, ops);
    PartlyAppended(log, id, ws, |File(s')|);
    CommittedByGrows(log', |File(s)|, |File(s')|);
    hide VersionsOf, Inv;
    MoreVersions(c, s, s', log');
  }

  lemma MoreVersions<V>(c: Codec<V>, s: System<V>, s': System<V>, log: seq<Record>)
    requires Synced(s') == Synced(s) && CommittedBy(log, Synced(s)) <= CommittedBy(log, |File(s)|)
    requires var n := CommittedBy(log, |File(s)|);
             CommittedBy(log, |File(s')|) == n || CommittedBy(log, |File(s')|) == n + 1
    ensures var n := CommittedBy(log, |File(s)|);
            VersionsOf(c, s', log) == if CommittedBy(log, |File(s')|) == n then VersionsOf(c, s, log)
                                      else VersionsOf(c, s, log) + [MapAfter(c, log, n + 1)]
  {
    hide CommittedBy, MapAfter;
  }

  lemma GoodLog<V>(c: Codec<V>, log: seq<Record>, id: nat)
    requires LogOk(c, log) && IdsBelow(log, id)
    ensures WellOrdered(log) && (id <= MAX_U64 ==> Begin(id) !in log)
  {
  }

  lemma AcceptedLength<V>(c: Codec<V>, ops: seq<Operation<V>>)
    requires OpsAccepted(c, ops)
    ensures |EncodeOps(c, ops)| <= MAX_TRANSACTION_OPERATIONS
  {
  }

  // ── Crash, close and open ──

  lemma CrashStep<V(!new)>(c: Codec<V>, schema: Schema<V>, s: System<V>, log: seq<Record>, k: nat, s': System<V>)
    requires Inv(c, schema, s, log) && MayBeLeft(Named(s), k) && s' == Down(Cut(Named(s), k), [])
    ensures Inv(c, schema, s', log) && VersionsOf(c, s', log) <= VersionsOf(c, s, log)
  {
    CommittedByGrows(log, Synced(s), k);
    CommittedByGrows(log, k, |File(s)|);
    assert VersionsOf(c, s', log) <= VersionsOf(c, s, log);
  }

  /** Opening the file: refused as corrupt unless it ends with a whole record, and then the latest version. */
  lemma OpenedData<V(!new)>(c: Codec<V>, schema: Schema<V>, s: System<V>, log: seq<Record>)
    requires Inv(c, schema, s, log)
    ensures OpenData(c, schema, File(s)) ==
            if |File(s)| >= |MAGIC| && EndsRecord(log, |File(s)| - |MAGIC|) then Done(Last(VersionsOf(c, s, log)))
            else Failed(WalError(Corrupt))
    ensures OpenData(c, schema, File(s)).Done? ==>
              forall id: u64 {:trigger id in ReadLog(File(s)).value.seen} ::
                id in ReadLog(File(s)).value.seen ==> Begin(id) in log[..Kept(log, |File(s)|)]
    ensures OpenData(c, schema, File(s)).Done? ==>
              forall id: u64 {:trigger Begin(id)} ::
                Begin(id) in log[..Kept(log, |File(s)|)] ==> id in ReadLog(File(s)).value.seen
  {
    hide Encode, LogSize, ReadLog, CommittedIn, Whole, Replay, WellOrdered, MapAfter;
    var k := |File(s)|;
    LogBytes(log);
    assert File(s) == (MAGIC + Encode(log))[..k];
    RecoveryOfPrefix(log, k);
    LastVersion(c, s, log);
    if ReadLog(File(s)).Ok? {
      var kept := log[..Kept(log, k)];
      var n := |CommittedIn(kept)|;
      LogOkPrefix(c, log, Kept(log, k));
      LogReplays(c, kept, n);
      assert CommittedIn(kept)[..n] == CommittedIn(kept);
      MapAfterPrefix(c, log, Kept(log, k), n);
      assert Last(VersionsOf(c, s, log)) in VersionsOf(c, s, log);
    }
  }

  lemma {:induction false} IdsAreBegun(log: seq<Record>, bound: nat)
    requires WellOrdered(log) && forall id: u64 {:trigger Begin(id)} :: Begin(id) in log ==> id < bound
    ensures IdsBelow(log, bound)
  {
    forall i {:trigger log[i]} | 0 <= i < |log| ensures log[i].id < bound {
      assert Legal(log[..i], log[i]);
      assert Begin(log[i].id) in log;
    }
  }

  /** A file that ends with a whole record is the encoding of the records in it. */
  lemma WholeFile(log: seq<Record>, file: Bytes)
    requires file <= MAGIC + Encode(log) && |file| >= |MAGIC| && EndsRecord(log, |file| - |MAGIC|)
    ensures file == MAGIC + Encode(log[..Kept(log, |file|)])
    ensures |file| == |MAGIC| + LogSize(log[..Kept(log, |file|)])
  {
    hide Encode, LogSize, ReadLog, Whole;
    var n := Kept(log, |file|);
    assert log == log[..n] + log[n..];
    EncodeConcat(log[..n], log[n..]);
    EncodedSize(log[..n]);
    Associative(MAGIC, Encode(log[..n]), Encode(log[n..]));
    PrefixOfKnownLength(file, MAGIC + Encode(log[..n]), Encode(log[n..]));
  }

  lemma PrefixOfKnownLength(file: Bytes, a: Bytes, b: Bytes)
    requires file <= a + b && |file| == |a|
    ensures file == a
  {
    assert (a + b)[..|a|] == a;
  }

  /** A log that is there is opened. */
  lemma OpenedUp<V(!new)>(
      c: Codec<V>, schema: Schema<V>, s: System<V>, log: seq<Record>, olds: seq<NamedLog>, live: Live<V>)
    returns (log': seq<Record>)
    requires Inv(c, schema, s, log) && ReadStep(c, schema, File(s), Synced(s), olds, Done(live))
    ensures Inv(c, schema, Up(live), log') && VersionsOf(c, Up(live), log') == VersionsOf(c, s, log) && live.olds == olds
  {
    hide Encode, LogSize, LogOk, CommittedIn, MapAfter, CommittedBy, OpenData, ReadLog, Whole, WellOrdered, EndsRecord,
         ReadStep;
    OpenedData(c, schema, s, log);
    var n := Kept(log, |File(s)|);
    log' := log[..n];
    OpenedIds(c, schema, s, log, olds, Done(live));
    WholeFile(log, File(s));
    LogOkPrefix(c, log, n);
    CommittedByWhole(log');
    CommittedByPrefix(log, n, Synced(s));
    CommittedByPrefix(log, n, |File(s)|);
    VersionsOfLonger(c, s, log, n);
    LastVersion(c, s, log');
    assert VersionsOf(c, Up(live), log') == VersionsOf(c, s, log');
  }

  /** The ids in the file are below the next id. */
  lemma OpenedIds<V(!new)>(
      c: Codec<V>, schema: Schema<V>, s: System<V>, log: seq<Record>, olds: seq<NamedLog>, r: Outcome<Live<V>>)
    requires Inv(c, schema, s, log) && ReadStep(c, schema, File(s), Synced(s), olds, r)
    ensures r.Done? <==> OpenData(c, schema, File(s)).Done?
    ensures r.Done? ==> IdsBelow(log[..Kept(log, |File(s)|)], r.value.nextId)
    ensures r.Done? ==>
              r.value == Live(File(s), Synced(s), |File(s)|, OpenData(c, schema, File(s)).value, r.value.nextId, false, olds)
  {
    hide Encode, LogSize, CommittedIn, MapAfter, CommittedBy, ReadLog, WellOrdered;
    OpenedData(c, schema, s, log);
    if OpenData(c, schema, File(s)).Done? {
      var kept := log[..Kept(log, |File(s)|)];
      LogOkPrefix(c, log, Kept(log, |File(s)|));
      var seen := ReadLog(File(s)).value.seen;
      var largest: Option<u64> :| IsLargest(seen, largest)
                                  && r == if largest == Some(MAX_U64) then Failed(LimitReached)
                                          else Done(Live(File(s), Synced(s), |File(s)|, OpenData(c, schema, File(s)).value,
                                                         if largest.Some? then largest.value + 1 else 1, false, olds));
      if largest.Some? { assert Begin(largest.value) in kept; }
      forall id: u64 {:trigger Begin(id)} | Begin(id) in kept ensures id < r.value.nextId {
        assert id in seen;
      }
      IdsAreBegun(kept, r.value.nextId);
    }
  }

  lemma NothingCommitted<V>(c: Codec<V>, log: seq<Record>, k: nat)
    requires log == [] || k < |MAGIC|
    ensures CommittedBy(log, k) == 0 && MapAfter(c, log, 0) == map[]
  {
    assert log[..Kept(log, k)] == [] && CommittedIn([]) == [];
    assert CommittedIn(log)[..0] == [];
    assert Replay(c, []) == Some(map[]);
  }

  /** A missing log has one version, the empty map. */
  lemma AbsentVersions<V>(c: Codec<V>, schema: Schema<V>, s: System<V>, log: seq<Record>)
    requires Inv(c, schema, s, log) && Named(s).Absent?
    ensures VersionsOf(c, s, log) == [map[]] && schema(map[])
  {
    hide CommittedBy, MapAfter, LogOk, Agrees;
    NothingCommitted(c, log, 0);
    assert VersionsOf(c, s, log) == [map[]];
  }

  /** A log just created, perhaps not completely, has the same one. */
  lemma NewLogIsGood<V(!new)>(c: Codec<V>, schema: Schema<V>, s: System<V>)
    requires schema(map[]) && File(s) <= MAGIC && Synced(s) <= |File(s)|
    requires s.Up? ==> s.live == NewLive(s.live.olds)
    ensures Inv(c, schema, s, []) && VersionsOf(c, s, []) == [map[]]
  {
    hide CommittedBy, MapAfter;
    assert MAGIC + Encode([]) == MAGIC;
    NothingCommitted(c, [], Synced(s));
    NothingCommitted(c, [], |File(s)|);
    assert CommittedIn([]) == [] && LogOk(c, []);
    assert VersionsOf(c, s, []) == [map[]];
  }

  // ── Checkpoint ──

  /** The entries of the map of a good log can be written again, and fit. */
  lemma LiveEntries<V(!new)>(c: Codec<V>, log: seq<Record>)
    requires LogOk(c, log)
    ensures LiveOk(c, MapAfter(c, log, |CommittedIn(log)|))
    ensures Replay(c, CommittedIn(log)) == Some(MapAfter(c, log, |CommittedIn(log)|))
  {
    LogReplays(c, log, |CommittedIn(log)|);
    assert CommittedIn(log)[..|CommittedIn(log)|] == CommittedIn(log);
    CommittedAreFaithful(c, log);
    ReplayAllCost(c, CommittedIn(log));
  }

  lemma {:induction false} RewrittenFaithful<V(!new)>(c: Codec<V>, puts: seq<Operation<V>>, id: nat)
    requires Lawful(c) && AllText(c, puts) && id + Chunks(|puts|) <= MAX_U64
    requires forall i :: 0 <= i < |puts| ==> OpAccepted(c, puts[i])
    ensures FaithfulLog(c, CheckpointRecords(c, puts, id)) && RecordsOk(CheckpointRecords(c, puts, id))
    decreases |puts|
  {
    if puts != [] {
      var n := ChunkSize(|puts|);
      EncodedOpsFaithful(c, puts[..n], id);
      RewrittenFaithful(c, puts[n..], id + 1);
    }
  }

  /** The rewritten log is a good log that means the same map. */
  lemma RewrittenLog<V(!new)>(c: Codec<V>, log: seq<Record>, puts: seq<Operation<V>>, id: nat)
    requires Lawful(c) && LogOk(c, log) && id + Chunks(|puts|) <= MAX_U64
    requires Lists(puts, MapAfter(c, log, |CommittedIn(log)|))
    ensures var log' := CheckpointRecords(c, puts, id);
            && LogOk(c, log') && IdsBelow(log', id + Chunks(|puts|)) && LogSize(log') <= LogSize(log)
            && MapAfter(c, log', |CommittedIn(log')|) == MapAfter(c, log, |CommittedIn(log)|)
  {
    hide CheckpointRecords, WellOrdered, LogSize, FaithfulLog, RecordsOk, Lists, LiveOk, CommittedIn, Replay;
    var m := MapAfter(c, log, |CommittedIn(log)|);
    var log' := CheckpointRecords(c, puts, id);
    LiveEntries(c, log);
    ListedAccepted(c, puts, m);
    RewrittenFaithful(c, puts, id);
    CheckpointNeverGrows(c, log, puts, id);
    EmptyLog(c);
    CheckpointMeans(c, [], map[], puts, id);
    assert [] + log' == log';
    ListsGiveMap(puts, m);
    assert CommittedIn(log')[..|CommittedIn(log')|] == CommittedIn(log');
  }

  /** The rewritten log has one version, the map in memory. */
  lemma RewrittenVersions<V(!new)>(
      c: Codec<V>, schema: Schema<V>, s: System<V>, log: seq<Record>, puts: seq<Operation<V>>, s': System<V>)
    requires Lawful(c) && Inv(c, schema, s, log) && s.Up? && !s.live.poisoned && s'.Up? && Rewritten(c, puts, s.live, s'.live)
    requires s.live.data == Last(VersionsOf(c, s, log))
    requires !s'.live.poisoned ==> s'.live.length == |s'.live.file| && s'.live.nextId == s.live.nextId + Chunks(|puts|)
    ensures var log' := CheckpointRecords(c, puts, s.live.nextId);
            && Inv(c, schema, s', log') && VersionsOf(c, s', log') == [s.live.data]
  {
    hide Encode, LogSize, LogOk, CommittedIn, MapAfter, CommittedBy, CheckpointRecords, Lists, Chunks, IdsBelow;
    var log' := CheckpointRecords(c, puts, s.live.nextId);
    RewrittenLog(c, log, puts, s.live.nextId);
    LogBytes(log');
    CommittedByWhole(log');
    assert VersionsOf(c, s', log') == [s.live.data];
  }

  lemma CheckpointedStep<V(!new)>(
      c: Codec<V>, schema: Schema<V>, s: System<V>, log: seq<Record>, r: Outcome<()>, reached: Reached, s': System<V>)
    returns (log': seq<Record>)
    requires Lawful(c) && Inv(c, schema, s, log) && Next(c, schema, s, Checkpointed(r, reached), s')
    ensures Inv(c, schema, s', log')
    ensures VersionsOf(c, s', log') == if reached == Untouched then VersionsOf(c, s, log) else [Last(VersionsOf(c, s, log))]
  {
    hide Encode, LogSize, LogOk, CommittedIn, MapAfter, CommittedBy, CheckpointRecords, Lists, Chunks;
    if reached == Untouched {
      log' := log;
      assert VersionsOf(c, s', log) == VersionsOf(c, s, log);
    } else {
      var puts :| Rewritten(c, puts, s.live, s'.live)
                  && (r.Done? ==> s'.live.length == |s'.live.file| && s'.live.nextId == s.live.nextId + Chunks(|puts|));
      log' := CheckpointRecords(c, puts, s.live.nextId);
      MemoryIsLatest(c, schema, s, log);
      RewrittenVersions(c, schema, s, log, puts, s');
    }
  }

  /** On a database reached by any run a checkpoint can fail only for want of ids or by the environment:
      whatever the map, the rewritten log fits wherever the present one does. */
  lemma CheckpointFits<V(!new)>(c: Codec<V>, schema: Schema<V>, s: System<V>, log: seq<Record>)
    requires Lawful(c) && Inv(c, schema, s, log) && s.Up? && !s.live.poisoned
    requires s.live.nextId + Chunks(|s.live.data|) <= MAX_U64
    ensures CanCheckpoint(c, s.live, |File(s)|)
  {
    MemoryIsLatest(c, schema, s, log);
    LiveEntries(c, log);
    CommittedAreFaithful(c, log);
    ReplayAllCost(c, CommittedIn(log));
    ChunksWithin(|s.live.data|, |CommittedIn(log)|);
    CommittedFit(log);
  }

  // ── What may come back ──

  function AsDown<V>(o: NamedLog): System<V> {
    Down(o, [])
  }

  ghost predicate OldsOk<V>(c: Codec<V>, schema: Schema<V>, olds: seq<NamedLog>, logs: seq<seq<Record>>) {
    |logs| == |olds| && forall i {:trigger logs[i]} :: 0 <= i < |logs| ==> Inv(c, schema, AsDown(olds[i]), logs[i])
  }

  ghost predicate AllInv<V>(c: Codec<V>, schema: Schema<V>, s: System<V>, log: seq<Record>, logs: seq<seq<Record>>) {
    Inv(c, schema, s, log) && OldsOk(c, schema, Olds(s), logs)
  }

  ghost function DurableOf<V>(c: Codec<V>, schema: Schema<V>, s: System<V>, log: seq<Record>, logs: seq<seq<Record>>): (a: Durable<V>)
    requires AllInv(c, schema, s, log, logs)
    ensures a.now != []
  {
    hide LogOk, MapAfter, CommittedBy;
    Durable(VersionsOf(c, s, log), seq(|logs|, i requires 0 <= i < |logs| => VersionsOf(c, AsDown(Olds(s)[i]), logs[i])))
  }

  /** What the log's name no longer stands for is good, with the versions it had. */
  lemma Replaced<V>(c: Codec<V>, schema: Schema<V>, s: System<V>, log: seq<Record>, o: NamedLog)
    requires Inv(c, schema, s, log) && o == Named(s)
    ensures Inv(c, schema, AsDown(o), log) && VersionsOf(c, AsDown(o), log) == VersionsOf(c, s, log)
  {
    hide LogOk, MapAfter, CommittedBy, Agrees;
    assert VersionsOf(c, AsDown(o), log) == VersionsOf(c, s, log);
  }

  // ── Runs ──

  ghost predicate IsRun<V(!new)>(c: Codec<V>, schema: Schema<V>, states: seq<System<V>>, events: seq<Event<V>>) {
    && |states| == |events| + 1 && IsNew(states[0])
    && forall i {:trigger events[i]} :: 0 <= i < |events| ==> Next(c, schema, states[i], events[i], states[i + 1])
  }

  lemma NewIsGood<V(!new)>(c: Codec<V>, schema: Schema<V>, s: System<V>)
    requires IsNew(s) && schema(map[])
    ensures AllInv(c, schema, s, [], []) && DurableOf(c, schema, s, [], []) == Durable([map[]], [])
  {
    NewLogIsGood(c, schema, s);
  }

  lemma TransactRefines<V(!new)>(c: Codec<V>, schema: Schema<V>, s: System<V>, log: seq<Record>, logs: seq<seq<Record>>,
                                 ops: seq<Operation<V>>, r: Outcome<()>, s': System<V>)
    returns (log': seq<Record>)
    requires Lawful(c) && AllInv(c, schema, s, log, logs) && Next(c, schema, s, Transacted(ops, r), s')
    ensures AllInv(c, schema, s', log', logs)
    ensures AtomicStep(DurableOf(c, schema, s, log, logs), Transacted(ops, r), DurableOf(c, schema, s', log', logs))
  {
    assert Olds(s') == Olds(s);
    match r
    case Done(_) => log' := TransactDone(c, schema, s, log, ops, s');
    case Failed(error) => log' := TransactFailed(c, schema, s, log, ops, error, s');
    hide Inv, VersionsOf, Next, ApplyOps;
    assert DurableOf(c, schema, s', log', logs).olds == DurableOf(c, schema, s, log, logs).olds;
  }

  lemma CheckpointRefines<V(!new)>(c: Codec<V>, schema: Schema<V>, s: System<V>, log: seq<Record>, logs: seq<seq<Record>>,
                                   r: Outcome<()>, reached: Reached, s': System<V>)
    returns (log': seq<Record>, logs': seq<seq<Record>>)
    requires Lawful(c) && AllInv(c, schema, s, log, logs) && Next(c, schema, s, Checkpointed(r, reached), s')
    ensures AllInv(c, schema, s', log', logs')
    ensures AtomicStep(DurableOf(c, schema, s, log, logs), Checkpointed(r, reached), DurableOf(c, schema, s', log', logs'))
  {
    hide Inv, VersionsOf, Next, File, Synced, Olds, Named;
    log' := CheckpointedStep(c, schema, s, log, r, reached, s');
    CheckpointedOlds(c, schema, s, r, reached, s');
    var replaced := Named(s);
    match reached
    case Untouched =>
      logs' := logs;
      assert DurableOf(c, schema, s', log', logs').olds == DurableOf(c, schema, s, log, logs).olds;
    case Changed =>
      Replaced(c, schema, s, log, replaced);
      logs' := logs + [log];
      var a, a' := DurableOf(c, schema, s, log, logs), DurableOf(c, schema, s', log', logs');
      assert a'.olds == a.olds + [a.now];
    case DirSynced => logs' := [];
  }

  lemma CheckpointedOlds<V(!new)>(c: Codec<V>, schema: Schema<V>, s: System<V>, r: Outcome<()>, reached: Reached, s': System<V>)
    requires Next(c, schema, s, Checkpointed(r, reached), s')
    ensures r.Done? ==> reached == DirSynced
    ensures Olds(s') == OldsAfter(Olds(s), Named(s), reached)
  {
  }

  /** Power is lost: what was not durable may be gone, and what the log's name stood for before may be back. */
  lemma PowerLostRefines<V(!new)>(c: Codec<V>, schema: Schema<V>, s: System<V>, log: seq<Record>, logs: seq<seq<Record>>,
                                  k: nat, back: Option<nat>, s': System<V>)
    returns (log': seq<Record>)
    requires AllInv(c, schema, s, log, logs) && Next(c, schema, s, PowerLost(k, back), s')
    ensures AllInv(c, schema, s', log', [])
    ensures AtomicStep(DurableOf(c, schema, s, log, logs), PowerLost(k, back), DurableOf(c, schema, s', log', []))
  {
    hide Inv, VersionsOf;
    match back
    case None =>
      log' := log;
      CrashStep(c, schema, s, log, k, s');
    case Some(i) =>
      log' := logs[i];
      CrashStep(c, schema, AsDown(Olds(s)[i]), log', k, s');
  }

  lemma OpenRefines<V(!new)>(c: Codec<V>, schema: Schema<V>, s: System<V>, log: seq<Record>, logs: seq<seq<Record>>,
                             r: Outcome<Live<V>>, reached: Reached, s': System<V>)
    returns (log': seq<Record>, logs': seq<seq<Record>>)
    requires AllInv(c, schema, s, log, logs) && Next(c, schema, s, Opened(r, reached), s')
    ensures AllInv(c, schema, s', log', logs')
    ensures AtomicStep(DurableOf(c, schema, s, log, logs), Opened(r, reached), DurableOf(c, schema, s', log', logs'))
  {
    hide Inv, VersionsOf, Next, File, Synced, Olds, Named;
    log' := OpenedVersions(c, schema, s, log, r, reached, s');
    match reached
    case Untouched =>
      logs' := logs;
      assert DurableOf(c, schema, s', log', logs').olds == DurableOf(c, schema, s, log, logs).olds;
    case Changed =>
      Replaced(c, schema, s, log, Named(s));
      logs' := logs + [log];
      var a, a' := DurableOf(c, schema, s, log, logs), DurableOf(c, schema, s', log', logs');
      assert a'.olds == a.olds + [a.now];
    case DirSynced => logs' := [];
  }

  /** Opening changes no version of the log, and is refused only when the log is torn or the environment fails. */
  lemma OpenedVersions<V(!new)>(
      c: Codec<V>, schema: Schema<V>, s: System<V>, log: seq<Record>, r: Outcome<Live<V>>, reached: Reached, s': System<V>)
    returns (log': seq<Record>)
    requires Inv(c, schema, s, log) && Next(c, schema, s, Opened(r, reached), s')
    ensures Inv(c, schema, s', log') && VersionsOf(c, s', log') == VersionsOf(c, s, log)
    ensures Olds(s') == OldsAfter(Olds(s), Named(s), reached)
    ensures r.Failed? ==> r.error == IoFailed || r.error == WalError(if s.log.Present? then Corrupt else Io)
  {
    hide LogOk, MapAfter, CommittedBy, Agrees, OpenData;
    if s.log.Present? {
      OpenedData(c, schema, s, log);
      if r.Failed? && r.error != IoFailed { OpenedIds(c, schema, s, log, OldsAfter(s.olds, s.log, reached), r); }
      if r.Done? {
        log' := OpenedUp(c, schema, s, log, OldsAfter(s.olds, s.log, reached), r.value);
      } else {
        log' := log;
        assert VersionsOf(c, s', log) == VersionsOf(c, s, log);
      }
    } else if reached == Untouched {
      log' := log;
      assert VersionsOf(c, s', log) == VersionsOf(c, s, log);
    } else {
      log' := [];
      AbsentVersions(c, schema, s, log);
      NewLogReads(c, schema, [], r);
      NewLogIsGood(c, schema, s');
    }
  }

  lemma CloseRefines<V(!new)>(c: Codec<V>, schema: Schema<V>, s: System<V>, log: seq<Record>, logs: seq<seq<Record>>, s': System<V>)
    requires AllInv(c, schema, s, log, logs) && Next(c, schema, s, Closed, s')
    ensures AllInv(c, schema, s', log, logs)
    ensures AtomicStep(DurableOf(c, schema, s, log, logs), Closed, DurableOf(c, schema, s', log, logs))
  {
    hide LogOk, MapAfter, CommittedBy, Agrees;
    assert VersionsOf(c, s', log) == VersionsOf(c, s, log);
    hide Inv, VersionsOf;
    assert DurableOf(c, schema, s', log, logs).olds == DurableOf(c, schema, s, log, logs).olds;
  }

  lemma StepRefines<V(!new)>(c: Codec<V>, schema: Schema<V>, s: System<V>, log: seq<Record>, logs: seq<seq<Record>>,
                             e: Event<V>, s': System<V>)
    returns (log': seq<Record>, logs': seq<seq<Record>>)
    requires Lawful(c) && AllInv(c, schema, s, log, logs) && Next(c, schema, s, e, s')
    ensures AllInv(c, schema, s', log', logs')
    ensures AtomicStep(DurableOf(c, schema, s, log, logs), e, DurableOf(c, schema, s', log', logs'))
  {
    hide AllInv, Next, DurableOf, AtomicStep;
    log', logs' := log, logs;
    match e
    case Transacted(ops, r) => log' := TransactRefines(c, schema, s, log, logs, ops, r, s');
    case Checkpointed(r, reached) => log', logs' := CheckpointRefines(c, schema, s, log, logs, r, reached, s');
    case PowerLost(k, back) => log' := PowerLostRefines(c, schema, s, log, logs, k, back, s'); logs' := [];
    case Closed => CloseRefines(c, schema, s, log, logs, s');
    case Opened(r, reached) => log', logs' := OpenRefines(c, schema, s, log, logs, r, reached, s');
  }

  /** What a state shows of its latest version: an open, usable database has it in memory; opening
      the file of a closed one gives it, or refuses the file as corrupt; a missing log is the empty map. */
  ghost predicate Shows<V>(c: Codec<V>, schema: Schema<V>, s: System<V>, latest: map<Bytes, V>) {
    && (s.Up? && !s.live.poisoned ==> s.live.data == latest)
    && (if Named(s).Absent? then latest == map[]
        else OpenData(c, schema, File(s)) == Done(latest) || OpenData(c, schema, File(s)) == Failed(WalError(Corrupt)))
  }

  /** Every run refines the atomic, durable map. */
  lemma {:induction false} RunRefines<V(!new)>(
      c: Codec<V>, schema: Schema<V>, states: seq<System<V>>, events: seq<Event<V>>)
    returns (versions: seq<Durable<V>>, log: seq<Record>, logs: seq<seq<Record>>)
    requires Lawful(c) && schema(map[]) && IsRun(c, schema, states, events)
    ensures |versions| == |states| && versions[0] == Durable([map[]], [])
    ensures forall i {:trigger versions[i]} :: 0 <= i < |versions| ==>
              versions[i].now != [] && Shows(c, schema, states[i], Last(versions[i].now))
    ensures forall i {:trigger events[i]} :: 0 <= i < |events| ==> AtomicStep(versions[i], events[i], versions[i + 1])
    ensures AllInv(c, schema, Last(states), log, logs) && Last(versions) == DurableOf(c, schema, Last(states), log, logs)
    decreases |events|
  {
    hide AllInv, Next, DurableOf, AtomicStep, IsNew, OpenData, Shows;
    if events == [] {
      log, logs := [], [];
      NewIsGood(c, schema, states[0]);
      versions := [DurableOf(c, schema, states[0], log, logs)];
      StateShows(c, schema, states[0], log, logs);
    } else {
      var n := |events| - 1;
      var before, log0, logs0 := RunRefines(c, schema, states[..n + 1], events[..n]);
      assert Last(states[..n + 1]) == states[n] && events[..n + 1] == events;
      assert Next(c, schema, states[n], events[n], states[n + 1]);
      log, logs := StepRefines(c, schema, states[n], log0, logs0, events[n], states[n + 1]);
      versions := before + [DurableOf(c, schema, states[n + 1], log, logs)];
      StateShows(c, schema, states[n + 1], log, logs);
    }
  }

  lemma StateShows<V(!new)>(c: Codec<V>, schema: Schema<V>, s: System<V>, log: seq<Record>, logs: seq<seq<Record>>)
    requires AllInv(c, schema, s, log, logs)
    ensures Shows(c, schema, s, Last(DurableOf(c, schema, s, log, logs).now))
  {
    OpenedData(c, schema, s, log);
    if s.Up? && !s.live.poisoned { MemoryIsLatest(c, schema, s, log); }
    if Named(s).Absent? { AbsentVersions(c, schema, s, log); }
  }
}
