/** The document database: a map in memory, made durable by the write-ahead log.

    A transaction is checked, its size in the log computed and reserved, and then written; only after the sync
    does the map in memory change. A failure on the way leaves the object unusable until the log is opened again. */
module Database {
  import opened Wrappers
  import opened Keys
  import opened WalFormat
  import opened WalMeaning
  import opened WalLaws
  import opened TransactionLog
  import opened WriteAheadLog
  import opened DatabaseModel
  import opened Compaction

  datatype DbError = Poisoned | LimitReached | SchemaViolated | WalError(error: Error) | CorruptData | IoFailed
  datatype Outcome<+T> = Done(value: T) | Failed(error: DbError)

  /** What the log's name stands for in the directory: no file, or one of which some bytes are durable. */
  datatype NamedLog = Absent | Present(file: Bytes, synced: nat)

  /** Everything a database is: the log file under its name and how much of it is durable, the memory, and what the
      name stood for before; while the directory has not been synced since, a loss of power may bring that back. */
  datatype Live<V> = Live(file: Bytes, synced: nat, length: nat, data: map<Bytes, V>, nextId: u64, poisoned: bool, olds: seq<NamedLog>)

  /** What an operation did to the log's name: nothing; it stands for another file; it stands for its file for good. */
  datatype Reached = Untouched | Changed | DirSynced

  /** What a loss of power may bring back after that. */
  function OldsAfter(olds: seq<NamedLog>, before: NamedLog, reached: Reached): seq<NamedLog> {
    match reached
    case Untouched => olds
    case Changed => olds + [before]
    case DirSynced => []
  }

  type Schema<!V> = map<Bytes, V> -> bool

  /** Why a transaction is refused before anything is written. */
  function Refusal<V>(c: Codec<V>, schema: Schema<V>, s: Live<V>, ops: seq<Operation<V>>): Option<DbError> {
    if s.poisoned then Some(Poisoned)
    else if !OpsAccepted(c, ops) then Some(LimitReached)
    else if !schema(ApplyOps(s.data, ops)) then Some(SchemaViolated)
    else if s.length + LogSize(TransactionRecords(s.nextId, EncodeOps(c, ops))) > MAX_WAL_BYTES then Some(WalError(Limit))
    else if s.nextId == MAX_U64 then Some(LimitReached)
    else None
  }

  /** What a transaction does: nothing when refused; when done, the log grew by exactly its records and
      is durable, and the map has its operations; when it failed under way, some of its bytes were
      appended and the database is poisoned. */
  ghost predicate TransactStep<V>(
    c: Codec<V>, schema: Schema<V>, s: Live<V>, s': Live<V>, ops: seq<Operation<V>>, r: Outcome<()>)
  {
    var refusal := Refusal(c, schema, s, ops);
    if refusal.Some? then
      r == Failed(refusal.value) && s' == s
    else
      var bytes := Encode(TransactionRecords(s.nextId, EncodeOps(c, ops)));
      match r
      case Done(_) =>
        s' == Live(s.file + bytes, |s.file + bytes|, s.length + |bytes|, ApplyOps(s.data, ops), s.nextId + 1, false, s.olds)
      case Failed(e) =>
        e == WalError(Io) && s'.poisoned && s'.synced == s.synced && s'.data == s.data && s'.nextId == s.nextId
        && s.file <= s'.file <= s.file + bytes && s'.olds == s.olds
  }

  /** The log rewritten from the map. */
  ghost predicate Rewritten<V>(c: Codec<V>, puts: seq<Operation<V>>, s: Live<V>, s': Live<V>) {
    && Lists(puts, s.data) && InKeyOrder(puts) && s.nextId + Chunks(|puts|) <= MAX_U64
    && s'.file == MAGIC + Encode(CheckpointRecords(c, puts, s.nextId))
    && s'.synced == |s'.file| && s'.data == s.data
  }

  /** What a checkpoint does: nothing; or only poisoning the database; or putting the rewritten log
      in place of the old one, after which it is done, or failed and poisoned. The old file is out of
      the way only when the directory has been synced. */
  ghost predicate CheckpointStep<V(!new)>(c: Codec<V>, s: Live<V>, s': Live<V>, r: Outcome<()>, reached: Reached) {
    if s.poisoned then
      r == Failed(Poisoned) && s' == s && reached == Untouched
    else match reached
      case Untouched => r.Failed? && (s' == s || s' == s.(poisoned := true))
      case Changed =>
        && r.Failed? && s'.poisoned && s'.olds == OldsAfter(s.olds, Present(s.file, s.synced), Changed)
        && exists puts :: Rewritten(c, puts, s, s')
      case DirSynced =>
        s'.olds == [] && exists puts ::
          Rewritten(c, puts, s, s')
          && (if r.Done? then !s'.poisoned && s'.length == |s'.file| && s'.nextId == s.nextId + Chunks(|puts|) else s'.poisoned)
  }

  /** The map that a log file means to a database, or why it is refused. */
  function OpenData<V>(c: Codec<V>, schema: Schema<V>, file: Bytes): Outcome<map<Bytes, V>> {
    var log := ReadLog(file);
    if log.Err? then Failed(WalError(log.error))
    else
      var m := Replay(c, log.value.committed);
      if m.None? then Failed(CorruptData)
      else if !schema(m.value) then Failed(SchemaViolated)
      else Done(m.value)
  }

  /** What reading a log file gives: the map replayed from it, and an id above every id begun in it. */
  ghost predicate ReadStep<V>(c: Codec<V>, schema: Schema<V>, file: Bytes, synced: nat, olds: seq<NamedLog>, r: Outcome<Live<V>>) {
    match OpenData(c, schema, file)
    case Failed(e) => r == Failed(e)
    case Done(m) =>
      exists largest: Option<u64> {:trigger IsLargest(ReadLog(file).value.seen, largest)} ::
        && IsLargest(ReadLog(file).value.seen, largest)
        && r == if largest == Some(MAX_U64) then Failed(LimitReached)
                else Done(Live(file, synced, |file|, m, if largest.Some? then largest.value + 1 else 1, false, olds))
  }

  /** What opening a database does to the log's name. A log that is there is read; a missing one is created, and read when
      the directory has been synced, or else it stays missing, or is there, perhaps not completely. Afterwards the
      schema may have to be stored, which syncs the directory too; when that fails, opening fails. */
  ghost predicate OpenStep<V>(
    c: Codec<V>, schema: Schema<V>, before: NamedLog, olds: seq<NamedLog>, after: NamedLog, r: Outcome<Live<V>>, reached: Reached)
  {
    match before
    case Present(file, synced) =>
      && after == before && reached != Changed
      && (if r == Failed(IoFailed) then reached == Untouched && ReadsWell(c, schema, file)
          else ReadStep(c, schema, file, synced, OldsAfter(olds, before, reached), r) && (r.Failed? ==> reached == Untouched))
    case Absent =>
      match reached
      case Untouched => after == Absent && r == Failed(WalError(Io))
      case Changed =>
        && after.Present? && after.file <= MAGIC && after.synced <= |after.file|
        && (r == Failed(WalError(Io)) || (r == Failed(IoFailed) && after == Present(MAGIC, |MAGIC|)))
      case DirSynced =>
        && after == Present(MAGIC, |MAGIC|)
        && (if r == Failed(IoFailed) then ReadsWell(c, schema, MAGIC) else ReadStep(c, schema, MAGIC, |MAGIC|, [], r))
  }

  predicate ReadsWell<V>(c: Codec<V>, schema: Schema<V>, file: Bytes) {
    OpenData(c, schema, file).Done?
  }

  /** The file holds records, and its committed transactions have a write that cannot be read. */
  ghost predicate Unreadable<V>(c: Codec<V>, file: Bytes) {
    exists rs, w :: Holds(file, rs) && w in AllWrites(CommittedIn(rs)) && !Readable(c, w)
  }

  /** The next id is one above the largest id begun in the file, or 1. */
  ghost predicate NextIdOf(file: Bytes, next: u64) {
    next >= 1 && forall rs :: Holds(file, rs) ==>
      && (forall id: u64 {:trigger Record.Begin(id)} :: Record.Begin(id) in rs ==> id < next)
      && (next > 1 ==> Record.Begin(next - 1) in rs)
  }

  /** In the map a key has the value of the last committed write on it in the log, if that was a put. */
  ghost predicate MeansByLastWrite<V(!new)>(c: Codec<V>, file: Bytes, m: map<Bytes, V>) {
    exists rs :: Holds(file, rs) && Recorded(c, AllWrites(CommittedIn(rs)), m)
  }

  method ReplayInto<V>(c: Codec<V>, start: map<Bytes, V>, writes: seq<Write>) returns (r: Option<map<Bytes, V>>)
    ensures r == ReplayWrites(c, start, writes)
  {
    var m := start;
    for i := 0 to |writes|
      invariant ReplayWrites(c, start, writes[..i]) == Some(m)
    {
      assert writes[..i + 1][..i] == writes[..i];
      var next := ReplayWrite(c, m, writes[i]);
      if next.None? {
        ReplayStops(c, start, writes, i + 1);
        return None;
      }
      m := next.value;
    }
    assert writes[..|writes|] == writes;
    return Some(m);
  }

  lemma {:induction false} ReplayStops<V>(c: Codec<V>, m: map<Bytes, V>, writes: seq<Write>, i: nat)
    requires i <= |writes| && ReplayWrites(c, m, writes[..i]).None?
    ensures ReplayWrites(c, m, writes).None?
    decreases |writes| - i
  {
    if i < |writes| {
      assert writes[..i + 1][..i] == writes[..i];
      ReplayStops(c, m, writes, i + 1);
    } else {
      assert writes[..i] == writes;
    }
  }

  method ReplayAll<V>(c: Codec<V>, txns: seq<Transaction>) returns (r: Option<map<Bytes, V>>)
    ensures r == Replay(c, txns)
  {
    var m: map<Bytes, V> := map[];
    for i := 0 to |txns|
      invariant Replay(c, txns[..i]) == Some(m)
    {
      assert txns[..i + 1][..i] == txns[..i];
      var next := ReplayInto(c, m, txns[i].writes);
      if next.None? {
        if Replay(c, txns).Some? { ReplayPrefix(c, txns, i + 1); }
        return None;
      }
      m := next.value;
    }
    assert txns[..|txns|] == txns;
    return Some(m);
  }

  /** Opens the log under the database's name, or creates one and syncs the directory; `stores`: the schema is new.
      Whether the file can be created, has room and syncs, whether the directory syncs after that, and whether the
      schema can be stored, is up to the environment. */
  method Open<V(==,!new)>(codec: Codec<V>, schema: Schema<V>, name: NamedLog, ghost olds: seq<NamedLog>,
                          creates: bool, room: nat, syncs: bool, syncsDir: bool, stores: bool, storesSchema: bool)
    returns (r: Outcome<Database<V>>, ghost after: NamedLog, ghost reached: Reached)
    requires name.Present? ==> name.synced <= |name.file|
    ensures match r
            case Failed(e) => OpenStep(codec, schema, name, olds, after, Failed(e), reached)
            case Done(db) =>
              && fresh(db) && fresh(db.wal) && db.Valid() && db.codec == codec && db.schema == schema
              && OpenStep(codec, schema, name, olds, after, Done(db.View()), reached)
    ensures name.Absent? && schema(map[]) && creates && room >= |MAGIC| && syncs && syncsDir && (stores ==> storesSchema) ==> r.Done?
    ensures r.Done? ==> after.Present? && MeansByLastWrite(codec, after.file, r.value.data) && NextIdOf(after.file, r.value.nextId)
    ensures name.Present? ==> (r == Failed(CorruptData) <==> Unreadable(codec, name.file))
    ensures name.Present? && r.Failed? && r.error.WalError? ==> forall rs :: !Holds(name.file, rs)
    ensures stores && r.Done? ==> reached == DirSynced
    ensures name.Present? && !stores ==> reached == Untouched
  {
    hide ReadLog, OpenData, IsLargest, MeansByLastWrite, Holds, NextIdOf, Unreadable;
    if name.Absent? {
      if !creates { return Failed(WalError(Io)), Absent, Untouched; }
      if room < |MAGIC| { return Failed(WalError(Io)), Present(MAGIC[..room], 0), Changed; }
      if !syncs { return Failed(WalError(Io)), Present(MAGIC, 0), Changed; }
      if !syncsDir { return Failed(IoFailed), Present(MAGIC, |MAGIC|), Changed; }
    }
    var bytes, durable := if name.Present? then name.file else MAGIC, if name.Present? then name.synced else |MAGIC|;
    after := Present(bytes, durable);
    reached := if name.Present? then Untouched else DirSynced;
    r := Load(codec, schema, bytes, durable, OldsAfter(olds, name, if stores then DirSynced else reached), room, syncs);
    if name.Absent? && schema(map[]) && r.Failed? { NewLogReads(codec, schema, [], Failed(r.error)); }
    if r.Failed? || !stores { return; }
    if !storesSchema { return Failed(IoFailed), after, reached; }
    reached := DirSynced;
  }

  /** Reads a log file, and opens it for appending. */
  method Load<V(==,!new)>(codec: Codec<V>, schema: Schema<V>, bytes: Bytes, durable: nat, ghost olds: seq<NamedLog>,
                          room: nat, syncs: bool)
    returns (r: Outcome<Database<V>>)
    requires durable <= |bytes|
    ensures match r
            case Failed(e) => ReadStep(codec, schema, bytes, durable, olds, Failed(e)) && e != IoFailed
            case Done(db) =>
              && fresh(db) && fresh(db.wal) && db.Valid() && db.codec == codec && db.schema == schema
              && ReadStep(codec, schema, bytes, durable, olds, Done(db.View())) && ReadsWell(codec, schema, bytes)
              && MeansByLastWrite(codec, bytes, db.data) && NextIdOf(bytes, db.nextId)
    ensures r == Failed(CorruptData) <==> Unreadable(codec, bytes)
    ensures r.Failed? && r.error.WalError? ==> forall rs :: !Holds(bytes, rs)
  {
    hide ReadLog, Replay, Recorded, Holds, Readable, AllWrites;
    var recovered := Recover(bytes);
    if recovered.Err? { return Failed(WalError(recovered.error)); }
    var wal := new Wal.Open(bytes, durable, room, syncs);
    ghost var rs :| Holds(bytes, rs);
    assert Unreadable(codec, bytes) <==> exists w :: w in AllWrites(recovered.value.committed) && !Readable(codec, w) by {
      if w :| w in AllWrites(recovered.value.committed) && !Readable(codec, w) {
        assert Holds(bytes, rs) && w in AllWrites(CommittedIn(rs));
      }
    }
    var data := ReplayAll(codec, recovered.value.committed);
    LastWriteDecides(codec, recovered.value.committed);
    if data.None? { return Failed(CorruptData); }
    if !schema(data.value) { return Failed(SchemaViolated); }
    var maxId := recovered.value.maxId;
    assert IsLargest(ReadLog(bytes).value.seen, maxId);
    if maxId == Some(MAX_U64) { return Failed(LimitReached); }
    var nextId: u64 := if maxId.Some? then maxId.value + 1 else 1;
    var db := new Database(codec, schema, wal, data.value, nextId, olds);
    return Done(db);
  }

  /** A new log, just opened. */
  function NewLive<V>(olds: seq<NamedLog>): Live<V> {
    Live(MAGIC, |MAGIC|, |MAGIC|, map[], 1, false, olds)
  }

  lemma NewLogReads<V(!new)>(c: Codec<V>, schema: Schema<V>, olds: seq<NamedLog>, r: Outcome<Live<V>>)
    requires schema(map[])
    ensures OpenData(c, schema, MAGIC) == Done(map[])
    ensures ReadStep(c, schema, MAGIC, |MAGIC|, olds, r) <==> r == Done(NewLive(olds))
  {
    assert [] + MAGIC == MAGIC && MAGIC + Encode([]) == MAGIC;
    EmptyLog(c);
    RecoveryInvertsWriter([]);
    assert ReadLog(MAGIC).value.seen == {};
    assert IsLargest(ReadLog(MAGIC).value.seen, None);
  }

  class Database<V(==,!new)> {
    const codec: Codec<V>
    const schema: Schema<V>
    var wal: Wal
    var data: map<Bytes, V>
    var nextId: u64
    var poisoned: bool
    ghost var olds: seq<NamedLog>

    ghost predicate Valid()
      reads this, wal
    {
      wal.Valid()
    }

    ghost function View(): Live<V>
      reads this, wal
    {
      Live(wal.file, wal.synced, wal.length, data, nextId, poisoned, olds)
    }

    constructor (codec: Codec<V>, schema: Schema<V>, wal: Wal, data: map<Bytes, V>, nextId: u64, ghost olds: seq<NamedLog>)
      requires wal.Valid()
      ensures Valid() && this.codec == codec && this.schema == schema && this.wal == wal
      ensures View() == Live(wal.file, wal.synced, wal.length, data, nextId, false, olds)
    {
      this.codec := codec;
      this.schema := schema;
      this.wal := wal;
      this.data := data;
      this.nextId := nextId;
      this.poisoned := false;
      this.olds := olds;
    }

    /** `get`: the value now stored under a valid key. */
    method Get(key: Bytes) returns (r: Outcome<Option<V>>)
      ensures r.Done? <==> 1 <= |key| <= 0x1000 && 0 !in key
      ensures r == if !ValidKey(key) then Failed(LimitReached) else Done(if key in data then Some(data[key]) else None)
    {
      if !ValidKey(key) { return Failed(LimitReached); }
      return Done(if key in data then Some(data[key]) else None);
    }

    /** `list`: the entries, or those whose keys begin with a valid prefix, in the order of their keys. */
    method List(prefix: Option<Bytes>) returns (r: Outcome<seq<(Bytes, V)>>)
      ensures r.Done? <==> prefix.None? || (1 <= |prefix.value| <= 0x1000 && 0 !in prefix.value)
      ensures r.Failed? ==> r.error == LimitReached
      ensures r.Done? ==> ListsPrefix(r.value, data, if prefix.None? then [] else prefix.value)
    {
      if prefix.Some? && !ValidKey(prefix.value) { return Failed(LimitReached); }
      var p := if prefix.None? then [] else prefix.value;
      var puts := ListEntries(data);
      EntriesOf(puts, data);
      var found: seq<(Bytes, V)> := [];
      for i := 0 to |puts|
        invariant PartListed(found, puts, i, p)
      {
        if p <= puts[i].key {
          PartTaken(found, puts, i, p);
          found := found + [(puts[i].key, puts[i].value)];
        } else {
          PartSkipped(found, puts, i, p);
        }
      }
      AllListed(found, puts, data, p);
      return Done(found);
    }

    // ── Transactions ──

    /** Checks the operations one by one, and collects the new map and the encoded writes. */
    method Stage(ops: seq<Operation<V>>) returns (r: Outcome<(map<Bytes, V>, seq<Write>)>)
      ensures r.Done? <==> OpsAccepted(codec, ops)
      ensures r.Done? <==>
                && 1 <= |ops| <= 0x400 && OpsBytes(codec, ops) <= 0x80_0000
                && forall i :: 0 <= i < |ops| ==> && 1 <= |ops[i].key| <= 0x1000 && 0 !in ops[i].key
                                                  && (ops[i].Put? ==> |codec.encode(ops[i].value)| <= 0x10_0000)
      ensures r.Done? ==> r.value == (ApplyOps(data, ops), EncodeOps(codec, ops)) && Became(data, ops, r.value.0)
      ensures r.Failed? ==> r.error == LimitReached
    {
      if |ops| == 0 || |ops| > MAX_TRANSACTION_OPERATIONS { return Failed(LimitReached); }
      var candidate, encoded, total: nat := data, [], 0;
      for i := 0 to |ops|
        invariant forall j :: 0 <= j < i ==> OpAccepted(codec, ops[j])
        invariant candidate == ApplyOps(data, ops[..i]) && encoded == EncodeOps(codec, ops[..i]) && total == OpsBytes(codec, ops[..i])
      {
        var op := ops[i];
        if !OpAccepted(codec, op) { return Failed(LimitReached); }
        assert ops[..i + 1][..i] == ops[..i];
        candidate, total := ApplyOp(candidate, op), total + OpBytes(codec, op);
        encoded := encoded + [EncodeOp(codec, op)];
      }
      assert ops[..|ops|] == ops;
      if total > MAX_TRANSACTION_BYTES { return Failed(LimitReached); }
      LastOperationDecides(data, ops);
      return Done((candidate, encoded));
    }

    /** The bytes a transaction with these writes will append. */
    static method Reserve(writes: seq<Write>) returns (bytes: nat)
      ensures forall id: u64 :: bytes == LogSize(TransactionRecords(id, writes))
    {
      bytes := 34;
      for i := 0 to |writes|
        invariant bytes == ReservedBytes(writes[..i])
      {
        var payload := match writes[i] { case Put(k, v) => 8 + |k| + |v| case Delete(k) => |k| };
        assert writes[..i + 1][..i] == writes[..i];
        bytes := bytes + 17 + payload;
      }
      assert writes[..|writes|] == writes;
      forall id: u64 ensures bytes == LogSize(TransactionRecords(id, writes)) { ReservationIsExact(id, writes); }
    }

    static method AppendWrite(log: Wal, id: u64, write: Write) returns (r: Result<()>)
      requires log.Valid()
      modifies log`file, log`room, log`length
      ensures log.Valid() && log.Appended(old(log.file), old(log.length), old(log.room), Change(id, write), r)
    {
      match write {
        case Put(key, value) => r := log.Put(id, key, value);
        case Delete(key) => r := log.Delete(id, key);
      }
    }

    /** The begin record, the writes and the commit record, synced. */
    static method WriteLog(log: Wal, id: u64, writes: seq<Write>) returns (r: Result<()>)
      requires log.Valid()
      modifies log
      ensures log.Valid() && log.syncs == old(log.syncs)
      ensures WritesOk(writes) && old(log.length) + LogSize(TransactionRecords(id, writes)) <= MAX_WAL_BYTES ==>
                && (r.Ok? <==> LogSize(TransactionRecords(id, writes)) <= old(log.room) && log.syncs)
                && (r.Err? ==> r == Err(Io) && log.synced == old(log.synced))
                && log.file == old(log.file) + Taken(Encode(TransactionRecords(id, writes)), old(log.room))
      ensures r.Ok? ==>
                && LogSize(TransactionRecords(id, writes)) <= old(log.room)
                && log.file == old(log.file) + Encode(TransactionRecords(id, writes)) && log.synced == |log.file|
                && log.length == old(log.length) + LogSize(TransactionRecords(id, writes))
                && log.room == old(log.room) - LogSize(TransactionRecords(id, writes))
    {
      hide Encode, LogSize, Frame, Body;
      ghost var rs := TransactionRecords(id, writes);
      ghost var file0, length0, room0 := log.file, log.length, log.room;
      EndRecords(id, writes);
      StartOf(rs, file0);
      r := log.Begin(id);
      Advanced(log, file0, length0, room0, rs, 0, file0, length0, room0, r);
      if r.Err? { return; }
      for i := 0 to |writes|
        invariant At(log.file, log.length, log.room, file0, length0, room0, rs, i + 1)
        invariant log.Valid() && log.syncs == old(log.syncs) && log.synced == old(log.synced)
      {
        RecordOfWrite(id, writes, i);
        ghost var file1, length1, room1 := log.file, log.length, log.room;
        r := AppendWrite(log, id, writes[i]);
        Advanced(log, file0, length0, room0, rs, i + 1, file1, length1, room1, r);
        if r.Err? { return; }
      }
      ghost var file1, length1, room1 := log.file, log.length, log.room;
      r := log.Commit(id);
      CommitAdvanced(log, file0, length0, room0, rs, file1, length1, room1, r);
    }

    method Transaction(ops: seq<Operation<V>>) returns (r: Outcome<()>)
      requires Valid()
      modifies this, wal
      ensures Valid()
      ensures TransactStep(codec, schema, old(View()), View(), ops, r)
      ensures if r.Done? then Became(old(data), ops, data) else data == old(data)
      ensures r.Done? ==> !old(poisoned) && !poisoned && nextId == old(nextId) + 1 && wal.synced == |wal.file|
      ensures r.Failed? && wal.file != old(wal.file) ==> poisoned
      ensures Refusal(codec, schema, old(View()), ops).None? ==>
                (r.Done? <==> LogSize(TransactionRecords(old(nextId), EncodeOps(codec, ops))) <= old(wal.room) && old(wal.syncs))
    {
      hide Encode, LogSize, TransactionRecords, ApplyOps, EncodeOps, Became;
      if poisoned { return Failed(Poisoned); }
      var staged := Stage(ops);
      if staged.Failed? { return Failed(staged.error); }
      var candidate, encoded := staged.value.0, staged.value.1;
      if !schema(candidate) { return Failed(SchemaViolated); }
      var bytes := Reserve(encoded);
      var capacity := wal.EnsureCapacity(bytes);
      if capacity.Err? { return Failed(WalError(capacity.error)); }
      var id := nextId;
      if id == MAX_U64 { return Failed(LimitReached); }
      EncodedWritesOk(codec, ops);
      EncodedSize(TransactionRecords(id, encoded));
      poisoned := true;
      var written := WriteLog(wal, id, encoded);
      if written.Err? { return Failed(WalError(written.error)); }
      poisoned := false;
      data := candidate;
      nextId := id + 1;
      return Done(());
    }

    // ── Checkpoint ──

    /** Rewrites the log in a staging file, renames it over the log and opens it. Whether the file can
        be created, has room and syncs, and whether the rename and the directory sync succeed, is up to
        the environment. */
    method Checkpoint(creates: bool, room: nat, syncs: bool, renames: bool, syncsDir: bool)
      returns (r: Outcome<()>, ghost reached: Reached)
      requires Valid()
      modifies this
      ensures Valid()
      ensures CheckpointStep(codec, old(View()), View(), r, reached)
      ensures CanCheckpoint(codec, old(View()), room) && creates && syncs && renames && syncsDir ==> r.Done?
      ensures data == old(data) && (old(poisoned) ==> r == Failed(Poisoned))
      ensures reached != Untouched ==> wal.synced == |wal.file| && poisoned == r.Failed?
      ensures r.Done? ==> wal.length == |wal.file| && nextId == old(nextId) + (|data| + 1023) / 1024
    {
      hide Encode, LogSize, CheckpointRecords, ReadLog, RewrittenSize, LiveOk, Chunks;
      reached := Untouched;
      ChunksIsCeiling(|data|);
      if poisoned { return Failed(Poisoned), reached; }
      if !creates || room < |MAGIC| || !syncs { return Failed(WalError(Io)), reached; }
      var staging := new Wal.Create(room, syncs);
      var puts := ListEntries(data);
      var next, failure := StageCheckpoint(staging, puts);
      if failure.Some? { return Failed(failure.value), reached; }
      r, reached := Replace(staging, next, puts, renames, syncsDir);
    }

    /** The staged file takes the log's name, and then for good. */
    method Replace(staging: Wal, next: u64, ghost puts: seq<Operation<V>>, renames: bool, syncsDir: bool)
      returns (r: Outcome<()>, ghost reached: Reached)
      requires Valid() && !poisoned && staging.Valid() && Lists(puts, data) && InKeyOrder(puts)
      requires nextId + Chunks(|puts|) <= MAX_U64 && next == nextId + Chunks(|puts|)
      requires staging.file == MAGIC + Encode(CheckpointRecords(codec, puts, nextId)) && staging.synced == |staging.file|
      modifies this
      ensures Valid()
      ensures CheckpointStep(codec, old(View()), View(), r, reached)
      ensures Lawful(codec) && LiveOk(codec, data) && |MAGIC| + RewrittenSize(codec, data) <= MAX_WAL_BYTES && renames && syncsDir ==> r.Done?
    {
      hide Encode, LogSize, CheckpointRecords, ReadLog, RewrittenSize, LiveOk, Lists, Chunks, InKeyOrder, Holds;
      poisoned := true;
      if !renames { return Failed(IoFailed), Untouched; }
      // A poisoned database does not use its old handle again.
      CheckpointReadable(codec, puts, data, nextId);
      olds := OldsAfter(olds, Present(wal.file, wal.synced), Changed);
      wal := staging;
      assert Rewritten(codec, puts, old(View()), View());
      if !syncsDir { return Failed(IoFailed), Changed; }
      olds := [];
      assert Rewritten(codec, puts, old(View()), View());
      var recovered := Recover(wal.file);
      if recovered.Err? { return Failed(WalError(recovered.error)), DirSynced; }
      wal := new Wal.Open(wal.file, wal.synced, wal.room, wal.syncs);
      nextId := next;
      poisoned := false;
      assert Rewritten(codec, puts, old(View()), View());
      return Done(()), DirSynced;
    }

    method StageChunk(staging: Wal, id: u64, chunk: seq<Operation<V>>, ghost room: nat, ghost rs: seq<Record>)
      returns (failure: Option<DbError>)
      requires staging != wal && Staged(staging, room, rs)
      modifies staging
      ensures failure.None? ==> Staged(staging, room, rs + TransactionRecords(id, EncodeOps(codec, chunk)))
      ensures WritesOk(EncodeOps(codec, chunk)) && Fits(LogSize(rs + TransactionRecords(id, EncodeOps(codec, chunk))), room) ==>
                failure.None?
    {
      var writes := EncodeOps(codec, chunk);
      StagedNext(rs, TransactionRecords(id, writes));
      var written := WriteLog(staging, id, writes);
      failure := if written.Err? then Some(WalError(written.error)) else None;
    }

    /** One transaction for every 1024 entries. */
    method StageCheckpoint(staging: Wal, puts: seq<Operation<V>>) returns (next: u64, failure: Option<DbError>)
      requires staging.Valid() && staging != wal && Lists(puts, data)
      requires staging.file == MAGIC && staging.synced == staging.length == |MAGIC| && staging.syncs
      modifies staging
      ensures failure.None? ==>
                && staging.Valid() && staging.syncs && nextId + Chunks(|puts|) <= MAX_U64 && next == nextId + Chunks(|puts|)
                && staging.file == MAGIC + Encode(CheckpointRecords(codec, puts, nextId)) && staging.synced == |staging.file|
      ensures LiveOk(codec, data) && nextId + Chunks(|puts|) <= MAX_U64 && Fits(RewrittenSize(codec, data), old(staging.room)) ==>
                failure.None?
    {
      hide Encode, LogSize, CheckpointRecords, TransactionRecords, RewrittenSize;
      ghost var room := staging.room;
      ghost var rs := [];
      next := nextId;
      failure := None;
      var i := 0;
      NothingStaged(codec, puts, nextId);
      while i < |puts|
        invariant failure.None? && PartStaged(codec, puts, i, nextId, next, rs) && Staged(staging, room, rs)
      {
        var n := ChunkSize(|puts| - i);
        var id := next;
        if id == MAX_U64 {
          PartIsProper(codec, puts, i, nextId, id, rs);
          return next, Some(LimitReached);
        }
        next := id + 1;
        PartNext(codec, puts, i, nextId, id, rs);
        ghost var rs' := rs + TransactionRecords(id, EncodeOps(codec, puts[i..i + n]));
        PartFits(codec, puts, data, i + n, nextId, next, rs');
        ChunkOk(codec, puts, data, i, i + n);
        failure := StageChunk(staging, id, puts[i..i + n], room, rs);
        if failure.Some? { return; }
        i, rs := i + n, rs';
      }
      assert puts[..i] == puts;
    }
  }

  /** Nothing but the environment can make a checkpoint fail: every entry can be written, there are ids
      left, and the rewritten log fits. */
  ghost predicate CanCheckpoint<V(!new)>(c: Codec<V>, s: Live<V>, room: nat) {
    && Lawful(c) && !s.poisoned && LiveOk(c, s.data) && s.nextId + Chunks(|s.data|) <= MAX_U64
    && room >= |MAGIC| && Fits(RewrittenSize(c, s.data), room - |MAGIC|)
  }

  predicate Fits(bytes: nat, room: nat) {
    |MAGIC| + bytes <= MAX_WAL_BYTES && bytes <= room
  }

  /** The staged records are in the staging file, and durable. */
  ghost predicate Staged(log: Wal, room: nat, rs: seq<Record>)
    reads log
  {
    && log.Valid() && log.syncs && log.file == MAGIC + Encode(rs) && log.synced == |log.file|
    && log.length == |MAGIC| + LogSize(rs) && LogSize(rs) <= room && log.room == room - LogSize(rs)
  }

  /** The records staged for the first i entries, from the first id up to the next one. */
  ghost predicate PartStaged<V>(c: Codec<V>, puts: seq<Operation<V>>, i: nat, id: nat, next: nat, rs: seq<Record>) {
    && i <= |puts| && (i < |puts| ==> WholeChunks(i)) && id + Chunks(i) == next <= MAX_U64
    && rs == CheckpointRecords(c, puts[..i], id)
  }

  lemma NothingStaged<V>(c: Codec<V>, puts: seq<Operation<V>>, id: u64)
    ensures PartStaged(c, puts, 0, id, id, [])
    ensures MAGIC + Encode([]) == MAGIC && LogSize([]) == 0
  {
  }

  lemma PartIsProper<V>(c: Codec<V>, puts: seq<Operation<V>>, i: nat, id: nat, next: nat, rs: seq<Record>)
    requires PartStaged(c, puts, i, id, next, rs) && i < |puts|
    ensures id + Chunks(|puts|) > next
  {
    NextChunkSize(i, |puts|);
  }

  lemma PartNext<V>(c: Codec<V>, puts: seq<Operation<V>>, i: nat, id: nat, next: u64, rs: seq<Record>)
    requires PartStaged(c, puts, i, id, next, rs) && i < |puts| && next < MAX_U64
    ensures var n := ChunkSize(|puts| - i);
            PartStaged(c, puts, i + n, id, next + 1, rs + TransactionRecords(next, EncodeOps(c, puts[i..i + n])))
  {
    NextChunkSize(i, |puts|);
    ChunkAt(c, puts, i, id);
  }

  lemma PartFits<V>(c: Codec<V>, puts: seq<Operation<V>>, m: map<Bytes, V>, i: nat, id: nat, next: nat, rs: seq<Record>)
    requires PartStaged(c, puts, i, id, next, rs) && Lists(puts, m)
    ensures LogSize(rs) <= RewrittenSize(c, m)
  {
    PartOfCheckpoint(c, puts, m, i, id);
  }

  lemma StagedNext(rs: seq<Record>, more: seq<Record>)
    ensures MAGIC + Encode(rs) + Encode(more) == MAGIC + Encode(rs + more)
    ensures LogSize(rs + more) == LogSize(rs) + LogSize(more)
  {
    EncodeConcat(rs, more);
    LogSizeConcat(rs, more);
    Associative(MAGIC, Encode(rs), Encode(more));
  }

  lemma ChunkOk<V>(c: Codec<V>, puts: seq<Operation<V>>, m: map<Bytes, V>, i: nat, j: nat)
    requires Lists(puts, m) && i <= j <= |puts|
    ensures LiveOk(c, m) ==> WritesOk(EncodeOps(c, puts[i..j]))
  {
  }

  lemma EmptyLog<V>(c: Codec<V>)
    ensures WellOrdered([]) && CommittedIn([]) == [] && Replay(c, CommittedIn([])) == Some(map[])
  {
  }

  lemma ListedAccepted<V>(c: Codec<V>, puts: seq<Operation<V>>, m: map<Bytes, V>)
    requires Lists(puts, m) && LiveOk(c, m)
    ensures AllText(c, puts) && forall i :: 0 <= i < |puts| ==> OpAccepted(c, puts[i])
  {
    forall i | 0 <= i < |puts| ensures OpAccepted(c, puts[i]) && c.isText(puts[i].key) { assert puts[i].key in m; }
  }

  lemma CheckpointReadable<V(!new)>(c: Codec<V>, puts: seq<Operation<V>>, m: map<Bytes, V>, id: nat)
    requires Lists(puts, m) && id + Chunks(|puts|) <= MAX_U64
    ensures Lawful(c) && LiveOk(c, m) && |MAGIC| + RewrittenSize(c, m) <= MAX_WAL_BYTES ==>
              ReadLog(MAGIC + Encode(CheckpointRecords(c, puts, id))).Ok?
  {
    hide Encode, LogSize, ReadLog, CheckpointRecords, RewrittenSize, WellOrdered, LiveOk, Lists, Chunks, Lawful,
         CommittedIn, RecordsOk, Replay, AllText;
    if Lawful(c) && LiveOk(c, m) && |MAGIC| + RewrittenSize(c, m) <= MAX_WAL_BYTES {
      var rs := CheckpointRecords(c, puts, id);
      EmptyLog(c);
      ListedAccepted(c, puts, m);
      CheckpointMeans(c, [], map[], puts, id);
      assert [] + rs == rs;
      RewrittenRecordsOk(c, puts, id);
      PartOfCheckpoint(c, puts, m, |puts|, id);
      assert puts[..|puts|] == puts;
      EncodedSize(rs);
      RecoveryInvertsWriter(rs);
    }
  }

  // ── The entries in key order ──

  ghost predicate IsLeast(k: Bytes, keys: set<Bytes>) {
    k in keys && forall other {:trigger Rank(other)} :: other in keys ==> Rank(k) <= Rank(other)
  }

  lemma {:induction false} LeastByRank(keys: set<Bytes>)
    requires keys != {}
    ensures exists k :: IsLeast(k, keys)
    decreases |keys|
  {
    var k0 :| k0 in keys;
    var rest := keys - {k0};
    if rest == {} {
      forall other | other in keys ensures other == k0 { assert other !in rest; }
      assert IsLeast(k0, keys);
    } else {
      LeastByRank(rest);
      var k1 :| IsLeast(k1, rest);
      assert forall other :: other in keys ==> other == k0 || other in rest;
      if Rank(k0) > Rank(k1) {
        assert IsLeast(k1, keys);
      } else {
        assert IsLeast(k0, keys);
      }
    }
  }

  lemma LeastExists(keys: set<Bytes>)
    requires keys != {}
    ensures exists k :: k in keys && forall other :: other in keys ==> Compare(k, other) != Greater
  {
    LeastByRank(keys);
    var k :| IsLeast(k, keys);
    forall other | other in keys ensures Compare(k, other) != Greater { CompareIsRankOrder(k, other); }
  }

  ghost predicate InKeyOrder<V>(puts: seq<Operation<V>>) {
    forall i, j :: 0 <= i < j < |puts| ==> LexBefore(puts[i].key, puts[j].key)
  }

  /** The entries of a map in the order of their keys. */
  method ListEntries<V>(m: map<Bytes, V>) returns (puts: seq<Operation<V>>)
    ensures Lists(puts, m) && InKeyOrder(puts)
  {
    puts := [];
    var rest := m.Keys;
    while rest != {}
      invariant rest <= m.Keys && |puts| + |rest| == |m|
      invariant forall i {:trigger puts[i]} :: 0 <= i < |puts| ==>
                  puts[i].Put? && puts[i].key in m && m[puts[i].key] == puts[i].value && puts[i].key !in rest
      invariant forall i, k :: 0 <= i < |puts| && k in rest ==> LexBefore(puts[i].key, k)
      invariant InKeyOrder(puts)
    {
      hide LexBefore;
      LeastExists(rest);
      var least :| least in rest && forall other :: other in rest ==> Compare(least, other) != Greater;
      forall k | k in rest - {least} ensures LexBefore(least, k) { CompareIsLex(least, k); }
      puts := puts + [Operation.Put(least, m[least])];
      rest := rest - {least};
    }
    forall i, j | 0 <= i < j < |puts| ensures puts[i].key != puts[j].key { CompareIsLex(puts[i].key, puts[j].key); }
  }

  /** The entries of the map whose keys begin with the prefix, all of them, in the lexicographic order of their keys. */
  ghost predicate ListsPrefix<V>(es: seq<(Bytes, V)>, m: map<Bytes, V>, prefix: Bytes) {
    && (forall i, j :: 0 <= i < j < |es| ==> LexBefore(es[i].0, es[j].0))
    && (forall i {:trigger es[i]} :: 0 <= i < |es| ==> es[i].0 in m && m[es[i].0] == es[i].1 && prefix <= es[i].0)
    && (forall k {:trigger k in m} :: k in m && prefix <= k ==> exists i :: 0 <= i < |es| && es[i].0 == k)
  }

  ghost predicate IsAmong<V>(e: (Bytes, V), puts: seq<Operation<V>>, n: nat)
    requires n <= |puts|
  {
    exists j :: 0 <= j < n && puts[j] == Operation.Put(e.0, e.1)
  }

  ghost predicate HasKey<V>(es: seq<(Bytes, V)>, k: Bytes) {
    exists i :: 0 <= i < |es| && es[i].0 == k
  }

  /** Of the first n entries. */
  ghost predicate PartListed<V>(es: seq<(Bytes, V)>, puts: seq<Operation<V>>, n: nat, prefix: Bytes) {
    && n <= |puts|
    && (forall i, j :: 0 <= i < j < |es| ==> LexBefore(es[i].0, es[j].0))
    && (forall i {:trigger es[i]} :: 0 <= i < |es| ==> prefix <= es[i].0 && IsAmong(es[i], puts, n))
    && (forall j {:trigger puts[j]} :: 0 <= j < n && prefix <= puts[j].key ==> HasKey(es, puts[j].key))
  }

  lemma AmongNext<V>(e: (Bytes, V), puts: seq<Operation<V>>, n: nat)
    requires n < |puts| && InKeyOrder(puts)
    ensures IsAmong(e, puts, n) ==> IsAmong(e, puts, n + 1) && LexBefore(e.0, puts[n].key)
    ensures puts[n] == Operation.Put(e.0, e.1) ==> IsAmong(e, puts, n + 1)
  {
  }

  lemma KeyMore<V>(es: seq<(Bytes, V)>, e: (Bytes, V), k: Bytes)
    ensures HasKey(es, k) ==> HasKey(es + [e], k)
    ensures HasKey(es + [e], e.0)
  {
    assert (es + [e])[|es|] == e;
    if i :| 0 <= i < |es| && es[i].0 == k { assert (es + [e])[i].0 == k; }
  }

  lemma PartTaken<V>(es: seq<(Bytes, V)>, puts: seq<Operation<V>>, n: nat, prefix: Bytes)
    requires PartListed(es, puts, n, prefix) && n < |puts| && InKeyOrder(puts) && puts[n].Put? && prefix <= puts[n].key
    ensures PartListed(es + [(puts[n].key, puts[n].value)], puts, n + 1, prefix)
  {
    hide LexBefore, IsAmong, HasKey, InKeyOrder;
    var e := (puts[n].key, puts[n].value);
    forall i | 0 <= i < |es| ensures IsAmong(es[i], puts, n + 1) && LexBefore(es[i].0, e.0) { AmongNext(es[i], puts, n); }
    AmongNext(e, puts, n);
    forall j | 0 <= j < n + 1 && prefix <= puts[j].key ensures HasKey(es + [e], puts[j].key) { KeyMore(es, e, puts[j].key); }
  }

  lemma PartSkipped<V>(es: seq<(Bytes, V)>, puts: seq<Operation<V>>, n: nat, prefix: Bytes)
    requires PartListed(es, puts, n, prefix) && n < |puts| && InKeyOrder(puts) && !(prefix <= puts[n].key)
    ensures PartListed(es, puts, n + 1, prefix)
  {
    hide LexBefore, IsAmong, HasKey, InKeyOrder;
    forall i | 0 <= i < |es| ensures IsAmong(es[i], puts, n + 1) { AmongNext(es[i], puts, n); }
  }

  lemma EntriesOf<V>(puts: seq<Operation<V>>, m: map<Bytes, V>)
    requires Lists(puts, m)
    ensures forall i {:trigger puts[i]} :: 0 <= i < |puts| ==> puts[i].Put?
  {
  }

  lemma AllListed<V>(es: seq<(Bytes, V)>, puts: seq<Operation<V>>, m: map<Bytes, V>, prefix: Bytes)
    requires PartListed(es, puts, |puts|, prefix) && Lists(puts, m)
    ensures ListsPrefix(es, m, prefix)
  {
    hide LexBefore;
    forall k | k in m && prefix <= k ensures exists i :: 0 <= i < |es| && es[i].0 == k {
      var j := ListedAt(puts, m, k);
    }
  }

  lemma ListedAt<V>(puts: seq<Operation<V>>, m: map<Bytes, V>, k: Bytes) returns (j: nat)
    requires Lists(puts, m) && k in m
    ensures j < |puts| && puts[j].key == k
  {
    var keys := set i | 0 <= i < |puts| :: puts[i].key;
    KeysCounted(puts, |puts|);
    SubsetOfSameSize(keys, m.Keys);
    j :| 0 <= j < |puts| && puts[j].key == k;
  }

  lemma {:induction false} KeysCounted<V>(puts: seq<Operation<V>>, n: nat)
    requires n <= |puts| && forall i, j :: 0 <= i < j < |puts| ==> puts[i].key != puts[j].key
    ensures |set i | 0 <= i < n :: puts[i].key| == n
  {
    if n > 0 {
      KeysCounted(puts, n - 1);
      assert (set i | 0 <= i < n :: puts[i].key) == (set i | 0 <= i < n - 1 :: puts[i].key) + {puts[n - 1].key};
    }
  }

  lemma RecordOfWrite(id: u64, writes: seq<Write>, i: nat)
    requires i < |writes|
    ensures i + 1 < |TransactionRecords(id, writes)| && TransactionRecords(id, writes)[i + 1] == Change(id, writes[i])
    ensures WritesOk(writes) ==> RecordOk(TransactionRecords(id, writes)[i + 1])
  {
    assert Changes(id, writes)[i] == Change(id, writes[i]);
  }

  lemma EndRecords(id: u64, writes: seq<Write>)
    ensures var rs := TransactionRecords(id, writes);
            |rs| == |writes| + 2 && rs[0] == Record.Begin(id) && rs[|writes| + 1] == Record.Commit(id)
  {
  }

  /** The first n records are in the file. */
  ghost predicate At(file: Bytes, length: nat, room: nat, file0: Bytes, length0: nat, room0: nat, rs: seq<Record>, n: nat) {
    && n <= |rs| && LogSize(rs[..n]) <= room0 && file == file0 + Encode(rs[..n])
    && length == length0 + LogSize(rs[..n]) && room == room0 - LogSize(rs[..n])
  }

  /** The device was full before the last record was written. */
  ghost predicate Torn(file: Bytes, file0: Bytes, room0: nat, rs: seq<Record>) {
    room0 < LogSize(rs) && file == file0 + Taken(Encode(rs), room0)
  }

  lemma StartOf(rs: seq<Record>, file: Bytes)
    ensures rs[..0] == [] && Encode(rs[..0]) == [] && LogSize(rs[..0]) == 0 && file + [] == file
  {
  }

  /** Appending the next record: one more is in the file, or a limit was met, or the log is torn. */
  lemma Advanced(log: Wal, file0: Bytes, length0: nat, room0: nat, rs: seq<Record>, n: nat,
                 file1: Bytes, length1: nat, room1: nat, r: Result<()>)
    requires n < |rs| && At(file1, length1, room1, file0, length0, room0, rs, n)
    requires log.Appended(file1, length1, room1, rs[n], r)
    ensures r.Ok? ==> At(log.file, log.length, log.room, file0, length0, room0, rs, n + 1)
    ensures r.Err? && RecordOk(rs[n]) && length0 + LogSize(rs) <= MAX_WAL_BYTES ==>
              r == Err(Io) && Torn(log.file, file0, room0, rs)
  {
    hide Encode, LogSize, Frame;
    NextRecord(rs, n);
    var f := Frame(Body(rs[n]));
    if r.Ok? {
      Associative(file0, Encode(rs[..n]), f);
    } else if r == Err(Io) {
      TornRecord(rs, n, room0);
      Associative(file0, Encode(rs[..n]), f[..room1]);
    }
  }

  lemma CommitAdvanced(log: Wal, file0: Bytes, length0: nat, room0: nat, rs: seq<Record>,
                       file1: Bytes, length1: nat, room1: nat, r: Result<()>)
    requires rs != [] && Last(rs).Commit? && At(file1, length1, room1, file0, length0, room0, rs, |rs| - 1)
    requires if log.Appended(file1, length1, room1, Last(rs), Ok(())) then r == if log.syncs then Ok(()) else Err(Io)
             else r.Err? && log.Appended(file1, length1, room1, Last(rs), r)
    ensures r.Ok? ==> At(log.file, log.length, log.room, file0, length0, room0, rs, |rs|) && rs[..|rs|] == rs
    ensures length0 + LogSize(rs) <= MAX_WAL_BYTES ==>
              && (r.Ok? <==> LogSize(rs) <= room0 && log.syncs) && (r.Err? ==> r == Err(Io))
              && log.file == file0 + Taken(Encode(rs), room0)
  {
    var n := |rs| - 1;
    assert rs[..|rs|] == rs;
    EncodedSize(rs);
    if log.Appended(file1, length1, room1, rs[n], Ok(())) {
      Advanced(log, file0, length0, room0, rs, n, file1, length1, room1, Ok(()));
    } else {
      Advanced(log, file0, length0, room0, rs, n, file1, length1, room1, r);
    }
  }

  lemma EncodeThree(a: seq<Record>, r: Record, b: seq<Record>)
    ensures Encode(a + [r]) == Encode(a) + Frame(Body(r))
    ensures Encode(a + [r] + b) == Encode(a) + Frame(Body(r)) + Encode(b)
  {
    EncodeConcat(a, [r]);
    EncodeConcat(a + [r], b);
    EncodeSingle(r);
  }

  lemma SizeThree(a: seq<Record>, r: Record, b: seq<Record>)
    ensures LogSize(a + [r]) == LogSize(a) + Size(r)
    ensures LogSize(a + [r] + b) == LogSize(a) + Size(r) + LogSize(b)
  {
    LogSizeConcat(a, [r]);
    LogSizeConcat(a + [r], b);
    EncodeSingle(r);
  }

  lemma SplitAt(rs: seq<Record>, n: nat)
    requires n < |rs|
    ensures rs[..n + 1] == rs[..n] + [rs[n]]
    ensures rs == rs[..n] + [rs[n]] + rs[n + 1..]
  {
  }

  /** One more record: the bytes after it, */
  lemma NextRecord(rs: seq<Record>, n: nat)
    requires n < |rs|
    ensures Encode(rs[..n + 1]) == Encode(rs[..n]) + Frame(Body(rs[n]))
    ensures LogSize(rs[..n + 1]) == LogSize(rs[..n]) + Size(rs[n]) <= LogSize(rs)
  {
    SplitAt(rs, n);
    EncodeThree(rs[..n], rs[n], rs[n + 1..]);
    SizeThree(rs[..n], rs[n], rs[n + 1..]);
  }

  /** and what is taken when there is no room for all of it. */
  lemma TornRecord(rs: seq<Record>, n: nat, room: nat)
    requires n < |rs| && LogSize(rs[..n]) <= room < LogSize(rs[..n]) + Size(rs[n])
    ensures Taken(Encode(rs), room) == Encode(rs[..n]) + Frame(Body(rs[n]))[..room - LogSize(rs[..n])]
  {
    SplitAt(rs, n);
    EncodeThree(rs[..n], rs[n], rs[n + 1..]);
    EncodedSize(rs[..n]);
    TakenWithin(Encode(rs[..n]), Frame(Body(rs[n])), Encode(rs[n + 1..]), room);
  }

  lemma TakenWithin(a: Bytes, f: Bytes, b: Bytes, room: nat)
    requires |a| <= room < |a| + |f|
    ensures Taken(a + f + b, room) == a + f[..room - |a|]
  {
  }

  lemma EncodeSingle(r: Record)
    ensures Encode([r]) == Frame(Body(r)) && LogSize([r]) == Size(r)
  {
    assert [r][1..] == [];
    assert Encode([r]) == Frame(Body(r)) + [];
  }
}
