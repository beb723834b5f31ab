/** The write-ahead log: appending records to its file, and recovering a file.

    The file grows by whole writes, or by the beginning of one when the device runs out of room. What is durable
    is a prefix of it, moved forward by the sync after a commit record. */
module WriteAheadLog {
  import opened Wrappers
  import opened Keys
  import opened LittleEndian
  import opened Checksum
  import opened WalFormat
  import opened WalMeaning
  import opened WalLaws
  import opened TransactionLog

  class Wal {
    /** The bytes in the file, and how many of them are known to survive a crash. */
    var file: Bytes
    var synced: nat
    var length: nat
    /** The environment: how many more bytes the device will take, and whether it will sync. */
    var room: nat
    var syncs: bool

    ghost predicate Valid()
      reads this
    {
      synced <= |file|
    }

    /** A new log, on a device that takes the eight bytes of magic and syncs them. */
    constructor Create(room: nat, syncs: bool)
      requires room >= |MAGIC|
      ensures Valid() && file == MAGIC && synced == length == |MAGIC|
      ensures this.room == room - |MAGIC| && this.syncs == syncs
    {
      file := MAGIC;
      synced := |MAGIC|;
      length := |MAGIC|;
      this.room := room - |MAGIC|;
      this.syncs := syncs;
    }

    /** An existing log that recovery has accepted, opened for appending. */
    constructor Open(file: Bytes, synced: nat, room: nat, syncs: bool)
      requires synced <= |file| && ReadLog(file).Ok?
      ensures Valid() && this.file == file && this.synced == synced && length == |file|
      ensures this.room == room && this.syncs == syncs
    {
      this.file := file;
      this.synced := synced;
      this.length := |file|;
      this.room := room;
      this.syncs := syncs;
    }

    /** Appends all the bytes, or only those for which there is room. */
    method WriteAll(bytes: Bytes) returns (ok: bool)
      requires Valid()
      modifies `file, `room
      ensures Valid() && ok == (|bytes| <= old(room))
      ensures file == old(file) + Taken(bytes, old(room)) && room == old(room) - |Taken(bytes, old(room))|
    {
      ok := |bytes| <= room;
      file := file + Taken(bytes, room);
      room := room - |Taken(bytes, room)|;
    }

    method EnsureCapacity(additional: nat) returns (r: Result<()>)
      ensures r.Ok? <==> length + additional <= MAX_WAL_BYTES
      ensures r.Err? ==> r == Err(Limit)
    {
      r := if length + additional > MAX_WAL_BYTES then Err(Limit) else Ok(());
    }

    /** The length, the checksum and the record itself, one after the other. */
    method WriteFrame(record: Bytes) returns (ok: bool)
      requires Valid()
      modifies `file, `room
      ensures Valid() && ok == (|Frame(record)| <= old(room))
      ensures file == old(file) + Taken(Frame(record), old(room)) && room == old(room) - |Taken(Frame(record), old(room))|
    {
      hide Frame, ToLE, Taken;
      var sum := Checksum.Compute(record);
      ghost var file0, room0 := file, room;
      PiecesAreFrame(file0, record, room0);
      var a, b := ToLE(|record|, 4), ToLE(sum, 4);
      ok := WriteAll(a);
      if ok {
        ok := WriteAll(b);
        if ok { ok := WriteAll(record); }
      }
    }

    /** Appends one framed record. A record over a limit changes nothing; a device
        without room leaves a torn record, and then `length` is not moved. */
    method WriteRecord(kind: byte, id: u64, payload: Bytes) returns (r: Result<()>)
      requires Valid()
      modifies `file, `room, `length
      ensures Valid()
      ensures 9 + |payload| > 0x1000 + 0x10_0000 + 17 ==> r == Err(RecordTooLarge)
      ensures 9 + |payload| <= MAX_RECORD_BYTES && old(length) + 17 + |payload| > 0x400_0000 ==> r == Err(Limit)
      ensures r == Err(RecordTooLarge) || r == Err(Limit) ==> unchanged(this)
      ensures 9 + |payload| <= MAX_RECORD_BYTES && old(length) + 17 + |payload| <= MAX_WAL_BYTES ==>
                var frame := Frame(BodyOf(kind, id, payload));
                && r == (if |frame| <= old(room) then Ok(()) else Err(Io))
                && file == old(file) + Taken(frame, old(room)) && room == old(room) - |Taken(frame, old(room))|
                && length == (if r.Ok? then old(length) + |frame| else old(length))
    {
      var recordLen := 9 + |payload|;
      if recordLen > MAX_RECORD_BYTES { return Err(RecordTooLarge); }
      var next := length + 8 + recordLen;
      if next > MAX_WAL_BYTES { return Err(Limit); }
      var ok := WriteFrame(BodyOf(kind, id, payload));
      if !ok { return Err(Io); }
      length := next;
      return Ok(());
    }

    method Begin(id: u64) returns (r: Result<()>)
      requires Valid()
      modifies `file, `room, `length
      ensures Valid() && Appended(old(file), old(length), old(room), Record.Begin(id), r)
      ensures r == Err(Limit) <==> old(length) + 17 > 0x400_0000
    {
      r := WriteRecord(BEGIN, id, []);
    }

    method Put(id: u64, key: Bytes, value: Bytes) returns (r: Result<()>)
      requires Valid()
      modifies `file, `room, `length
      ensures Valid() && Appended(old(file), old(length), old(room), Change(id, Write.Put(key, value)), r)
      ensures r == Err(Limit) <==> |key| > 0x1000 || |value| > 0x10_0000 || old(length) + 25 + |key| + |value| > 0x400_0000
    {
      if |key| > MAX_KEY_BYTES { return Err(Limit); }
      if |value| > MAX_VALUE_BYTES { return Err(Limit); }
      r := WriteRecord(PUT, id, ToLE(|key|, 4) + ToLE(|value|, 4) + key + value);
    }

    method Delete(id: u64, key: Bytes) returns (r: Result<()>)
      requires Valid()
      modifies `file, `room, `length
      ensures Valid() && Appended(old(file), old(length), old(room), Change(id, Write.Delete(key)), r)
      ensures r == Err(Limit) <==> |key| > 0x1000 || old(length) + 17 + |key| > 0x400_0000
    {
      if |key| > MAX_KEY_BYTES { return Err(Limit); }
      r := WriteRecord(DELETE, id, key);
    }

    /** What appending a record does: refused by a limit, appended, or torn. */
    ghost predicate Appended(file0: Bytes, length0: nat, room0: nat, rec: Record, r: Result<()>)
      reads this
    {
      if !RecordOk(rec) || length0 + Size(rec) > MAX_WAL_BYTES then
        r == Err(Limit) && file == file0 && length == length0 && room == room0
      else if Size(rec) <= room0 then
        r == Ok(()) && file == file0 + Frame(Body(rec)) && length == length0 + Size(rec) && room == room0 - Size(rec)
      else
        r == Err(Io) && file == file0 + Frame(Body(rec))[..room0] && length == length0 && room == 0
    }

    /** The commit record, and then the sync that makes the whole file durable. */
    method Commit(id: u64) returns (r: Result<()>)
      requires Valid()
      modifies this
      ensures Valid() && syncs == old(syncs)
      ensures var rec := Record.Commit(id);
              if Appended(old(file), old(length), old(room), rec, Ok(())) then
                r == (if syncs then Ok(()) else Err(Io)) && synced == if syncs then |file| else old(synced)
              else r.Err? && synced == old(synced) && Appended(old(file), old(length), old(room), rec, r)
      ensures r == Err(Limit) <==> old(length) + 17 > 0x400_0000
      ensures r.Ok? ==> file == old(file) + Frame(Body(Record.Commit(id))) && synced == |file|
    {
      r := WriteRecord(COMMIT, id, []);
      if r.Err? { return; }
      if !syncs { return Err(Io); }
      synced := |file|;
    }
  }

  /** Three writes one after the other, each cut off where the room ends, are one write of all. */
  lemma PiecesAreFrame(file: Bytes, record: Bytes, room: nat)
    ensures var a, b := ToLE(|record|, 4), ToLE(ChecksumOf(record), 4);
            && |Frame(record)| == 8 + |record|
            && |Taken(a, room)| == (if room < 4 then room else 4)
            && (room < 4 ==> file + Taken(Frame(record), room) == file + Taken(a, room))
            && (4 <= room < 8 ==> |Taken(b, room - 4)| == room - 4
                                  && file + Taken(Frame(record), room) == file + Taken(a, room) + Taken(b, room - 4))
            && (room >= 8 ==> |Taken(b, room - 4)| == 4
                              && file + Taken(Frame(record), room) == file + Taken(a, room) + Taken(b, room - 4) + Taken(record, room - 8))
            && |Taken(Frame(record), room)| == |Taken(a, room)| + (if room < 4 then 0 else |Taken(b, room - 4)|)
                                               + (if room < 8 then 0 else |Taken(record, room - 8)|)
  {
    hide ToLE;
    TakenPieces(file, ToLE(|record|, 4), ToLE(ChecksumOf(record), 4), record, room);
  }

  lemma TakenPieces(file: Bytes, a: Bytes, b: Bytes, c: Bytes, room: nat)
    requires |a| == |b| == 4
    ensures room < 4 ==> Taken(a + b + c, room) == Taken(a, room)
    ensures 4 <= room < 8 ==> file + Taken(a + b + c, room) == file + Taken(a, room) + Taken(b, room - 4)
    ensures room >= 8 ==> file + Taken(a + b + c, room) == file + Taken(a, room) + Taken(b, room - 4) + Taken(c, room - 8)
  {
  }

  // ── Recovery ──

  /** What recovery gives back. */
  datatype Recovery = Recovery(committed: seq<Transaction>, maxId: Option<u64>)

  ghost predicate IsLargest(ids: set<u64>, largest: Option<u64>) {
    match largest
    case None => ids == {}
    case Some(m) => m in ids && forall id :: id in ids ==> id <= m
  }

  /** The records begin no id above the largest one, and that one. */
  ghost predicate LargestBegun(rs: seq<Record>, largest: Option<u64>) {
    && (largest.Some? ==> Record.Begin(largest.value) in rs)
    && (forall id: u64 {:trigger Record.Begin(id)} :: Record.Begin(id) in rs ==> largest.Some? && id <= largest.value)
  }

  /** One record of the log after the other, from the magic to the end of the file. A file is accepted exactly when it holds
      records in a legal order. */
  method Recover(bytes: Bytes) returns (r: Result<Recovery>)
    ensures r.Ok? <==> exists rs :: Holds(bytes, rs)
    ensures r.Ok? ==> forall rs :: Holds(bytes, rs) ==> r.value.committed == CommittedIn(rs) && LargestBegun(rs, r.value.maxId)
    ensures r.Err? ==> r == Err(if |bytes| > 0x400_0000 then Limit else Corrupt)
    ensures r.Ok? <==> ReadLog(bytes).Ok?
    ensures r.Err? ==> r.error == ReadLog(bytes).error
    ensures r.Ok? ==> r.value.committed == ReadLog(bytes).value.committed
    ensures r.Ok? ==> IsLargest(ReadLog(bytes).value.seen, r.value.maxId)
  {
    hide Holds, CommittedIn, LargestBegun;
    AcceptedExactly(bytes);
    if |bytes| > MAX_WAL_BYTES { return Err(Limit); }
    if |bytes| < |MAGIC| || bytes[..|MAGIC|] != MAGIC { return Err(Corrupt); }
    var s := EMPTY;
    var cursor := |MAGIC|;
    while cursor < |bytes|
      invariant |MAGIC| <= cursor <= |bytes|
      invariant ReadFrom(bytes[cursor..], s) == ReadLog(bytes)
    {
      var next := RecoverOne(bytes, cursor, s);
      if next.Err? { return Err(next.error); }
      cursor, s := next.value.0, next.value.1;
    }
    var largest := Largest(s.seen);
    forall rs | Holds(bytes, rs) ensures LargestBegun(rs, largest) { SeenBegun(s, rs, largest); }
    return Ok(Recovery(s.committed, largest));
  }

  /** The record at the cursor: the cursor after it, and the state with it applied. */
  method RecoverOne(bytes: Bytes, cursor: nat, s: State) returns (r: Result<(nat, State)>)
    requires cursor < |bytes|
    ensures r.Ok? ==> cursor < r.value.0 <= |bytes| && ReadFrom(bytes[r.value.0..], r.value.1) == ReadFrom(bytes[cursor..], s)
    ensures r.Err? ==> ReadFrom(bytes[cursor..], s) == Err(r.error)
  {
    var rest := bytes[cursor..];
    var headerEnd := cursor + 8;
    if headerEnd > |bytes| { return Err(Corrupt); }
    var length := FromLE(bytes[cursor..cursor + 4]);
    assert bytes[cursor..cursor + 4] == rest[..4] && bytes[cursor + 4..headerEnd] == rest[4..8];
    if length > MAX_RECORD_BYTES { return Err(Corrupt); }
    var expected := FromLE(bytes[cursor + 4..headerEnd]);
    var end := headerEnd + length;
    if end > |bytes| { return Err(Corrupt); }
    var record := bytes[headerEnd..end];
    assert record == rest[8..8 + length] && bytes[end..] == rest[8 + length..];
    var sum := Checksum.Compute(record);
    if sum != expected { return Err(Corrupt); }
    var parsed := ParseBody(record);
    if parsed.Err? { return Err(parsed.error); }
    var s' := Apply(s, parsed.value);
    if s'.Err? { return Err(s'.error); }
    return Ok((end, s'.value));
  }

  method Largest(ids: set<u64>) returns (m: Option<u64>)
    ensures IsLargest(ids, m)
  {
    m := None;
    var todo := ids;
    while todo != {}
      invariant todo <= ids && IsLargest(ids - todo, m)
    {
      var id :| id in todo;
      if m == None || m.value < id { m := Some(id); }
      assert ids - (todo - {id}) == (ids - todo) + {id};
      todo := todo - {id};
    }
    assert ids - todo == ids;
  }

  lemma SeenBegun(s: State, rs: seq<Record>, largest: Option<u64>)
    requires Means(s, rs) && IsLargest(s.seen, largest)
    ensures LargestBegun(rs, largest)
  {
    assert forall id: u64 :: Record.Begin(id) in rs <==> id in s.seen;
  }
}
