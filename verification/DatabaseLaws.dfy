/** What is refused, what a transaction costs and what a checkpoint writes, in numbers. */
module DatabaseLaws {
  import opened Wrappers
  import opened Keys
  import opened WalFormat
  import opened WalMeaning
  import opened TransactionLog
  import opened WriteAheadLog
  import opened DatabaseModel
  import opened Compaction
  import opened Database

  /** The bytes counted against the limit of a transaction. */
  lemma CountedBytes<V>(c: Codec<V>, ops: seq<Operation<V>>, op: Operation<V>)
    ensures OpsBytes<V>(c, []) == 0
    ensures OpsBytes(c, ops + [op]) == OpsBytes(c, ops) + |op.key| + if op.Put? then |c.encode(op.value)| else 0
  {
    assert (ops + [op])[..|ops|] == ops;
  }

  function PutsAmong<V>(ops: seq<Operation<V>>): set<nat> {
    set i | 0 <= i < |ops| && ops[i].Put?
  }

  lemma {:induction false} EncodedCost<V>(c: Codec<V>, ops: seq<Operation<V>>)
    ensures ReservedBytes(EncodeOps(c, ops)) == 34 + 17 * |ops| + 8 * |PutsAmong(ops)| + OpsBytes(c, ops)
    decreases |ops|
  {
    hide PutsAmong, EncodeOps;
    if ops == [] {
      NoPuts(ops);
    } else {
      var init, op := ops[..|ops| - 1], Last(ops);
      EncodedCost(c, init);
      OneMorePut(ops);
      assert EncodeOps(c, ops)[..|ops| - 1] == EncodeOps(c, init);
      assert Last(EncodeOps(c, ops)) == EncodeOp(c, op);
    }
  }

  lemma NoPuts<V>(ops: seq<Operation<V>>)
    requires ops == []
    ensures |PutsAmong(ops)| == 0
  {
    assert PutsAmong(ops) == {};
  }

  lemma OneMorePut<V>(ops: seq<Operation<V>>)
    requires ops != []
    ensures |PutsAmong(ops)| == |PutsAmong(ops[..|ops| - 1])| + if Last(ops).Put? then 1 else 0
  {
    var n := |ops| - 1;
    assert PutsAmong(ops) == PutsAmong(ops[..n]) + if ops[n].Put? then {n} else {};
  }

  /** What a transaction takes up in the log: 34 bytes, 17 for each operation, 8 more for each put, and its keys and values. */
  lemma TransactionCost<V>(c: Codec<V>, ops: seq<Operation<V>>, id: u64)
    ensures |Encode(TransactionRecords(id, EncodeOps(c, ops)))|
            == 34 + 17 * |ops| + 8 * |set i | 0 <= i < |ops| && ops[i].Put?| + OpsBytes(c, ops)
  {
    EncodedCost(c, ops);
    ReservationIsExact(id, EncodeOps(c, ops));
    assert PutsAmong(ops) == set i | 0 <= i < |ops| && ops[i].Put?;
  }

  /** When a transaction is written: the database is usable, the operations are within the limits, the map that they make
      meets the schema, the log has room below 64 MiB, and there is an id after this one. */
  lemma WrittenExactly<V(!new)>(c: Codec<V>, schema: Schema<V>, s: Live<V>, ops: seq<Operation<V>>)
    ensures Refusal(c, schema, s, ops).None? <==>
              && !s.poisoned
              && 1 <= |ops| <= 1024 && OpsBytes(c, ops) <= 8 * 1024 * 1024
              && (forall i :: 0 <= i < |ops| ==>
                    && 1 <= |ops[i].key| <= 4096 && 0 !in ops[i].key
                    && (ops[i].Put? ==> |c.encode(ops[i].value)| <= 1024 * 1024))
              && (forall m {:trigger Became(s.data, ops, m)} :: Became(s.data, ops, m) ==> schema(m))
              && s.length + 34 + 17 * |ops| + 8 * |set i | 0 <= i < |ops| && ops[i].Put?| + OpsBytes(c, ops) <= 64 * 1024 * 1024
              && s.nextId < 0xFFFF_FFFF_FFFF_FFFF
  {
    hide Became, ApplyOps, Encode, LogSize, TransactionRecords, EncodeOps, OpsBytes;
    var m := ApplyOps(s.data, ops);
    LastOperationDecides(s.data, ops);
    forall m' | Became(s.data, ops, m') ensures m' == m { BecameOne(s.data, ops, m, m'); }
    TransactionCost(c, ops, s.nextId);
    EncodedSize(TransactionRecords(s.nextId, EncodeOps(c, ops)));
  }

  function ChunkTransactions<V>(c: Codec<V>, puts: seq<Operation<V>>, id: nat): (ts: seq<Transaction>)
    requires id + Chunks(|puts|) <= MAX_U64
    ensures |ts| == Chunks(|puts|)
    decreases |puts|
  {
    if puts == [] then []
    else
      var n := ChunkSize(|puts|);
      [Transaction(id, EncodeOps(c, puts[..n]))] + ChunkTransactions(c, puts[n..], id + 1)
  }

  lemma {:induction false} ChunksCommitted<V>(c: Codec<V>, rs: seq<Record>, puts: seq<Operation<V>>, id: nat)
    requires id + Chunks(|puts|) <= MAX_U64 && WellOrdered(rs) && IdsBelow(rs, id)
    ensures CommittedIn(rs + CheckpointRecords(c, puts, id)) == CommittedIn(rs) + ChunkTransactions(c, puts, id)
    decreases |puts|
  {
    hide TransactionRecords, EncodeOps, CommittedIn, WellOrdered;
    if puts == [] {
      assert rs + CheckpointRecords(c, puts, id) == rs;
    } else {
      var n := ChunkSize(|puts|);
      var ws := EncodeOps(c, puts[..n]);
      CheckpointSplits(c, rs, puts, id, n);
      AppendTransaction(rs, id, ws);
      IdsStayBelow(rs, id, ws);
      ChunksCommitted(c, rs + TransactionRecords(id, ws), puts[n..], id + 1);
    }
  }

  lemma IdsStayBelow(rs: seq<Record>, id: u64, ws: seq<Write>)
    requires IdsBelow(rs, id)
    ensures IdsBelow(rs + TransactionRecords(id, ws), id + 1)
  {
  }

  /** The elements from 1024 i on, at most 1024 of them. */
  function ChunkOf<T>(s: seq<T>, i: nat): seq<T>
    requires 1024 * i <= |s|
  {
    if |s| < 1024 * (i + 1) then s[1024 * i..] else s[1024 * i..1024 * (i + 1)]
  }

  lemma LaterChunk<T>(s: seq<T>, i: nat)
    requires i > 0 && 1024 * i <= |s|
    ensures ChunkOf(s[1024..], i - 1) == ChunkOf(s, i)
  {
  }

  lemma FirstChunk<V>(c: Codec<V>, puts: seq<Operation<V>>, id: nat)
    requires puts != [] && id + Chunks(|puts|) <= MAX_U64
    ensures ChunkTransactions(c, puts, id)[0] == Transaction(id, EncodeOps(c, ChunkOf(puts, 0)))
    ensures if |puts| <= 1024 then Chunks(|puts|) == 1
            else Chunks(|puts|) == 1 + Chunks(|puts[1024..]|)
                 && ChunkTransactions(c, puts, id)[1..] == ChunkTransactions(c, puts[1024..], id + 1)
  {
    hide EncodeOps;
    assert ChunkOf(puts, 0) == puts[..ChunkSize(|puts|)];
  }

  lemma {:induction false} ChunkAt<V>(c: Codec<V>, puts: seq<Operation<V>>, id: nat, i: nat)
    requires id + Chunks(|puts|) <= MAX_U64 && i < Chunks(|puts|)
    ensures 1024 * i < |puts| && ChunkTransactions(c, puts, id)[i] == Transaction(id + i, EncodeOps(c, ChunkOf(puts, i)))
    decreases i
  {
    FirstChunk(c, puts, id);
    hide EncodeOps, ChunkTransactions, Chunks, ChunkOf;
    if i > 0 {
      ChunkAt(c, puts[1024..], id + 1, i - 1);
      LaterChunk(puts, i);
    }
  }

  /** The transactions of a rewritten log: the i-th has the entries from 1024 i on, at most 1024 of them, and the i-th id
      from the next one on. */
  lemma CheckpointTransactions<V>(c: Codec<V>, puts: seq<Operation<V>>, id: nat, i: nat)
    requires id + Chunks(|puts|) <= MAX_U64 && i < Chunks(|puts|)
    ensures 1024 * i < |puts| && |CommittedIn(CheckpointRecords(c, puts, id))| == (|puts| + 1023) / 1024
    ensures CommittedIn(CheckpointRecords(c, puts, id))[i]
            == Transaction(id + i, EncodeOps(c, if |puts| < 1024 * (i + 1) then puts[1024 * i..] else puts[1024 * i..1024 * (i + 1)]))
  {
    hide CheckpointRecords, CommittedIn, EncodeOps, TransactionRecords, Chunks, ChunkTransactions, WellOrdered;
    ChunksIsCeiling(|puts|);
    EmptyLog(c);
    var none: seq<Record> := [];
    ChunksCommitted(c, none, puts, id);
    assert none + CheckpointRecords(c, puts, id) == CheckpointRecords(c, puts, id);
    assert [] + ChunkTransactions(c, puts, id) == ChunkTransactions(c, puts, id);
    ChunkAt(c, puts, id, i);
  }
}
