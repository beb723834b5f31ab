/** Operations, their encoding, and replay. */
module DatabaseModel {
  import opened Wrappers
  import opened Keys
  import opened WalFormat
  import opened WalMeaning
  import opened TransactionLog

  const MAX_TRANSACTION_BYTES: nat := 8388608
  const MAX_U64: u64 := 0xFFFF_FFFF_FFFF_FFFF

  /** How values become bytes, and which bytes are text. */
  datatype Codec<!V> = Codec(encode: V -> Bytes, decode: Bytes -> Option<V>, isText: Bytes -> bool)

  /** Reading back what was written. */
  ghost predicate Lawful<V(!new)>(c: Codec<V>) {
    forall v: V {:trigger c.encode(v)} :: c.decode(c.encode(v)) == Some(v)
  }

  datatype Operation<V> = Put(key: Bytes, value: V) | Delete(key: Bytes)

  function ApplyOp<V>(m: map<Bytes, V>, op: Operation<V>): map<Bytes, V> {
    match op
    case Put(k, v) => m[k := v]
    case Delete(k) => m - {k}
  }

  /** The map after all the operations, in order. */
  function ApplyOps<V>(m: map<Bytes, V>, ops: seq<Operation<V>>): map<Bytes, V>
    decreases |ops|
  {
    if ops == [] then m else ApplyOp(ApplyOps(m, ops[..|ops| - 1]), Last(ops))
  }

  function EncodeOp<V>(c: Codec<V>, op: Operation<V>): Write {
    match op
    case Put(k, v) => Write.Put(k, c.encode(v))
    case Delete(k) => Write.Delete(k)
  }

  function EncodeOps<V>(c: Codec<V>, ops: seq<Operation<V>>): (ws: seq<Write>)
    ensures |ws| == |ops|
    ensures forall i {:trigger ws[i]} :: 0 <= i < |ws| ==> ws[i] == EncodeOp(c, ops[i])
  {
    seq(|ops|, i requires 0 <= i < |ops| => EncodeOp(c, ops[i]))
  }

  // ── Replay ──

  function ReplayWrite<V>(c: Codec<V>, m: map<Bytes, V>, w: Write): Option<map<Bytes, V>> {
    if !c.isText(w.key) then None
    else match w
      case Delete(k) => Some(m - {k})
      case Put(k, b) => match c.decode(b) { case None => None case Some(v) => Some(m[k := v]) }
  }

  function ReplayWrites<V>(c: Codec<V>, m: map<Bytes, V>, ws: seq<Write>): Option<map<Bytes, V>>
    decreases |ws|
  {
    if ws == [] then Some(m)
    else match ReplayWrites(c, m, ws[..|ws| - 1])
      case None => None
      case Some(m') => ReplayWrite(c, m', Last(ws))
  }

  /** The map the committed transactions leave, or nothing when a key or value cannot be read. */
  function Replay<V>(c: Codec<V>, txns: seq<Transaction>): Option<map<Bytes, V>>
    decreases |txns|
  {
    if txns == [] then Some(map[])
    else match Replay(c, txns[..|txns| - 1])
      case None => None
      case Some(m) => ReplayWrites(c, m, Last(txns).writes)
  }

  // ── The last operation on a key decides ──

  ghost predicate LastOn<V>(ops: seq<Operation<V>>, k: Bytes, i: nat) {
    i < |ops| && ops[i].key == k && forall j :: i < j < |ops| ==> ops[j].key != k
  }

  /** What a map has become by the operations: a key has the value that its last put gave it, is gone when its last operation
      was a delete, and is as before when there is none. */
  ghost predicate Became<V(!new)>(m: map<Bytes, V>, ops: seq<Operation<V>>, m': map<Bytes, V>) {
    && (forall k {:trigger k in m'} {:trigger k in m} ::
          (forall i :: 0 <= i < |ops| ==> ops[i].key != k) ==> (k in m' <==> k in m) && (k in m ==> m'[k] == m[k]))
    && (forall k, i: nat {:trigger LastOn(ops, k, i)} ::
          LastOn(ops, k, i) ==> if ops[i].Delete? then k !in m' else k in m' && m'[k] == ops[i].value)
  }

  lemma {:induction false} LastOperationDecides<V(!new)>(m: map<Bytes, V>, ops: seq<Operation<V>>)
    ensures Became(m, ops, ApplyOps(m, ops))
    decreases |ops|
  {
    if ops != [] {
      var init, op := ops[..|ops| - 1], ops[|ops| - 1];
      LastOperationDecides(m, init);
      forall k, i: nat | LastOn(ops, k, i)
        ensures if ops[i].Delete? then k !in ApplyOps(m, ops) else k in ApplyOps(m, ops) && ApplyOps(m, ops)[k] == ops[i].value
      {
        if i < |init| { assert LastOn(init, k, i) && ops[|init|].key != k; }
      }
      forall k | forall i :: 0 <= i < |ops| ==> ops[i].key != k
        ensures (k in ApplyOps(m, ops) <==> k in m) && (k in m ==> ApplyOps(m, ops)[k] == m[k])
      {
        assert ops[|init|].key != k && forall i :: 0 <= i < |init| ==> init[i].key != k;
      }
    }
  }

  lemma {:induction false} SomeLast<V>(ops: seq<Operation<V>>, k: Bytes, j: nat) returns (i: nat)
    requires j < |ops| && ops[j].key == k
    ensures LastOn(ops, k, i)
    decreases |ops| - j
  {
    i := j;
    if !LastOn(ops, k, j) {
      var l :| j < l < |ops| && ops[l].key == k;
      i := SomeLast(ops, k, l);
    }
  }

  /** That determines the map. */
  lemma BecameOne<V(!new)>(m: map<Bytes, V>, ops: seq<Operation<V>>, a: map<Bytes, V>, b: map<Bytes, V>)
    requires Became(m, ops, a) && Became(m, ops, b)
    ensures a == b
  {
    forall k ensures (k in a <==> k in b) && (k in a ==> a[k] == b[k]) {
      if j: nat :| j < |ops| && ops[j].key == k {
        var i := SomeLast(ops, k, j);
      }
    }
  }

  /** The writes of the transactions, in order. */
  function AllWrites(txns: seq<Transaction>): seq<Write> {
    if txns == [] then [] else AllWrites(txns[..|txns| - 1]) + txns[|txns| - 1].writes
  }

  predicate Readable<V>(c: Codec<V>, w: Write) {
    c.isText(w.key) && (w.Put? ==> c.decode(w.value).Some?)
  }

  ghost predicate LastWrite(ws: seq<Write>, k: Bytes, i: nat) {
    i < |ws| && ws[i].key == k && forall j :: i < j < |ws| ==> ws[j].key != k
  }

  /** What writes make of the empty map: a key is there when its last write was a put, with the value that this one encodes. */
  ghost predicate Recorded<V(!new)>(c: Codec<V>, ws: seq<Write>, m: map<Bytes, V>) {
    && (forall k {:trigger k in m} :: (forall i :: 0 <= i < |ws| ==> ws[i].key != k) ==> k !in m)
    && (forall k, i: nat {:trigger LastWrite(ws, k, i)} ::
          LastWrite(ws, k, i) ==> if ws[i].Delete? then k !in m else k in m && c.decode(ws[i].value) == Some(m[k]))
  }

  lemma {:induction false} WritesRecorded<V(!new)>(c: Codec<V>, m: map<Bytes, V>, before: seq<Write>, ws: seq<Write>)
    requires Recorded(c, before, m)
    ensures ReplayWrites(c, m, ws).Some? <==> forall i :: 0 <= i < |ws| ==> Readable(c, ws[i])
    ensures ReplayWrites(c, m, ws).Some? ==> Recorded(c, before + ws, ReplayWrites(c, m, ws).value)
    decreases |ws|
  {
    if ws == [] {
      assert before + ws == before;
    } else {
      var init, w := ws[..|ws| - 1], ws[|ws| - 1];
      WritesRecorded(c, m, before, init);
      assert forall i :: 0 <= i < |init| ==> init[i] == ws[i];
      if ReplayWrites(c, m, ws).Some? {
        OneRecorded(c, ReplayWrites(c, m, init).value, before + init, w);
        assert before + init + [w] == before + ws;
      }
    }
  }

  lemma OneRecorded<V(!new)>(c: Codec<V>, m: map<Bytes, V>, ws: seq<Write>, w: Write)
    requires Recorded(c, ws, m) && ReplayWrite(c, m, w).Some?
    ensures Recorded(c, ws + [w], ReplayWrite(c, m, w).value)
  {
    var all, m' := ws + [w], ReplayWrite(c, m, w).value;
    assert forall j :: 0 <= j < |ws| ==> all[j] == ws[j];
    forall k, i: nat | LastWrite(all, k, i)
      ensures if all[i].Delete? then k !in m' else k in m' && c.decode(all[i].value) == Some(m'[k])
    {
      if i < |ws| { assert all[|ws|] == w && LastWrite(ws, k, i); }
    }
    forall k | forall i :: 0 <= i < |all| ==> all[i].key != k ensures k !in m' {
      assert all[|ws|] == w;
    }
  }

  /** Replaying transactions gives the map that their writes record, exactly when every key and value can be read. */
  lemma {:induction false} LastWriteDecides<V(!new)>(c: Codec<V>, txns: seq<Transaction>)
    ensures Replay(c, txns).Some? <==> forall w :: w in AllWrites(txns) ==> Readable(c, w)
    ensures Replay(c, txns).Some? ==> Recorded(c, AllWrites(txns), Replay(c, txns).value)
    decreases |txns|
  {
    if txns != [] {
      var init, t := txns[..|txns| - 1], txns[|txns| - 1];
      LastWriteDecides(c, init);
      assert AllWrites(txns) == AllWrites(init) + t.writes;
      if Replay(c, init).Some? { WritesRecorded(c, Replay(c, init).value, AllWrites(init), t.writes); }
    }
  }

  // ── Admission of a transaction ──

  predicate ValidKey(key: Bytes) {
    0 < |key| <= MAX_KEY_BYTES && 0 !in key
  }

  predicate OpAccepted<V>(c: Codec<V>, op: Operation<V>) {
    ValidKey(op.key) && (op.Put? ==> |c.encode(op.value)| <= MAX_VALUE_BYTES)
  }

  function OpBytes<V>(c: Codec<V>, op: Operation<V>): nat {
    |op.key| + if op.Put? then |c.encode(op.value)| else 0
  }

  function OpsBytes<V>(c: Codec<V>, ops: seq<Operation<V>>): nat
    decreases |ops|
  {
    if ops == [] then 0 else OpsBytes(c, ops[..|ops| - 1]) + OpBytes(c, Last(ops))
  }

  predicate OpsAccepted<V>(c: Codec<V>, ops: seq<Operation<V>>) {
    && 1 <= |ops| <= MAX_TRANSACTION_OPERATIONS
    && (forall i :: 0 <= i < |ops| ==> OpAccepted(c, ops[i]))
    && OpsBytes(c, ops) <= MAX_TRANSACTION_BYTES
  }

  ghost predicate AllText<V>(c: Codec<V>, ops: seq<Operation<V>>) {
    forall i :: 0 <= i < |ops| ==> c.isText(ops[i].key)
  }

  // ── Replaying what was encoded ──

  /** Replaying the writes of a transaction does to the map what its operations did. */
  lemma {:induction false} ReplayOps<V(!new)>(c: Codec<V>, m: map<Bytes, V>, ops: seq<Operation<V>>)
    requires Lawful(c) && AllText(c, ops)
    ensures ReplayWrites(c, m, EncodeOps(c, ops)) == Some(ApplyOps(m, ops))
    decreases |ops|
  {
    if ops != [] {
      var init := ops[..|ops| - 1];
      ReplayOps(c, m, init);
      assert EncodeOps(c, ops)[..|ops| - 1] == EncodeOps(c, init);
      assert Last(EncodeOps(c, ops)) == EncodeOp(c, Last(ops));
    }
  }

  lemma ReplaySnoc<V>(c: Codec<V>, txns: seq<Transaction>, t: Transaction)
    ensures Replay(c, txns + [t]) ==
            if Replay(c, txns).Some? then ReplayWrites(c, Replay(c, txns).value, t.writes) else None
  {
    assert (txns + [t])[..|txns|] == txns;
  }

  lemma {:induction false} ReplayPrefix<V>(c: Codec<V>, txns: seq<Transaction>, n: nat)
    requires n <= |txns| && Replay(c, txns).Some?
    ensures Replay(c, txns[..n]).Some?
    decreases |txns|
  {
    if n < |txns| {
      ReplayPrefix(c, txns[..|txns| - 1], n);
      assert txns[..|txns| - 1][..n] == txns[..n];
    } else {
      assert txns[..n] == txns;
    }
  }

  lemma EncodedWritesOk<V>(c: Codec<V>, ops: seq<Operation<V>>)
    requires forall i :: 0 <= i < |ops| ==> OpAccepted(c, ops[i])
    ensures WritesOk(EncodeOps(c, ops))
  {
  }

  /** The sum that is checked before a transaction is written: 34 bytes for its first and last record,
      and for every write 17 bytes and its payload. */
  function ReservedBytes(ws: seq<Write>): nat
    decreases |ws|
  {
    if ws == [] then 34
    else ReservedBytes(ws[..|ws| - 1]) + 17 + match Last(ws) { case Put(k, v) => 8 + |k| + |v| case Delete(k) => |k| }
  }

  lemma {:induction false} ReservedIsSize(ws: seq<Write>)
    ensures ReservedBytes(ws) == 34 + WritesSize(ws)
    decreases |ws|
  {
    if ws != [] {
      var init := ws[..|ws| - 1];
      ReservedIsSize(init);
      WritesSizeSnoc(init, Last(ws));
      assert init + [Last(ws)] == ws;
    }
  }

  /** That sum is exactly what the transaction appends. */
  lemma ReservationIsExact(id: u64, ws: seq<Write>)
    ensures ReservedBytes(ws) == LogSize(TransactionRecords(id, ws)) == |Encode(TransactionRecords(id, ws))|
  {
    ReservedIsSize(ws);
    TransactionSize(id, ws);
    EncodedSize(TransactionRecords(id, ws));
  }

  lemma {:induction false} WritesSizeSnoc(ws: seq<Write>, w: Write)
    ensures WritesSize(ws + [w]) == WritesSize(ws) + Size(Change(0, w))
    decreases |ws|
  {
    if ws == [] {
      assert WritesSize([w]) == Size(Change(0, w)) + WritesSize([w][1..]);
      assert ws + [w] == [w];
    } else {
      assert (ws + [w])[1..] == ws[1..] + [w];
      WritesSizeSnoc(ws[1..], w);
    }
  }
}
