/** A checkpoint keeps the map and never grows the log. */
module Compaction {
  import opened Wrappers
  import opened Keys
  import opened WalFormat
  import opened WalMeaning
  import opened TransactionLog
  import opened DatabaseModel

  function ChunkSize(n: nat): nat {
    if n < MAX_TRANSACTION_OPERATIONS then n else MAX_TRANSACTION_OPERATIONS
  }

  /** Transactions needed for n entries. */
  function Chunks(n: nat): nat {
    if n == 0 then 0 else 1 + Chunks(n - ChunkSize(n))
  }

  predicate WholeChunks(n: nat) {
    n == 0 || (n >= MAX_TRANSACTION_OPERATIONS && WholeChunks(n - MAX_TRANSACTION_OPERATIONS))
  }

  lemma {:induction false} ChunksIsCeiling(n: nat)
    ensures Chunks(n) == (n + 1023) / 1024
    ensures WholeChunks(n) <==> n % 1024 == 0
  {
    if n >= MAX_TRANSACTION_OPERATIONS { ChunksIsCeiling(n - MAX_TRANSACTION_OPERATIONS); }
  }

  /** The next chunk after whole chunks. */
  lemma {:induction false} NextChunkSize(i: nat, total: nat)
    requires WholeChunks(i) && i < total
    ensures var n := ChunkSize(total - i);
            0 < n && i + n <= total && Chunks(i + n) == Chunks(i) + 1 <= Chunks(total) && (i + n < total ==> WholeChunks(i + n))
  {
    if i > 0 { NextChunkSize(i - MAX_TRANSACTION_OPERATIONS, total - MAX_TRANSACTION_OPERATIONS); }
  }

  /** The rewritten log: one transaction for every chunk of entries, with ids from `id` on. */
  function CheckpointRecords<V>(c: Codec<V>, puts: seq<Operation<V>>, id: nat): seq<Record>
    requires id + Chunks(|puts|) <= MAX_U64
    decreases |puts|
  {
    if puts == [] then []
    else
      var n := ChunkSize(|puts|);
      TransactionRecords(id, EncodeOps(c, puts[..n])) + CheckpointRecords(c, puts[n..], id + 1)
  }

  /** The operations put every entry of the map, each once. */
  ghost predicate Lists<V>(puts: seq<Operation<V>>, m: map<Bytes, V>) {
    && (forall i {:trigger puts[i]} :: 0 <= i < |puts| ==> puts[i].Put? && puts[i].key in m && m[puts[i].key] == puts[i].value)
    && (forall i, j :: 0 <= i < j < |puts| ==> puts[i].key != puts[j].key)
    && |puts| == |m|
  }

  // ── The same map ──

  lemma {:induction false} ApplyConcat<V>(m: map<Bytes, V>, a: seq<Operation<V>>, b: seq<Operation<V>>)
    ensures ApplyOps(m, a + b) == ApplyOps(ApplyOps(m, a), b)
    decreases |b|
  {
    if b == [] {
      assert a + b == a;
    } else {
      ApplyConcat(m, a, b[..|b| - 1]);
      assert (a + b)[..|a + b| - 1] == a + b[..|b| - 1];
    }
  }

  ghost predicate IdsBelow(rs: seq<Record>, id: nat) {
    forall i {:trigger rs[i]} :: 0 <= i < |rs| ==> rs[i].id < id
  }

  /** One transaction appended to a log: its operations are done to the map. */
  lemma AppendedReplays<V(!new)>(c: Codec<V>, rs: seq<Record>, m: map<Bytes, V>, ops: seq<Operation<V>>, id: u64)
    requires Lawful(c) && AllText(c, ops) && |ops| <= MAX_TRANSACTION_OPERATIONS
    requires WellOrdered(rs) && IdsBelow(rs, id) && Replay(c, CommittedIn(rs)) == Some(m)
    ensures var all := rs + TransactionRecords(id, EncodeOps(c, ops));
            WellOrdered(all) && IdsBelow(all, id + 1) && Replay(c, CommittedIn(all)) == Some(ApplyOps(m, ops))
  {
    hide WellOrdered, CommittedIn;
    var ws := EncodeOps(c, ops);
    AppendTransaction(rs, id, ws);
    ReplaySnoc(c, CommittedIn(rs), Transaction(id, ws));
    ReplayOps(c, m, ops);
  }

  lemma CheckpointSplits<V>(c: Codec<V>, rs: seq<Record>, puts: seq<Operation<V>>, id: nat, n: nat)
    requires puts != [] && id + Chunks(|puts|) <= MAX_U64 && n == ChunkSize(|puts|)
    ensures Chunks(|puts[n..]|) == Chunks(|puts|) - 1
    ensures rs + CheckpointRecords(c, puts, id) ==
            rs + TransactionRecords(id, EncodeOps(c, puts[..n])) + CheckpointRecords(c, puts[n..], id + 1)
  {
    assert rs + CheckpointRecords(c, puts, id) ==
           rs + (TransactionRecords(id, EncodeOps(c, puts[..n])) + CheckpointRecords(c, puts[n..], id + 1));
  }

  /** Transactions appended after a log replay after it. */
  lemma {:induction false} CheckpointMeans<V(!new)>(
      c: Codec<V>, rs: seq<Record>, m: map<Bytes, V>, puts: seq<Operation<V>>, id: nat)
    requires Lawful(c) && AllText(c, puts) && id + Chunks(|puts|) <= MAX_U64
    requires WellOrdered(rs) && IdsBelow(rs, id) && Replay(c, CommittedIn(rs)) == Some(m)
    ensures var all := rs + CheckpointRecords(c, puts, id);
            WellOrdered(all) && IdsBelow(all, id + Chunks(|puts|)) && Replay(c, CommittedIn(all)) == Some(ApplyOps(m, puts))
    decreases |puts|
  {
    hide TransactionRecords, EncodeOps, CommittedIn, Replay, WellOrdered, IdsBelow;
    if puts == [] {
      assert rs + CheckpointRecords(c, puts, id) == rs;
    } else {
      var n := ChunkSize(|puts|);
      CheckpointSplits(c, rs, puts, id, n);
      AppendedReplays(c, rs, m, puts[..n], id);
      CheckpointMeans(c, rs + TransactionRecords(id, EncodeOps(c, puts[..n])), ApplyOps(m, puts[..n]), puts[n..], id + 1);
      assert puts == puts[..n] + puts[n..];
      ApplyConcat(m, puts[..n], puts[n..]);
    }
  }

  /** Putting every entry of a map gives the map. */
  lemma ListsGiveMap<V>(puts: seq<Operation<V>>, m: map<Bytes, V>)
    requires Lists(puts, m)
    ensures ApplyOps(map[], puts) == m
  {
    PutsGiveKeys(puts, m, |puts|);
    assert puts[..|puts|] == puts;
    var keys := ApplyOps(map[], puts).Keys;
    SubsetOfSameSize(keys, m.Keys);
  }

  lemma {:induction false} PutsGiveKeys<V>(puts: seq<Operation<V>>, m: map<Bytes, V>, n: nat)
    requires Lists(puts, m) && n <= |puts|
    ensures var now := ApplyOps(map[], puts[..n]);
            && |now| == n && (forall k :: k in now ==> k in m && now[k] == m[k])
            && (forall j {:trigger puts[j]} :: n <= j < |puts| ==> puts[j].key !in now)
  {
    if n > 0 {
      PutsGiveKeys(puts, m, n - 1);
      assert puts[..n][..n - 1] == puts[..n - 1];
      OnePut(puts, m, n - 1, ApplyOps(map[], puts[..n - 1]));
    }
  }

  lemma OnePut<V>(puts: seq<Operation<V>>, m: map<Bytes, V>, i: nat, before: map<Bytes, V>)
    requires Lists(puts, m) && i < |puts| && |before| == i && puts[i].key !in before
    requires forall k :: k in before ==> k in m && before[k] == m[k]
    requires forall j {:trigger puts[j]} :: i <= j < |puts| ==> puts[j].key !in before
    ensures var now := before[puts[i].key := puts[i].value];
            && |now| == i + 1 && (forall k :: k in now ==> k in m && now[k] == m[k])
            && (forall j {:trigger puts[j]} :: i < j < |puts| ==> puts[j].key !in now)
  {
    var now := before[puts[i].key := puts[i].value];
    assert now.Keys == before.Keys + {puts[i].key};
  }

  lemma SubsetOfSameSize(a: set<Bytes>, b: set<Bytes>)
    requires a <= b && |a| == |b|
    ensures a == b
  {
    assert |b - a| == |b| - |a|;
  }

  // ── Never longer ──

  function EntrySize<V>(c: Codec<V>, key: Bytes, value: V): nat {
    25 + |key| + |c.encode(value)|
  }

  /** The bytes of the put records of all entries. */
  ghost function MapCost<V>(c: Codec<V>, m: map<Bytes, V>): nat
    decreases |m|
  {
    if m == map[] then 0
    else
      var k :| k in m;
      assert |m - {k}| < |m| by { Shrinks(m, k); }
      EntrySize(c, k, m[k]) + MapCost(c, m - {k})
  }

  /** The bytes of the log rewritten from a map. */
  ghost function RewrittenSize<V>(c: Codec<V>, m: map<Bytes, V>): nat {
    34 * Chunks(|m|) + MapCost(c, m)
  }

  lemma Shrinks<V>(m: map<Bytes, V>, k: Bytes)
    requires k in m
    ensures |m - {k}| == |m| - 1
  {
    assert (m - {k}).Keys == m.Keys - {k};
  }

  lemma {:induction false} MapCostWithout<V>(c: Codec<V>, m: map<Bytes, V>, k: Bytes)
    requires k in m
    ensures MapCost(c, m) == EntrySize(c, k, m[k]) + MapCost(c, m - {k})
    decreases |m|
  {
    var k' :| k' in m && MapCost(c, m) == EntrySize(c, k', m[k']) + MapCost(c, m - {k'});
    if k' != k {
      Shrinks(m, k');
      MapCostWithout(c, m - {k'}, k);
      Shrinks(m, k);
      MapCostWithout(c, m - {k}, k');
      assert m - {k'} - {k} == m - {k} - {k'};
    }
  }

  lemma MapCostPut<V>(c: Codec<V>, m: map<Bytes, V>, k: Bytes, v: V)
    ensures MapCost(c, m[k := v]) <= MapCost(c, m) + EntrySize(c, k, v)
    ensures |m[k := v]| <= |m| + 1
  {
    MapCostWithout(c, m[k := v], k);
    assert m[k := v] - {k} == m - {k};
    if k in m {
      MapCostWithout(c, m, k);
      assert m[k := v].Keys == m.Keys;
    } else {
      assert m - {k} == m;
      assert m[k := v].Keys == m.Keys + {k};
    }
  }

  lemma MapCostDelete<V>(c: Codec<V>, m: map<Bytes, V>, k: Bytes)
    ensures MapCost(c, m - {k}) <= MapCost(c, m) && |m - {k}| <= |m|
  {
    if k in m {
      MapCostWithout(c, m, k);
      Shrinks(m, k);
    } else {
      assert m - {k} == m;
    }
  }

  lemma {:induction false} ListingCost<V>(c: Codec<V>, puts: seq<Operation<V>>, m: map<Bytes, V>)
    requires Lists(puts, m)
    ensures WritesSize(EncodeOps(c, puts)) == MapCost(c, m)
    decreases |puts|
  {
    if puts == [] {
      assert m.Keys == {};
    } else {
      var op, rest := puts[0], puts[1..];
      var m' := m - {op.key};
      Shrinks(m, op.key);
      assert Lists(rest, m');
      ListingCost(c, rest, m');
      MapCostWithout(c, m, op.key);
      assert EncodeOps(c, puts)[1..] == EncodeOps(c, rest);
    }
  }

  /** A write as the database logs it: a valid text key, and a value that is the encoding of something. */
  ghost predicate Faithful<V>(c: Codec<V>, w: Write) {
    && c.isText(w.key) && ValidKey(w.key)
    && (w.Put? ==> |w.value| <= MAX_VALUE_BYTES && c.decode(w.value).Some? && c.encode(c.decode(w.value).value) == w.value)
  }

  ghost predicate FaithfulWrites<V>(c: Codec<V>, ws: seq<Write>) {
    forall i {:trigger ws[i]} :: 0 <= i < |ws| ==> Faithful(c, ws[i])
  }

  ghost predicate FaithfulLog<V>(c: Codec<V>, rs: seq<Record>) {
    forall i {:trigger rs[i]} :: 0 <= i < |rs| && rs[i].Change? ==> Faithful(c, rs[i].write)
  }

  /** Every entry can be written again. */
  ghost predicate LiveOk<V>(c: Codec<V>, m: map<Bytes, V>) {
    forall k {:trigger m[k]} :: k in m ==> ValidKey(k) && c.isText(k) && |c.encode(m[k])| <= MAX_VALUE_BYTES
  }

  lemma {:induction false} ReplayCost<V>(c: Codec<V>, m: map<Bytes, V>, ws: seq<Write>)
    requires FaithfulWrites(c, ws) && LiveOk(c, m)
    ensures ReplayWrites(c, m, ws).Some?
    ensures var now := ReplayWrites(c, m, ws).value;
            LiveOk(c, now) && MapCost(c, now) <= MapCost(c, m) + WritesSize(ws) && |now| <= |m| + |ws|
    decreases |ws|
  {
    hide LiveOk, MapCost, Faithful, ReplayWrite, Size;
    if ws != [] {
      var init, w := ws[..|ws| - 1], Last(ws);
      assert w == ws[|ws| - 1];
      ReplayCost(c, m, init);
      var m' := ReplayWrites(c, m, init).value;
      assert ws == init + [w];
      WritesSizeSnoc(init, w);
      ReplayOneCost(c, m', w);
    }
  }

  lemma ReplayOneCost<V>(c: Codec<V>, m: map<Bytes, V>, w: Write)
    requires Faithful(c, w) && LiveOk(c, m)
    ensures ReplayWrite(c, m, w).Some?
    ensures var now := ReplayWrite(c, m, w).value;
            LiveOk(c, now) && MapCost(c, now) <= MapCost(c, m) + Size(Change(0, w)) && |now| <= |m| + 1
  {
    if w.Put? {
      MapCostPut(c, m, w.key, c.decode(w.value).value);
    } else {
      MapCostDelete(c, m, w.key);
    }
  }

  function TransactionsSize(txns: seq<Transaction>): nat
    decreases |txns|
  {
    if txns == [] then 0 else TransactionsSize(txns[..|txns| - 1]) + 34 + WritesSize(Last(txns).writes)
  }

  ghost predicate FaithfulTransactions<V>(c: Codec<V>, txns: seq<Transaction>) {
    forall i {:trigger txns[i]} :: 0 <= i < |txns| ==>
      FaithfulWrites(c, txns[i].writes) && |txns[i].writes| <= MAX_TRANSACTION_OPERATIONS
  }

  lemma {:induction false} ReplayAllCost<V>(c: Codec<V>, txns: seq<Transaction>)
    requires FaithfulTransactions(c, txns)
    ensures Replay(c, txns).Some?
    ensures var now := Replay(c, txns).value;
            LiveOk(c, now) && MapCost(c, now) + 34 * |txns| <= TransactionsSize(txns)
            && |now| <= MAX_TRANSACTION_OPERATIONS * |txns|
    decreases |txns|
  {
    if txns != [] {
      var init, t := txns[..|txns| - 1], Last(txns);
      assert t == txns[|txns| - 1];
      ReplayAllCost(c, init);
      ReplayCost(c, Replay(c, init).value, t.writes);
    }
  }

  // ── Committed transactions take up room of their own in the log ──

  /** The bytes of the records with the given id. */
  function Charged(rs: seq<Record>, id: u64): nat
    decreases |rs|
  {
    if rs == [] then 0
    else Charged(rs[..|rs| - 1], id) + if Last(rs).id == id then Size(Last(rs)) else 0
  }

  function ChargedTo(rs: seq<Record>, txns: seq<Transaction>): nat
    decreases |txns|
  {
    if txns == [] then 0 else ChargedTo(rs, txns[..|txns| - 1]) + Charged(rs, Last(txns).id)
  }

  ghost predicate DistinctIds(txns: seq<Transaction>) {
    forall i, j :: 0 <= i < j < |txns| ==> txns[i].id != txns[j].id
  }

  lemma {:induction false} ChargedSnoc(rs: seq<Record>, r: Record, txns: seq<Transaction>)
    requires DistinctIds(txns)
    ensures ChargedTo(rs + [r], txns) <= ChargedTo(rs, txns) + Size(r)
    ensures (forall i :: 0 <= i < |txns| ==> txns[i].id != r.id) ==> ChargedTo(rs + [r], txns) == ChargedTo(rs, txns)
    decreases |txns|
  {
    if txns != [] {
      var init, t := txns[..|txns| - 1], Last(txns);
      assert t == txns[|txns| - 1];
      ChargedSnoc(rs, r, init);
      assert (rs + [r])[..|rs|] == rs;
    }
  }

  lemma {:induction false} ChargedIsWithinLog(rs: seq<Record>, txns: seq<Transaction>)
    requires DistinctIds(txns)
    ensures ChargedTo(rs, txns) <= LogSize(rs)
    decreases |rs|
  {
    if rs == [] {
      NothingCharged(txns);
    } else {
      var init, r := rs[..|rs| - 1], Last(rs);
      assert rs == init + [r];
      ChargedIsWithinLog(init, txns);
      ChargedSnoc(init, r, txns);
      LogSizeConcat(init, [r]);
      assert LogSize([r]) == Size(r) + LogSize([r][1..]);
    }
  }

  lemma {:induction false} NothingCharged(txns: seq<Transaction>)
    ensures ChargedTo([], txns) == 0
    decreases |txns|
  {
    if txns != [] { NothingCharged(txns[..|txns| - 1]); }
  }

  lemma {:induction false} ChargeOfOne(rs: seq<Record>, id: u64)
    ensures Charged(rs, id) >= WritesSize(WritesOf(rs, id))
                               + (if Begin(id) in rs then 17 else 0) + (if Commit(id) in rs then 17 else 0)
    decreases |rs|
  {
    if rs != [] {
      var init, r := rs[..|rs| - 1], Last(rs);
      assert rs == init + [r];
      ChargeOfOne(init, id);
      WritesSnoc(init, r, id);
      if r.Change? && r.id == id {
        WritesSizeSnoc(WritesOf(init, id), r.write);
        assert Size(r) == Size(Change(0, r.write));
      } else {
        assert WritesOf(init, id) + [] == WritesOf(init, id);
      }
      assert Begin(id) in rs <==> Begin(id) in init || r == Begin(id);
      assert Commit(id) in rs <==> Commit(id) in init || r == Commit(id);
    }
  }

  lemma {:induction false} TransactionsWithinCharge(rs: seq<Record>, n: nat)
    requires WellOrdered(rs) && n <= |CommittedIn(rs)|
    ensures TransactionsSize(CommittedIn(rs)[..n]) <= ChargedTo(rs, CommittedIn(rs)[..n])
  {
    if n > 0 {
      var txns := CommittedIn(rs);
      TransactionsWithinCharge(rs, n - 1);
      assert txns[..n][..n - 1] == txns[..n - 1];
      CommittedWrites(rs, n - 1);
      ChargeOfOne(rs, txns[n - 1].id);
      CommittedNeedsBegin(rs, txns[n - 1].id);
    }
  }

  lemma CommittedNeedsBegin(rs: seq<Record>, id: u64)
    requires WellOrdered(rs) && Commit(id) in rs
    ensures Begin(id) in rs
  {
    var i :| 0 <= i < |rs| && rs[i] == Commit(id);
    assert Legal(rs[..i], rs[i]);
  }

  lemma {:induction false} WritesAreLogged<V>(c: Codec<V>, rs: seq<Record>, id: u64)
    requires WellOrdered(rs) && FaithfulLog(c, rs)
    ensures FaithfulWrites(c, WritesOf(rs, id)) && |WritesOf(rs, id)| <= MAX_TRANSACTION_OPERATIONS
    decreases |rs|
  {
    if rs != [] {
      var init, r := rs[..|rs| - 1], rs[|rs| - 1];
      assert rs == init + [r];
      WellOrderedInit(rs);
      WritesAreLogged(c, init, id);
      WritesSnoc(init, r, id);
    }
  }

  lemma CommittedAreFaithful<V>(c: Codec<V>, rs: seq<Record>)
    requires WellOrdered(rs) && FaithfulLog(c, rs)
    ensures FaithfulTransactions(c, CommittedIn(rs))
  {
    forall i | 0 <= i < |CommittedIn(rs)|
      ensures FaithfulWrites(c, CommittedIn(rs)[i].writes) && |CommittedIn(rs)[i].writes| <= MAX_TRANSACTION_OPERATIONS
    {
      CommittedWrites(rs, i);
      WritesAreLogged(c, rs, CommittedIn(rs)[i].id);
    }
  }

  lemma SplitSize<V>(c: Codec<V>, ops: seq<Operation<V>>, n: nat)
    requires n <= |ops|
    ensures WritesSize(EncodeOps(c, ops)) == WritesSize(EncodeOps(c, ops[..n])) + WritesSize(EncodeOps(c, ops[n..]))
  {
    assert EncodeOps(c, ops) == EncodeOps(c, ops[..n]) + EncodeOps(c, ops[n..]);
    WritesSizeConcat(EncodeOps(c, ops[..n]), EncodeOps(c, ops[n..]));
  }

  lemma ChunksWithin(n: nat, transactions: nat)
    requires n <= MAX_TRANSACTION_OPERATIONS * transactions
    ensures Chunks(n) <= transactions
  {
    ChunksIsCeiling(n);
  }

  lemma {:induction false} CheckpointSize<V>(c: Codec<V>, puts: seq<Operation<V>>, id: nat)
    requires id + Chunks(|puts|) <= MAX_U64
    ensures LogSize(CheckpointRecords(c, puts, id)) == 34 * Chunks(|puts|) + WritesSize(EncodeOps(c, puts))
    decreases |puts|
  {
    if puts != [] {
      var n := ChunkSize(|puts|);
      CheckpointSplits(c, [], puts, id, n);
      CheckpointSize(c, puts[n..], id + 1);
      TransactionSize(id, EncodeOps(c, puts[..n]));
      LogSizeConcat(TransactionRecords(id, EncodeOps(c, puts[..n])), CheckpointRecords(c, puts[n..], id + 1));
      SplitSize(c, puts, n);
    }
  }

  lemma {:induction false} WritesSizeConcat(a: seq<Write>, b: seq<Write>)
    ensures WritesSize(a + b) == WritesSize(a) + WritesSize(b)
    decreases |a|
  {
    if a == [] {
      assert a + b == b;
    } else {
      assert (a + b)[1..] == a[1..] + b;
      WritesSizeConcat(a[1..], b);
    }
  }

  /** For any log of faithful writes, the log rewritten from its map is no longer. */
  lemma CheckpointNeverGrows<V>(c: Codec<V>, rs: seq<Record>, puts: seq<Operation<V>>, id: nat)
    requires WellOrdered(rs) && FaithfulLog(c, rs) && Replay(c, CommittedIn(rs)).Some?
    requires Lists(puts, Replay(c, CommittedIn(rs)).value) && id + Chunks(|puts|) <= MAX_U64
    ensures LogSize(CheckpointRecords(c, puts, id)) <= LogSize(rs)
  {
    var txns := CommittedIn(rs);
    CommittedAreFaithful(c, rs);
    ReplayAllCost(c, txns);
    ListingCost(c, puts, Replay(c, txns).value);
    CheckpointSize(c, puts, id);
    ChunksWithin(|puts|, |txns|);
    CommittedFit(rs);
  }

  /** The committed transactions take up no more than the log. */
  lemma CommittedFit(rs: seq<Record>)
    requires WellOrdered(rs)
    ensures TransactionsSize(CommittedIn(rs)) <= LogSize(rs)
  {
    var txns := CommittedIn(rs);
    forall i, j | 0 <= i < j < |txns| ensures txns[i].id != txns[j].id { CommittedWrites(rs, i); }
    TransactionsWithinCharge(rs, |txns|);
    assert txns[..|txns|] == txns;
    ChargedIsWithinLog(rs, txns);
  }

  // ── Writing it chunk by chunk ──

  /** After whole chunks, the next chunk is one more transaction. */
  lemma {:induction false} NextChunk<V>(c: Codec<V>, a: seq<Operation<V>>, b: seq<Operation<V>>, id: nat)
    requires WholeChunks(|a|) && 0 < |b| <= MAX_TRANSACTION_OPERATIONS
    requires id + Chunks(|a|) + 1 <= MAX_U64
    ensures Chunks(|a + b|) == Chunks(|a|) + 1
    ensures CheckpointRecords(c, a + b, id) ==
            CheckpointRecords(c, a, id) + TransactionRecords(id + Chunks(|a|), EncodeOps(c, b))
    decreases |a|
  {
    hide TransactionRecords, EncodeOps;
    if a == [] {
      assert a + b == b && b[..|b|] == b && b[|b|..] == [];
      assert CheckpointRecords(c, b, id) == TransactionRecords(id, EncodeOps(c, b)) + CheckpointRecords(c, [], id + 1);
    } else {
      var n := MAX_TRANSACTION_OPERATIONS;
      NextChunk(c, a[n..], b, id + 1);
      FirstChunk(c, a, id);
      FirstChunk(c, a + b, id);
      assert (a + b)[..n] == a[..n] && (a + b)[n..] == a[n..] + b;
      Associative(TransactionRecords(id, EncodeOps(c, a[..n])), CheckpointRecords(c, a[n..], id + 1),
                  TransactionRecords(id + Chunks(|a|), EncodeOps(c, b)));
    }
  }

  /** The same, for a position in the list of entries. */
  lemma ChunkAt<V>(c: Codec<V>, puts: seq<Operation<V>>, i: nat, id: nat)
    requires WholeChunks(i) && i < |puts| && id + Chunks(i) < MAX_U64
    ensures var n := ChunkSize(|puts| - i);
            && i + n <= |puts| && id + Chunks(i + n) <= MAX_U64
            && CheckpointRecords(c, puts[..i + n], id) ==
               CheckpointRecords(c, puts[..i], id) + TransactionRecords(id + Chunks(i), EncodeOps(c, puts[i..i + n]))
  {
    hide CheckpointRecords, TransactionRecords, EncodeOps;
    var n := ChunkSize(|puts| - i);
    NextChunkSize(i, |puts|);
    NextChunk(c, puts[..i], puts[i..i + n], id);
    assert puts[..i + n] == puts[..i] + puts[i..i + n];
  }

  lemma FirstChunk<V>(c: Codec<V>, a: seq<Operation<V>>, id: nat)
    requires |a| >= MAX_TRANSACTION_OPERATIONS && id + Chunks(|a|) <= MAX_U64
    ensures Chunks(|a|) == Chunks(|a| - MAX_TRANSACTION_OPERATIONS) + 1
    ensures CheckpointRecords(c, a, id) == TransactionRecords(id, EncodeOps(c, a[..MAX_TRANSACTION_OPERATIONS]))
                                           + CheckpointRecords(c, a[MAX_TRANSACTION_OPERATIONS..], id + 1)
  {
    assert ChunkSize(|a|) == MAX_TRANSACTION_OPERATIONS;
  }

  lemma Associative<T>(a: seq<T>, b: seq<T>, c: seq<T>)
    ensures a + b + c == a + (b + c)
  {
  }

  lemma PartSize<V>(c: Codec<V>, puts: seq<Operation<V>>, i: nat, id: nat)
    requires i <= |puts| && id + Chunks(i) <= MAX_U64
    ensures LogSize(CheckpointRecords(c, puts[..i], id)) <= 34 * Chunks(|puts|) + WritesSize(EncodeOps(c, puts))
    ensures i == |puts| ==> LogSize(CheckpointRecords(c, puts[..i], id)) == 34 * Chunks(|puts|) + WritesSize(EncodeOps(c, puts))
  {
    CheckpointSize(c, puts[..i], id);
    SplitSize(c, puts, i);
    ChunksIsCeiling(i);
    ChunksIsCeiling(|puts|);
    if i == |puts| { assert puts[..i] == puts; }
  }

  /** The bytes of the first entries, in whole chunks, are part of the bytes of all. */
  lemma PartOfCheckpoint<V>(c: Codec<V>, puts: seq<Operation<V>>, m: map<Bytes, V>, i: nat, id: nat)
    requires Lists(puts, m) && i <= |puts| && id + Chunks(i) <= MAX_U64
    ensures LogSize(CheckpointRecords(c, puts[..i], id)) <= RewrittenSize(c, m)
    ensures i == |puts| ==> LogSize(CheckpointRecords(c, puts[..i], id)) == RewrittenSize(c, m)
  {
    PartSize(c, puts, i, id);
    ListingCost(c, puts, m);
  }

  lemma {:induction false} RewrittenRecordsOk<V>(c: Codec<V>, puts: seq<Operation<V>>, id: nat)
    requires id + Chunks(|puts|) <= MAX_U64
    requires forall i {:trigger puts[i]} :: 0 <= i < |puts| ==> WriteOk(EncodeOp(c, puts[i]))
    ensures RecordsOk(CheckpointRecords(c, puts, id))
    decreases |puts|
  {
    if puts != [] {
      var n := ChunkSize(|puts|);
      TransactionRecordsOk(id, EncodeOps(c, puts[..n]));
      RewrittenRecordsOk(c, puts[n..], id + 1);
    }
  }
}
