/** What appending one transaction means. */
module TransactionLog {
  import opened Keys
  import opened WalFormat
  import opened WalMeaning

  /** What a device with room for only so many bytes takes of the given bytes. */
  function Taken(bytes: Bytes, room: nat): Bytes {
    if |bytes| <= room then bytes else bytes[..room]
  }

  /** The records of one transaction. */
  function Changes(id: u64, writes: seq<Write>): (rs: seq<Record>)
    ensures |rs| == |writes|
    ensures forall i {:trigger rs[i]} :: 0 <= i < |rs| ==> rs[i] == Change(id, writes[i])
  {
    seq(|writes|, i requires 0 <= i < |writes| => Change(id, writes[i]))
  }

  function TransactionRecords(id: u64, writes: seq<Write>): seq<Record> {
    [Begin(id)] + Changes(id, writes) + [Commit(id)]
  }

  predicate WritesOk(writes: seq<Write>) {
    forall i :: 0 <= i < |writes| ==> WriteOk(writes[i])
  }

  function Last<T>(s: seq<T>): T
    requires s != []
  {
    s[|s| - 1]
  }

  // ── Sizes ──

  function WritesSize(writes: seq<Write>): nat
    decreases |writes|
  {
    if writes == [] then 0 else Size(Change(0, writes[0])) + WritesSize(writes[1..])
  }

  lemma {:induction false} LogSizeConcat(a: seq<Record>, b: seq<Record>)
    ensures LogSize(a + b) == LogSize(a) + LogSize(b)
    decreases |a|
  {
    if a == [] {
      assert a + b == b;
    } else {
      assert (a + b)[1..] == a[1..] + b;
      LogSizeConcat(a[1..], b);
    }
  }

  lemma {:induction false} ChangesSize(id: u64, writes: seq<Write>)
    ensures LogSize(Changes(id, writes)) == WritesSize(writes)
    decreases |writes|
  {
    if writes != [] {
      assert Changes(id, writes)[1..] == Changes(id, writes[1..]);
      ChangesSize(id, writes[1..]);
    }
  }

  /** The bytes a transaction takes up do not depend on its id. */
  lemma TransactionSize(id: u64, writes: seq<Write>)
    ensures LogSize(TransactionRecords(id, writes)) == 34 + WritesSize(writes)
  {
    var a, b, c := [Begin(id)], Changes(id, writes), [Commit(id)];
    LogSizeConcat(a + b, c);
    LogSizeConcat(a, b);
    ChangesSize(id, writes);
    assert LogSize(a) == 17 + LogSize(a[1..]) && LogSize(c) == 17 + LogSize(c[1..]);
  }

  // ── Meaning ──

  lemma {:induction false} CommitNeedsBegin(rs: seq<Record>, id: u64)
    requires WellOrdered(rs) && Begin(id) !in rs
    ensures WritesOf(rs, id) == [] && Commit(id) !in rs
  {
    NoWritesBeforeBegin(rs, id);
  }

  /** A transaction that is under way: begun, and with the first n of its writes. */
  lemma {:induction false} UnderWay(rs: seq<Record>, id: u64, writes: seq<Write>, n: nat)
    requires WellOrdered(rs) && Begin(id) !in rs && n <= |writes| <= MAX_TRANSACTION_OPERATIONS
    ensures var now := rs + [Begin(id)] + Changes(id, writes[..n]);
            WellOrdered(now) && CommittedIn(now) == CommittedIn(rs) && WritesOf(now, id) == writes[..n] && IsOpen(now, id)
    decreases n
  {
    hide WritesOf, CommittedIn, WellOrdered;
    CommitNeedsBegin(rs, id);
    if n == 0 {
      var now := rs + [Begin(id)];
      assert rs + [Begin(id)] + Changes(id, writes[..0]) == now;
      assert now[..|rs|] == rs;
      WellOrderedInit(now);
      CommittedSnoc(rs, Begin(id));
      WritesSnoc(rs, Begin(id), id);
    } else {
      UnderWay(rs, id, writes, n - 1);
      var before := rs + [Begin(id)] + Changes(id, writes[..n - 1]);
      var r := Change(id, writes[n - 1]);
      var now := rs + [Begin(id)] + Changes(id, writes[..n]);
      assert now == before + [r];
      assert now[..|before|] == before;
      assert writes[..n] == writes[..n - 1] + [writes[n - 1]];
      WellOrderedInit(now);
      CommittedSnoc(before, r);
      WritesSnoc(before, r, id);
    }
  }

  /** Appending the records of a transaction with a new id commits that transaction. */
  lemma AppendTransaction(rs: seq<Record>, id: u64, writes: seq<Write>)
    requires WellOrdered(rs) && Begin(id) !in rs && |writes| <= MAX_TRANSACTION_OPERATIONS
    ensures WellOrdered(rs + TransactionRecords(id, writes))
    ensures CommittedIn(rs + TransactionRecords(id, writes)) == CommittedIn(rs) + [Transaction(id, writes)]
  {
    hide WritesOf, CommittedIn, WellOrdered;
    UnderWay(rs, id, writes, |writes|);
    assert writes[..|writes|] == writes;
    var before := rs + [Begin(id)] + Changes(id, writes);
    var now := rs + TransactionRecords(id, writes);
    assert now == before + [Commit(id)];
    assert now[..|before|] == before;
    WellOrderedInit(now);
    CommittedSnoc(before, Commit(id));
  }

  /** Before its commit record a transaction changes nothing. */
  lemma PartOfTransaction(rs: seq<Record>, id: u64, writes: seq<Write>, j: nat)
    requires WellOrdered(rs) && Begin(id) !in rs && |writes| <= MAX_TRANSACTION_OPERATIONS
    requires j <= |rs| + 1 + |writes|
    ensures j <= |rs + TransactionRecords(id, writes)|
    ensures j >= |rs| ==> CommittedIn((rs + TransactionRecords(id, writes))[..j]) == CommittedIn(rs)
    ensures j <= |rs| ==> (rs + TransactionRecords(id, writes))[..j] == rs[..j]
  {
    var all := rs + TransactionRecords(id, writes);
    if j == |rs| {
      assert all[..j] == rs;
    } else if j > |rs| {
      var n := j - |rs| - 1;
      UnderWay(rs, id, writes, n);
      assert all[..j] == rs + [Begin(id)] + Changes(id, writes[..n]);
    }
  }

  lemma TransactionRecordsOk(id: u64, writes: seq<Write>)
    requires WritesOk(writes)
    ensures RecordsOk(TransactionRecords(id, writes))
  {
  }
}
