/** What a log means, said without running it. */
module WalMeaning {
  import opened Keys
  import opened WalFormat

  // Which orders of records are legal, which transactions are committed, and with which writes. Recovery
  // computes exactly this.

  /** The writes of one transaction, in the order in which they were logged. */
  function WritesOf(rs: seq<Record>, id: u64): seq<Write>
    decreases |rs|
  {
    if rs == [] then []
    else
      var r := rs[|rs| - 1];
      WritesOf(rs[..|rs| - 1], id) + if r.Change? && r.id == id then [r.write] else []
  }

  /** The committed transactions in the order of their commit records. */
  function CommittedIn(rs: seq<Record>): seq<Transaction>
    decreases |rs|
  {
    if rs == [] then []
    else
      var r := rs[|rs| - 1];
      var before := rs[..|rs| - 1];
      CommittedIn(before) + if r.Commit? then [Transaction(r.id, WritesOf(before, r.id))] else []
  }

  predicate IsOpen(rs: seq<Record>, id: u64) {
    Begin(id) in rs && Commit(id) !in rs
  }

  /** Whether a record may follow the given ones. */
  predicate Legal(before: seq<Record>, r: Record) {
    match r
    case Begin(id) => Begin(id) !in before && !IsOpen(before, id)
    case Change(id, _) => IsOpen(before, id) && |WritesOf(before, id)| < MAX_TRANSACTION_OPERATIONS
    case Commit(id) => IsOpen(before, id)
  }

  predicate WellOrdered(rs: seq<Record>) {
    forall i {:trigger rs[..i]} :: 0 <= i < |rs| ==> Legal(rs[..i], rs[i])
  }

  ghost predicate Means(s: State, rs: seq<Record>) {
    && (forall id: u64 {:trigger id in s.seen} {:trigger Begin(id)} :: id in s.seen <==> Begin(id) in rs)
    && (forall id: u64 {:trigger id in s.pending} {:trigger IsOpen(rs, id)} :: id in s.pending <==> IsOpen(rs, id))
    && (forall id: u64 {:trigger s.pending[id]} :: id in s.pending ==> s.pending[id] == WritesOf(rs, id))
    && s.committed == CommittedIn(rs)
  }

  lemma WritesSnoc(rs: seq<Record>, r: Record, id: u64)
    ensures WritesOf(rs + [r], id) == WritesOf(rs, id) + if r.Change? && r.id == id then [r.write] else []
  {
    assert (rs + [r])[..|rs|] == rs;
  }

  lemma CommittedSnoc(rs: seq<Record>, r: Record)
    ensures CommittedIn(rs + [r]) == CommittedIn(rs) + if r.Commit? then [Transaction(r.id, WritesOf(rs, r.id))] else []
  {
    assert (rs + [r])[..|rs|] == rs;
  }

  lemma {:induction false} NoWritesBeforeBegin(rs: seq<Record>, id: u64)
    requires WellOrdered(rs) && Begin(id) !in rs
    ensures WritesOf(rs, id) == [] && Commit(id) !in rs
    decreases |rs|
  {
    if rs != [] {
      WellOrderedInit(rs);
      NoWritesBeforeBegin(rs[..|rs| - 1], id);
      assert Legal(rs[..|rs| - 1], rs[|rs| - 1]);
    }
  }

  lemma WellOrderedInit(rs: seq<Record>)
    requires rs != []
    ensures WellOrdered(rs) <==> WellOrdered(rs[..|rs| - 1]) && Legal(rs[..|rs| - 1], rs[|rs| - 1])
  {
    var before := rs[..|rs| - 1];
    assert forall i {:trigger before[..i]} :: 0 <= i < |before| ==> before[..i] == rs[..i];
    assert forall i {:trigger rs[..i]} :: 0 <= i < |before| ==> before[..i] == rs[..i];
  }

  /** One record: accepted exactly when legal, and the reader's state keeps its meaning. */
  lemma ApplyMeans(rs: seq<Record>, r: Record, s: State)
    requires WellOrdered(rs) && Means(s, rs)
    ensures Apply(s, r).Ok? <==> Legal(rs, r)
    ensures Apply(s, r).Ok? ==> Means(Apply(s, r).value, rs + [r])
  {
    if Apply(s, r).Ok? {
      var s' := Apply(s, r).value;
      CommittedSnoc(rs, r);
      if Begin(r.id) !in rs { NoWritesBeforeBegin(rs, r.id); }
      forall id: u64 ensures WritesOf(rs + [r], id) == WritesOf(rs, id) + if r.Change? && r.id == id then [r.write] else [] {
        WritesSnoc(rs, r, id);
      }
      assert forall id: u64 {:trigger IsOpen(rs + [r], id)} :: id in s'.pending <==> IsOpen(rs + [r], id);
    }
  }

  /** Applying the records one by one succeeds exactly on a well-ordered log, and then yields
      the committed transactions, the begun ids and the open transactions of that log. */
  lemma {:induction false} RunMeans(rs: seq<Record>)
    ensures Run(rs, EMPTY).Ok? <==> WellOrdered(rs)
    ensures Run(rs, EMPTY).Ok? ==> Means(Run(rs, EMPTY).value, rs)
    ensures Run(rs, EMPTY).Err? ==> Run(rs, EMPTY) == Err(Corrupt)
    decreases |rs|
  {
    if rs != [] {
      var before, r := rs[..|rs| - 1], rs[|rs| - 1];
      assert rs == before + [r];
      RunMeans(before);
      RunConcat(before, [r], EMPTY);
      WellOrderedInit(rs);
      if Run(before, EMPTY).Ok? {
        var s := Run(before, EMPTY).value;
        ApplyMeans(before, r, s);
        RunSingle(r, s);
      }
    }
  }

  lemma RunSingle(r: Record, s: State)
    ensures Run([r], s) == Apply(s, r)
  {
  }

  lemma {:induction false} PrefixesWellOrdered(rs: seq<Record>, j: nat)
    requires j <= |rs| && WellOrdered(rs)
    ensures WellOrdered(rs[..j])
  {
    assert forall i {:trigger rs[..j][..i]} :: 0 <= i < j ==> rs[..j][..i] == rs[..i];
  }

  /** The transactions committed by a prefix are a prefix of those committed in the end. */
  lemma {:induction false} CommittedPrefix(rs: seq<Record>, i: nat, j: nat)
    requires i <= j <= |rs|
    ensures CommittedIn(rs[..i]) <= CommittedIn(rs[..j])
    decreases j
  {
    if i < j {
      CommittedPrefix(rs, i, j - 1);
      assert rs[..j] == rs[..j - 1] + [rs[j - 1]];
      CommittedSnoc(rs[..j - 1], rs[j - 1]);
    } else {
      assert i == j;
    }
  }

  /** A committed transaction has all the writes logged for it, and was committed once. */
  lemma {:induction false} CommittedWrites(rs: seq<Record>, i: nat)
    requires WellOrdered(rs) && i < |CommittedIn(rs)|
    ensures Commit(CommittedIn(rs)[i].id) in rs
    ensures CommittedIn(rs)[i].writes == WritesOf(rs, CommittedIn(rs)[i].id)
    ensures forall j :: 0 <= j < |CommittedIn(rs)| && j != i ==> CommittedIn(rs)[j].id != CommittedIn(rs)[i].id
    decreases |rs|
  {
    var before, r := rs[..|rs| - 1], rs[|rs| - 1];
    assert rs == before + [r];
    WellOrderedInit(rs);
    var all := CommittedIn(before);
    forall k | 0 <= k < |all|
      ensures Commit(all[k].id) in before && all[k].writes == WritesOf(before, all[k].id)
    {
      CommittedWrites(before, k);
    }
    if i < |all| {
      CommittedWrites(before, i);
      WritesSnoc(before, r, all[i].id);
    }
  }

  // ── Reading logs ──

  /** Reading the whole of a log written in a legal order gives its meaning. */
  lemma RecoveryInvertsWriter(rs: seq<Record>)
    requires RecordsOk(rs) && WellOrdered(rs) && |MAGIC + Encode(rs)| <= MAX_WAL_BYTES
    ensures ReadLog(MAGIC + Encode(rs)).Ok? && Means(ReadLog(MAGIC + Encode(rs)).value, rs)
  {
    RunMeans(rs);
    ReadWhole(rs, EMPTY);
    LogOf(Encode(rs));
  }

  /** Reading the first k bytes of such a log succeeds exactly when the cut is at the end of a record,
      at or after the magic, and then gives what had been committed by then. */
  lemma RecoveryOfPrefix(rs: seq<Record>, k: nat)
    requires RecordsOk(rs) && WellOrdered(rs) && |MAGIC + Encode(rs)| <= MAX_WAL_BYTES
    requires k <= |MAGIC + Encode(rs)|
    ensures ReadLog((MAGIC + Encode(rs))[..k]).Ok? <==> k >= |MAGIC| && EndsRecord(rs, k - |MAGIC|)
    ensures ReadLog((MAGIC + Encode(rs))[..k]).Ok? ==>
              Means(ReadLog((MAGIC + Encode(rs))[..k]).value, rs[..Whole(rs, k - |MAGIC|)])
    ensures ReadLog((MAGIC + Encode(rs))[..k]).Err? ==> ReadLog((MAGIC + Encode(rs))[..k]) == Err(Corrupt)
  {
    if k >= |MAGIC| {
      var k' := k - |MAGIC|;
      RunMeans(rs);
      assert (MAGIC + Encode(rs))[..k] == MAGIC + Encode(rs)[..k'];
      LogOf(Encode(rs)[..k']);
      ReadPrefix(rs, k', EMPTY);
      PrefixesWellOrdered(rs, Whole(rs, k'));
      RunMeans(rs[..Whole(rs, k')]);
    }
  }
}
