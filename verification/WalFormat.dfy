/** The log as framed, checksummed records. */
module WalFormat {
  import opened Keys
  import opened LittleEndian
  import opened Checksum

  const MAGIC: Bytes := [0x46, 0x52, 0x54, 0x57, 0x41, 0x4C, 0x30, 0x31]
  const BEGIN: byte := 1
  const PUT: byte := 2
  const COMMIT: byte := 3
  const DELETE: byte := 4
  const MAX_KEY_BYTES: nat := 4096
  const MAX_VALUE_BYTES: nat := 1048576
  const MAX_RECORD_BYTES: nat := MAX_KEY_BYTES + MAX_VALUE_BYTES + 17
  const MAX_WAL_BYTES: nat := 67108864
  const MAX_TRANSACTION_OPERATIONS: nat := 1024

  type u64 = n: nat | n < 0x1_0000_0000_0000_0000

  datatype Error = Corrupt | RecordTooLarge | Limit | Io
  datatype Result<+T> = Ok(value: T) | Err(error: Error)

  datatype Write = Put(key: Bytes, value: Bytes) | Delete(key: Bytes)
  datatype Transaction = Transaction(id: u64, writes: seq<Write>)

  datatype Record = Begin(id: u64) | Change(id: u64, write: Write) | Commit(id: u64)

  // ── Writing ──

  function Kind(r: Record): byte {
    match r
    case Begin(_) => BEGIN
    case Change(_, Put(_, _)) => PUT
    case Change(_, Delete(_)) => DELETE
    case Commit(_) => COMMIT
  }

  function Payload(r: Record): Bytes {
    match r
    case Change(_, Put(k, v)) => ToLE(|k|, 4) + ToLE(|v|, 4) + k + v
    case Change(_, Delete(k)) => k
    case _ => []
  }

  function BodyOf(kind: byte, id: u64, payload: Bytes): Bytes {
    [kind] + ToLE(id, 8) + payload
  }

  /** The bytes one record takes up in the log. */
  function Size(r: Record): nat {
    match r
    case Change(_, Put(k, v)) => 25 + |k| + |v|
    case Change(_, Delete(k)) => 17 + |k|
    case _ => 17
  }

  function Body(r: Record): (b: Bytes)
    ensures 8 + |b| == Size(r)
  {
    BodyOf(Kind(r), r.id, Payload(r))
  }

  /** A record body behind its length and a checksum. */
  function FrameWith(sum: Bytes, body: Bytes): Bytes {
    ToLE(|body|, 4) + sum + body
  }

  function Frame(body: Bytes): (b: Bytes)
    ensures |b| == 8 + |body|
  {
    FrameWith(ToLE(ChecksumOf(body), 4), body)
  }

  function Encode(rs: seq<Record>): Bytes {
    if rs == [] then [] else Frame(Body(rs[0])) + Encode(rs[1..])
  }

  predicate WriteOk(w: Write) {
    |w.key| <= MAX_KEY_BYTES && (w.Put? ==> |w.value| <= MAX_VALUE_BYTES)
  }

  predicate RecordOk(r: Record) {
    r.Change? ==> WriteOk(r.write)
  }

  predicate RecordsOk(rs: seq<Record>) {
    forall i :: 0 <= i < |rs| ==> RecordOk(rs[i])
  }

  // ── Reading ──

  /** `parse_put` */
  function ParsePut(payload: Bytes): Result<Write> {
    if |payload| < 8 then Err(Corrupt)
    else
      var keyLen := FromLE(payload[..4]);
      var valueLen := FromLE(payload[4..8]);
      if keyLen > MAX_KEY_BYTES || valueLen > MAX_VALUE_BYTES then Err(Corrupt)
      else if |payload| != 8 + keyLen + valueLen then Err(Corrupt)
      else Ok(Put(payload[8..8 + keyLen], payload[8 + keyLen..]))
  }

  /** A record body by its kind. */
  function ParseBody(body: Bytes): Result<Record> {
    if |body| < 9 then Err(Corrupt)
    else
      var id := FromLE(body[1..9]);
      var payload := body[9..];
      FromLEBound(body[1..9]);
      WidthValues();
      if body[0] == BEGIN && payload == [] then Ok(Begin(id))
      else if body[0] == PUT then
        match ParsePut(payload)
        case Ok(w) => Ok(Change(id, w))
        case Err(e) => Err(e)
      else if body[0] == DELETE then
        if |payload| > MAX_KEY_BYTES then Err(Corrupt) else Ok(Change(id, Delete(payload)))
      else if body[0] == COMMIT && payload == [] then Ok(Commit(id))
      else Err(Corrupt)
  }

  /** What a reader knows: writes of open transactions, ids begun, transactions committed in order. */
  datatype State = State(pending: map<u64, seq<Write>>, seen: set<u64>, committed: seq<Transaction>)

  const EMPTY: State := State(map[], {}, [])

  function Apply(s: State, r: Record): Result<State> {
    match r
    case Begin(id) =>
      if id in s.seen || id in s.pending then Err(Corrupt)
      else Ok(s.(pending := s.pending[id := []], seen := s.seen + {id}))
    case Change(id, w) =>
      if id !in s.pending then Err(Corrupt)
      else if |s.pending[id]| >= MAX_TRANSACTION_OPERATIONS then Err(Corrupt)
      else Ok(s.(pending := s.pending[id := s.pending[id] + [w]]))
    case Commit(id) =>
      if id !in s.pending then Err(Corrupt)
      else Ok(s.(pending := s.pending - {id}, committed := s.committed + [Transaction(id, s.pending[id])]))
  }

  function ReadFrom(bytes: Bytes, s: State): Result<State>
    decreases |bytes|
  {
    if bytes == [] then Ok(s)
    else if |bytes| < 8 then Err(Corrupt)
    else
      var length := FromLE(bytes[..4]);
      if length > MAX_RECORD_BYTES then Err(Corrupt)
      else if |bytes| < 8 + length then Err(Corrupt)
      else
        var body := bytes[8..8 + length];
        if ChecksumOf(body) != FromLE(bytes[4..8]) then Err(Corrupt)
        else match ParseBody(body)
          case Err(e) => Err(e)
          case Ok(r) =>
            var s' := Apply(s, r);
            if s'.Err? then s' else ReadFrom(bytes[8 + length..], s'.value)
  }

  /** `Recovery::read` on the bytes of a file. */
  function ReadLog(bytes: Bytes): Result<State> {
    if |bytes| > MAX_WAL_BYTES then Err(Limit)
    else if |bytes| < |MAGIC| || bytes[..|MAGIC|] != MAGIC then Err(Corrupt)
    else ReadFrom(bytes[|MAGIC|..], EMPTY)
  }

  // ── Round trips ──

  lemma PutRoundTrip(k: Bytes, v: Bytes)
    requires |k| <= MAX_KEY_BYTES && |v| <= MAX_VALUE_BYTES
    ensures ParsePut(ToLE(|k|, 4) + ToLE(|v|, 4) + k + v) == Ok(Put(k, v))
  {
    var a, b := ToLE(|k|, 4), ToLE(|v|, 4);
    var p := a + b + k + v;
    WidthValues();
    FromToLE(|k|, 4);
    FromToLE(|v|, 4);
    assert p[..4] == a && p[4..8] == b && p[8..8 + |k|] == k && p[8 + |k|..] == v;
  }

  lemma BodyRoundTrip(r: Record)
    requires RecordOk(r)
    ensures ParseBody(Body(r)) == Ok(r)
  {
    var b := Body(r);
    WidthValues();
    FromToLE(r.id, 8);
    assert b[1..9] == ToLE(r.id, 8) && b[9..] == Payload(r);
    if r.Change? && r.write.Put? { PutRoundTrip(r.write.key, r.write.value); }
  }

  lemma BodySize(r: Record)
    requires RecordOk(r)
    ensures |Body(r)| <= MAX_RECORD_BYTES
  {
  }

  /** The parts of a frame at the front of some bytes. */
  lemma FrameParts(body: Bytes, rest: Bytes)
    requires |body| <= MAX_RECORD_BYTES
    ensures var bytes := Frame(body) + rest;
            && FromLE(bytes[..4]) == |body| && FromLE(bytes[4..8]) == ChecksumOf(body)
            && bytes[8..8 + |body|] == body && bytes[8 + |body|..] == rest
  {
    var a, b := ToLE(|body|, 4), ToLE(ChecksumOf(body), 4);
    var bytes := Frame(body) + rest;
    WidthValues();
    FromToLE(|body|, 4);
    FromToLE(ChecksumOf(body), 4);
    assert bytes[..4] == a && bytes[4..8] == b && bytes[8..8 + |body|] == body;
  }

  // ── Reading a whole log or a prefix of it ──

  /** The records applied one after the other. */
  function Run(rs: seq<Record>, s: State): Result<State>
    decreases |rs|
  {
    if rs == [] then Ok(s)
    else
      var s' := Apply(s, rs[0]);
      if s'.Err? then s' else Run(rs[1..], s'.value)
  }

  /** Reading one record and what follows it. */
  lemma ReadOne(r: Record, rest: Bytes, s: State)
    requires RecordOk(r)
    ensures ReadFrom(Frame(Body(r)) + rest, s) ==
            if Apply(s, r).Ok? then ReadFrom(rest, Apply(s, r).value) else Apply(s, r)
  {
    BodySize(r);
    BodyRoundTrip(r);
    FrameParts(Body(r), rest);
  }

  /** The bytes the given records take up. */
  function LogSize(rs: seq<Record>): nat
    decreases |rs|
  {
    if rs == [] then 0 else Size(rs[0]) + LogSize(rs[1..])
  }

  lemma {:induction false} EncodedSize(rs: seq<Record>)
    ensures |Encode(rs)| == LogSize(rs)
    decreases |rs|
  {
    if rs != [] { EncodedSize(rs[1..]); }
  }

  /** The number of whole records in the first k bytes. */
  function Whole(rs: seq<Record>, k: nat): (j: nat)
    ensures j <= |rs|
    decreases |rs|
  {
    if rs == [] || k < Size(rs[0]) then 0 else 1 + Whole(rs[1..], k - Size(rs[0]))
  }

  /** The first k bytes end where a record ends. */
  predicate EndsRecord(rs: seq<Record>, k: nat) {
    LogSize(rs[..Whole(rs, k)]) == k
  }

  lemma {:induction false} WholeFits(rs: seq<Record>, k: nat, j: nat)
    requires j <= |rs|
    ensures LogSize(rs[..j]) <= k <==> j <= Whole(rs, k)
    decreases |rs|
  {
    if j > 0 {
      assert rs[..j][1..] == rs[1..][..j - 1];
      if k >= Size(rs[0]) { WholeFits(rs[1..], k - Size(rs[0]), j - 1); }
    } else {
      assert rs[..j] == [];
    }
  }

  lemma {:induction false} LogGrows(rs: seq<Record>, i: nat, j: nat)
    requires i <= j <= |rs|
    ensures LogSize(rs[..i]) + 17 * (j - i) <= LogSize(rs[..j])
    decreases |rs|
  {
    if i > 0 {
      assert rs[..i][1..] == rs[1..][..i - 1] && rs[..j][1..] == rs[1..][..j - 1];
      LogGrows(rs[1..], i - 1, j - 1);
    } else if j > 0 {
      assert rs[..j][1..] == rs[1..][..j - 1] && rs[..0] == rs[1..][..0] == [];
      LogGrows(rs[1..], 0, j - 1);
    }
  }

  /** A cut is at the end of a record exactly when some number of records takes up the bytes before it. */
  lemma EndsRecordIsExact(rs: seq<Record>, k: nat, j: nat)
    requires j <= |rs| && LogSize(rs[..j]) == k
    ensures EndsRecord(rs, k) && Whole(rs, k) == j
  {
    var w := Whole(rs, k);
    WholeFits(rs, k, j);
    WholeFits(rs, k, w);
    LogGrows(rs, j, w);
  }

  /** Reading a prefix of a log succeeds exactly when the cut is at the end of a record, and
      then it means the records before the cut. */
  lemma {:induction false} ReadPrefix(rs: seq<Record>, k: nat, s: State)
    requires RecordsOk(rs) && k <= |Encode(rs)| && Run(rs, s).Ok?
    ensures ReadFrom(Encode(rs)[..k], s) == if EndsRecord(rs, k) then Run(rs[..Whole(rs, k)], s) else Err(Corrupt)
    decreases |rs|
  {
    ReadNothing(rs, s);
    if k == 0 {
      assert rs[..0] == [];
    } else if k < Size(rs[0]) {
      CutFrame(rs, k, s);
      assert rs[..0] == [];
    } else {
      hide Frame, Body, Apply, ReadFrom, RecordOk;
      ReadPrefixStep(rs, k, s);
      ReadPrefix(rs[1..], k - Size(rs[0]), Apply(s, rs[0]).value);
      WholeStep(rs, k);
    }
  }

  lemma ReadNothing(rs: seq<Record>, s: State)
    ensures ReadFrom(Encode(rs)[..0], s) == Ok(s)
  {
    assert Encode(rs)[..0] == [];
  }

  lemma WholeStep(rs: seq<Record>, k: nat)
    requires rs != [] && Size(rs[0]) <= k
    ensures rs[..Whole(rs, k)] == [rs[0]] + rs[1..][..Whole(rs[1..], k - Size(rs[0]))]
    ensures EndsRecord(rs, k) <==> EndsRecord(rs[1..], k - Size(rs[0]))
    ensures rs[..Whole(rs, k)][1..] == rs[1..][..Whole(rs[1..], k - Size(rs[0]))]
  {
    assert rs[..Whole(rs, k)] == [rs[0]] + rs[1..][..Whole(rs[1..], k - Size(rs[0]))];
    assert rs[..Whole(rs, k)][1..] == rs[1..][..Whole(rs[1..], k - Size(rs[0]))];
  }

  lemma ReadPrefixStep(rs: seq<Record>, k: nat, s: State)
    requires rs != [] && RecordOk(rs[0]) && Size(rs[0]) <= k <= |Encode(rs)| && Apply(s, rs[0]).Ok?
    ensures ReadFrom(Encode(rs)[..k], s) == ReadFrom(Encode(rs[1..])[..k - Size(rs[0])], Apply(s, rs[0]).value)
  {
    var f := Frame(Body(rs[0]));
    var rest := Encode(rs[1..])[..k - |f|];
    assert Encode(rs)[..k] == f + rest;
    ReadOne(rs[0], rest, s);
  }

  /** A cut inside the first record is seen as a truncated header or body. */
  lemma CutFrame(rs: seq<Record>, k: nat, s: State)
    requires rs != [] && RecordOk(rs[0]) && 0 < k < |Frame(Body(rs[0]))|
    ensures k <= |Encode(rs)| && ReadFrom(Encode(rs)[..k], s) == Err(Corrupt)
  {
    BodySize(rs[0]);
    FrameParts(Body(rs[0]), Encode(rs[1..]));
    var bytes := Encode(rs)[..k];
    if k >= 8 { assert bytes[..4] == Encode(rs)[..4]; }
  }

  /** Reading the whole of a log. */
  lemma ReadWhole(rs: seq<Record>, s: State)
    requires RecordsOk(rs) && Run(rs, s).Ok?
    ensures ReadFrom(Encode(rs), s) == Run(rs, s)
  {
    assert Encode(rs)[..|Encode(rs)|] == Encode(rs) && rs[..|rs|] == rs;
    EncodedSize(rs);
    EndsRecordIsExact(rs, |Encode(rs)|, |rs|);
    ReadPrefix(rs, |Encode(rs)|, s);
  }

  lemma {:induction false} EncodeConcat(a: seq<Record>, b: seq<Record>)
    ensures Encode(a + b) == Encode(a) + Encode(b)
    decreases |a|
  {
    if a == [] {
      assert a + b == b;
    } else {
      assert (a + b)[1..] == a[1..] + b;
      EncodeConcat(a[1..], b);
    }
  }

  lemma {:induction false} RunConcat(a: seq<Record>, b: seq<Record>, s: State)
    ensures Run(a + b, s) == if Run(a, s).Ok? then Run(b, Run(a, s).value) else Run(a, s)
    decreases |a|
  {
    if a == [] {
      assert a + b == b;
    } else {
      assert (a + b)[1..] == a[1..] + b;
      if Apply(s, a[0]).Ok? { RunConcat(a[1..], b, Apply(s, a[0]).value); }
    }
  }

  // ── Corruption ──

  /** Records before a damaged one are read, the damaged one is not. */
  lemma {:induction false} DamageFound(rs: seq<Record>, bad: Bytes, s: State)
    requires RecordsOk(rs) && Run(rs, s).Ok? && forall s' :: ReadFrom(bad, s') == Err(Corrupt)
    ensures ReadFrom(Encode(rs) + bad, s) == Err(Corrupt)
    decreases |rs|
  {
    if rs == [] {
      assert Encode(rs) + bad == bad;
    } else {
      assert Encode(rs) + bad == Frame(Body(rs[0])) + (Encode(rs[1..]) + bad);
      ReadOne(rs[0], Encode(rs[1..]) + bad, s);
      DamageFound(rs[1..], bad, Apply(s, rs[0]).value);
    }
  }

  /** A record whose stored checksum is not that of its body is not read. */
  lemma WrongChecksum(sum: Bytes, body: Bytes, rest: Bytes, s: State)
    requires |body| <= MAX_RECORD_BYTES && |sum| == 4 && FromLE(sum) != ChecksumOf(body)
    ensures ReadFrom(FrameWith(sum, body) + rest, s) == Err(Corrupt)
  {
    var a := ToLE(|body|, 4);
    var bytes := FrameWith(sum, body) + rest;
    WidthValues();
    FromToLE(|body|, 4);
    assert bytes[..4] == a && bytes[4..8] == sum && bytes[8..8 + |body|] == body;
  }

  lemma WrongChecksumInLog(before: seq<Record>, sum: Bytes, body: Bytes, after: Bytes)
    requires RecordsOk(before) && Run(before, EMPTY).Ok?
    requires |body| <= MAX_RECORD_BYTES && |sum| == 4 && FromLE(sum) != ChecksumOf(body)
    ensures ReadFrom(Encode(before) + (FrameWith(sum, body) + after), EMPTY) == Err(Corrupt)
  {
    var bad := FrameWith(sum, body) + after;
    forall s ensures ReadFrom(bad, s) == Err(Corrupt) { WrongChecksum(sum, body, after, s); }
    DamageFound(before, bad, EMPTY);
  }

  /** Any one byte of any record body changed in a readable log: recovery fails. */
  lemma BodyByteDetected(before: seq<Record>, r: Record, after: Bytes, i: nat, b: byte)
    requires RecordsOk(before) && RecordOk(r) && Run(before, EMPTY).Ok?
    requires i < |Body(r)| && Body(r)[i] != b
    requires |MAGIC + (Encode(before) + (Frame(Body(r)) + after))| <= MAX_WAL_BYTES
    ensures ReadLog(MAGIC + (Encode(before) + (FrameWith(ToLE(ChecksumOf(Body(r)), 4), Body(r)[i := b]) + after)))
            == Err(Corrupt)
  {
    var sum, body := ToLE(ChecksumOf(Body(r)), 4), Body(r)[i := b];
    BodySize(r);
    OneByteDetected(Body(r), i, b);
    StoredChecksum(Body(r));
    WrongChecksumInLog(before, sum, body, after);
    LogOf(Encode(before) + (FrameWith(sum, body) + after));
  }

  /** The stored checksum of any record replaced by other bytes in a readable log: recovery fails. */
  lemma ChecksumByteDetected(before: seq<Record>, r: Record, after: Bytes, sum: Bytes)
    requires RecordsOk(before) && RecordOk(r) && Run(before, EMPTY).Ok?
    requires |sum| == 4 && sum != ToLE(ChecksumOf(Body(r)), 4)
    requires |MAGIC + (Encode(before) + (Frame(Body(r)) + after))| <= MAX_WAL_BYTES
    ensures ReadLog(MAGIC + (Encode(before) + (FrameWith(sum, Body(r)) + after))) == Err(Corrupt)
  {
    BodySize(r);
    StoredChecksum(Body(r));
    if FromLE(sum) == ChecksumOf(Body(r)) { FromLEInjective(sum, ToLE(ChecksumOf(Body(r)), 4)); }
    WrongChecksumInLog(before, sum, Body(r), after);
    LogOf(Encode(before) + (FrameWith(sum, Body(r)) + after));
  }

  lemma StoredChecksum(body: Bytes)
    ensures FromLE(ToLE(ChecksumOf(body), 4)) == ChecksumOf(body)
  {
    WidthValues();
    FromToLE(ChecksumOf(body), 4);
  }

  lemma LogOf(rest: Bytes)
    requires |MAGIC + rest| <= MAX_WAL_BYTES
    ensures ReadLog(MAGIC + rest) == ReadFrom(rest, EMPTY)
  {
    assert (MAGIC + rest)[..|MAGIC|] == MAGIC && (MAGIC + rest)[|MAGIC|..] == rest;
  }
}
