/** The log written out byte by byte, and which files recovery accepts. */
module WalLaws {
  import opened Keys
  import opened LittleEndian
  import opened Checksum
  import opened WalFormat
  import opened WalMeaning

  /** Every byte of a record: the length of its body and the checksum of it in four bytes each, the kind, the id in eight
      bytes, and for a put the two lengths before the key and the value. */
  lemma RecordBytes(r: Record)
    ensures var body := match r
                        case Begin(id) => [1] + ToLE(id, 8)
                        case Change(id, Put(k, v)) => [2] + ToLE(id, 8) + ToLE(|k|, 4) + ToLE(|v|, 4) + k + v
                        case Commit(id) => [3] + ToLE(id, 8)
                        case Change(id, Delete(k)) => [4] + ToLE(id, 8) + k;
            Frame(Body(r)) == ToLE(|body|, 4) + ToLE(ChecksumOf(body), 4) + body
  {
    var kind := match r case Begin(_) => 1 case Change(_, Put(_, _)) => 2 case Commit(_) => 3 case Change(_, Delete(_)) => 4;
    assert Kind(r) == kind;
    assert [kind] + ToLE(r.id, 8) + [] == [kind] + ToLE(r.id, 8);
    if r.Change? && r.write.Put? {
      var k, v := r.write.key, r.write.value;
      assert [kind] + ToLE(r.id, 8) + (ToLE(|k|, 4) + ToLE(|v|, 4) + k + v) == [kind] + ToLE(r.id, 8) + ToLE(|k|, 4) + ToLE(|v|, 4) + k + v;
    }
  }

  /** The orders of records that are legal: an id is begun once, and is written to and committed only after that and before
      it is committed, with at most 1024 writes. */
  ghost predicate InOrder(rs: seq<Record>) {
    forall i {:trigger rs[i]} :: 0 <= i < |rs| ==>
      if rs[i].Begin? then Begin(rs[i].id) !in rs[..i]
      else
        && Begin(rs[i].id) in rs[..i] && Commit(rs[i].id) !in rs[..i]
        && (rs[i].Change? ==> |set j | 0 <= j < i && rs[j].Change? && rs[j].id == rs[i].id| < 1024)
  }

  function ChangesOn(rs: seq<Record>, id: u64): set<nat> {
    set j | 0 <= j < |rs| && rs[j].Change? && rs[j].id == id
  }

  lemma {:induction false} WritesCounted(rs: seq<Record>, id: u64)
    ensures |WritesOf(rs, id)| == |ChangesOn(rs, id)|
    decreases |rs|
  {
    if rs != [] {
      var n := |rs| - 1;
      WritesCounted(rs[..n], id);
      assert ChangesOn(rs, id) == ChangesOn(rs[..n], id) + if rs[n].Change? && rs[n].id == id then {n} else {};
    }
  }

  lemma OrderIsLegal(rs: seq<Record>)
    ensures WellOrdered(rs) <==> InOrder(rs)
  {
    forall i | 0 <= i < |rs|
      ensures Legal(rs[..i], rs[i]) <==>
              if rs[i].Begin? then Begin(rs[i].id) !in rs[..i]
              else
                && Begin(rs[i].id) in rs[..i] && Commit(rs[i].id) !in rs[..i]
                && (rs[i].Change? ==> |set j | 0 <= j < i && rs[j].Change? && rs[j].id == rs[i].id| < 1024)
    {
      WritesCounted(rs[..i], rs[i].id);
      assert ChangesOn(rs[..i], rs[i].id) == set j | 0 <= j < i && rs[j].Change? && rs[j].id == rs[i].id;
    }
    assert WellOrdered(rs) <==> forall i :: 0 <= i < |rs| ==> Legal(rs[..i], rs[i]);
  }

  /** The file holds exactly these records, in a legal order and within the limits. */
  ghost predicate Holds(bytes: Bytes, rs: seq<Record>) {
    && |bytes| <= 0x400_0000 && bytes == [0x46, 0x52, 0x54, 0x57, 0x41, 0x4C, 0x30, 0x31] + Encode(rs) && InOrder(rs)
    && forall i {:trigger rs[i]} :: 0 <= i < |rs| && rs[i].Change? ==>
         |rs[i].write.key| <= 0x1000 && (rs[i].write.Put? ==> |rs[i].write.value| <= 0x10_0000)
  }

  lemma HoldsIs(bytes: Bytes, rs: seq<Record>)
    ensures Holds(bytes, rs) <==> RecordsOk(rs) && WellOrdered(rs) && bytes == MAGIC + Encode(rs) && |bytes| <= MAX_WAL_BYTES
  {
    OrderIsLegal(rs);
  }

  // ── The records in a file ──

  /** A body that is accepted is the body of what it is parsed as. */
  lemma ParsedBody(body: Bytes)
    requires ParseBody(body).Ok?
    ensures RecordOk(ParseBody(body).value) && Body(ParseBody(body).value) == body
  {
    var r := ParseBody(body).value;
    hide FromLE, ToLE, ParsePut;
    ToFromLE(body[1..9]);
    if r.Change? && r.write.Put? { ParsedPut(body[9..]); }
    assert Kind(r) == body[0] && Payload(r) == body[9..];
    BodyJoined(body, r);
  }

  lemma BodyJoined(body: Bytes, r: Record)
    requires |body| >= 9 && body[0] == Kind(r) && body[1..9] == ToLE(r.id, 8) && body[9..] == Payload(r)
    ensures Body(r) == body
  {
    hide ToLE, Kind, Payload;
    assert body == [body[0]] + body[1..9] + body[9..];
  }

  lemma ParsedPut(payload: Bytes)
    requires ParsePut(payload).Ok?
    ensures var w := ParsePut(payload).value;
            w.Put? && WriteOk(w) && payload == ToLE(|w.key|, 4) + ToLE(|w.value|, 4) + w.key + w.value
  {
    var w := ParsePut(payload).value;
    hide ToLE, FromLE;
    ToFromLE(payload[..4]);
    ToFromLE(payload[4..8]);
    assert payload == payload[..4] + payload[4..8] + w.key + w.value;
  }

  /** The records that a reader comes across. */
  lemma {:induction false} ReadRecords(bytes: Bytes, s: State) returns (rs: seq<Record>)
    requires ReadFrom(bytes, s).Ok?
    ensures RecordsOk(rs) && bytes == Encode(rs) && Run(rs, s).Ok?
    decreases |bytes|
  {
    hide ReadFrom, Frame, Body, Apply, RecordOk;
    if bytes == [] {
      rs := [];
    } else {
      var r, rest := ReadFirst(bytes, s);
      var more := ReadRecords(rest, Apply(s, r).value);
      rs := [r] + more;
      assert rs[0] == r && rs[1..] == more;
    }
  }

  lemma ReadFirst(bytes: Bytes, s: State) returns (r: Record, rest: Bytes)
    requires bytes != [] && ReadFrom(bytes, s).Ok?
    ensures RecordOk(r) && bytes == Frame(Body(r)) + rest && |rest| < |bytes|
    ensures Apply(s, r).Ok? && ReadFrom(rest, Apply(s, r).value).Ok?
  {
    var length := FromLE(bytes[..4]);
    var body := bytes[8..8 + length];
    r, rest := ParseBody(body).value, bytes[8 + length..];
    hide ParseBody, Body, Frame, FromLE, ChecksumOf, Apply;
    ParsedBody(body);
    FrontIsFrame(bytes);
  }

  lemma FrontIsFrame(bytes: Bytes)
    requires |bytes| >= 8 && |bytes| >= 8 + FromLE(bytes[..4])
    requires ChecksumOf(bytes[8..8 + FromLE(bytes[..4])]) == FromLE(bytes[4..8])
    ensures bytes == Frame(bytes[8..8 + FromLE(bytes[..4])]) + bytes[8 + FromLE(bytes[..4])..]
  {
    var length := FromLE(bytes[..4]);
    var body := bytes[8..8 + length];
    hide ToLE, FromLE, ChecksumOf;
    ToFromLE(bytes[..4]);
    ToFromLE(bytes[4..8]);
    assert bytes == bytes[..4] + bytes[4..8] + body + bytes[8 + length..];
  }

  lemma OneRecord(r: Record, after: Bytes, r': Record, after': Bytes)
    requires RecordOk(r) && RecordOk(r') && Frame(Body(r)) + after == Frame(Body(r')) + after'
    ensures r == r' && after == after'
  {
    hide Frame, Body, RecordOk, ParseBody;
    BodySize(r);
    BodySize(r');
    FrameParts(Body(r), after);
    FrameParts(Body(r'), after');
    BodyRoundTrip(r);
    BodyRoundTrip(r');
  }

  lemma NotEmpty(rs: seq<Record>)
    ensures Encode(rs) == [] <==> rs == []
  {
  }

  /** The bytes determine the records. */
  lemma {:induction false} OneReading(a: seq<Record>, b: seq<Record>)
    requires RecordsOk(a) && RecordsOk(b) && Encode(a) == Encode(b)
    ensures a == b
    decreases |a|
  {
    hide Frame, Body, RecordOk;
    if a == [] || b == [] {
      NotEmpty(a);
      NotEmpty(b);
    } else {
      OneRecord(a[0], Encode(a[1..]), b[0], Encode(b[1..]));
      OneReading(a[1..], b[1..]);
      assert a == [a[0]] + a[1..] && b == [b[0]] + b[1..];
    }
  }

  /** Recovery accepts a file exactly when it holds records in a legal order, and what it takes from them is their meaning. */
  lemma AcceptedExactly(bytes: Bytes)
    ensures ReadLog(bytes).Ok? <==> exists rs :: Holds(bytes, rs)
    ensures forall rs :: Holds(bytes, rs) ==> ReadLog(bytes).Ok? && Means(ReadLog(bytes).value, rs)
    ensures ReadLog(bytes).Err? ==> ReadLog(bytes) == Err(if |bytes| > 0x400_0000 then Limit else Corrupt)
  {
    hide Holds, Means, ReadLog, WellOrdered, RecordsOk, Encode;
    forall rs | Holds(bytes, rs) ensures ReadLog(bytes).Ok? && Means(ReadLog(bytes).value, rs) {
      HoldsIs(bytes, rs);
      RecoveryInvertsWriter(rs);
    }
    if ReadLog(bytes).Ok? { var rs := HeldRecords(bytes); } else { LogErrors(bytes); }
  }

  lemma HeldRecords(bytes: Bytes) returns (rs: seq<Record>)
    requires ReadLog(bytes).Ok?
    ensures Holds(bytes, rs)
  {
    hide Holds, ReadFrom;
    rs := ReadRecords(bytes[|MAGIC|..], EMPTY);
    assert bytes == bytes[..|MAGIC|] + bytes[|MAGIC|..];
    RunMeans(rs);
    HoldsIs(bytes, rs);
  }

  lemma LogErrors(bytes: Bytes)
    requires ReadLog(bytes).Err?
    ensures ReadLog(bytes) == Err(if |bytes| > 0x400_0000 then Limit else Corrupt)
  {
    hide ReadFrom;
    if |MAGIC| <= |bytes| <= MAX_WAL_BYTES && bytes[..|MAGIC|] == MAGIC { ReadErrors(bytes[|MAGIC|..], EMPTY); }
  }

  lemma ParseErrors(body: Bytes)
    ensures ParseBody(body).Err? ==> ParseBody(body) == Err(Corrupt)
  {
  }

  lemma ApplyErrors(s: State, r: Record)
    ensures Apply(s, r).Err? ==> Apply(s, r) == Err(Corrupt)
  {
  }

  lemma {:induction false} ReadErrors(bytes: Bytes, s: State)
    requires ReadFrom(bytes, s).Err?
    ensures ReadFrom(bytes, s) == Err(Corrupt)
    decreases |bytes|
  {
    hide FromLE, ChecksumOf, Apply, ParseBody;
    if |bytes| >= 8 {
      var length := FromLE(bytes[..4]);
      if length <= MAX_RECORD_BYTES && |bytes| >= 8 + length && ChecksumOf(bytes[8..8 + length]) == FromLE(bytes[4..8]) {
        var parsed := ParseBody(bytes[8..8 + length]);
        ParseErrors(bytes[8..8 + length]);
        if parsed.Ok? { ApplyErrors(s, parsed.value); }
        if parsed.Ok? && Apply(s, parsed.value).Ok? { ReadErrors(bytes[8 + length..], Apply(s, parsed.value).value); }
      }
    }
  }
}
