/** Parsing a slotted page: the checks accept exactly the byte strings that are slotted pages. */
module SlottedCheck {
  import opened Keys
  import opened PageBytes
  import opened SlottedLayout
  import opened SlottedPage

  function SlotOf(p: Bytes, i: nat): Slot
    requires SlotAt(i) + SLOT_LEN <= |p|
  {
    var off, len, flags := U16At(p, SlotAt(i)), U16At(p, SlotAt(i) + 2), U16At(p, SlotAt(i) + 4);
    if flags == FLAG_TOMBSTONE || off + len > |p| then Deleted else Live(flags == FLAG_OVERFLOW, p[off..off + len])
  }

  function SlotsOf(p: Bytes): seq<Slot>
    requires 4 <= |p| && SlotAt(U16At(p, 0)) <= |p|
  {
    seq(U16At(p, 0), i requires 0 <= i < U16At(p, 0) => SlotOf(p, i))
  }

  /** A directory entry by itself is as it should be. */
  predicate SlotValid(p: Bytes, i: nat)
    requires 4 <= |p| && SlotAt(i) + SLOT_LEN <= |p|
  {
    var off, len, flags := U16At(p, SlotAt(i)), U16At(p, SlotAt(i) + 2), U16At(p, SlotAt(i) + 4);
    if flags == FLAG_TOMBSTONE then off == 0 && len == 0
    else (flags == FLAG_LIVE || flags == FLAG_OVERFLOW) && U16At(p, 2) <= off && off + len <= |p| && len > 0
  }

  predicate IsLive(p: Bytes, i: nat)
    requires SlotAt(i) + SLOT_LEN <= |p|
  {
    U16At(p, SlotAt(i) + 4) != FLAG_TOMBSTONE
  }

  ghost predicate WellFormed(p: Bytes) {
    && 4 <= |p| <= MAX_U16 && SlotAt(U16At(p, 0)) <= U16At(p, 2) <= |p|
    && (forall i {:trigger SlotValid(p, i)} :: 0 <= i < U16At(p, 0) ==> SlotValid(p, i))
    && (forall i, j {:trigger Apart(p, i, j)} :: 0 <= i < j < U16At(p, 0) && IsLive(p, i) && IsLive(p, j) ==> Apart(p, i, j))
  }

  /** The page is well formed exactly when it holds slots, and then it holds those read from it and no others. */
  lemma WellFormedHolds(p: Bytes, slots: seq<Slot>)
    ensures Holds(p, slots) <==> WellFormed(p) && slots == SlotsOf(p)
  {
    if Holds(p, slots) {
      forall i | 0 <= i < |slots| ensures SlotValid(p, i) && slots[i] == SlotOf(p, i) && (IsLive(p, i) <==> slots[i].Live?) {
        assert SlotHolds(p, i, slots[i], U16At(p, 2));
      }
    }
    if WellFormed(p) && slots == SlotsOf(p) {
      forall i | 0 <= i < |slots| ensures SlotHolds(p, i, slots[i], U16At(p, 2)) && (IsLive(p, i) <==> slots[i].Live?) {
        assert SlotValid(p, i);
      }
    }
  }

  // ── Spans ──

  datatype PayloadRange = PayloadRange(start: nat, end: nat)

  predicate RangesApart(a: PayloadRange, b: PayloadRange) {
    a.end <= b.start || b.end <= a.start
  }

  ghost predicate AllApart(s: seq<PayloadRange>) {
    forall i, j {:trigger RangesApart(s[i], s[j])} :: 0 <= i < j < |s| ==> RangesApart(s[i], s[j])
  }

  ghost predicate ByStart(s: seq<PayloadRange>) {
    forall i, j :: 0 <= i < j < |s| ==> s[i].start <= s[j].start
  }

  ghost predicate NonEmpty(s: seq<PayloadRange>) {
    forall i {:trigger s[i]} :: 0 <= i < |s| ==> s[i].start < s[i].end
  }

  ghost predicate ApartFrom(s: seq<PayloadRange>, x: PayloadRange) {
    forall y {:trigger RangesApart(y, x)} :: y in s ==> RangesApart(y, x)
  }

  lemma InsertApart(s: seq<PayloadRange>, k: nat, x: PayloadRange)
    requires k <= |s|
    ensures AllApart(s[..k] + [x] + s[k..]) <==> AllApart(s) && ApartFrom(s, x)
  {
    var t := s[..k] + [x] + s[k..];
    assert forall i :: 0 <= i < |t| ==> t[i] == if i < k then s[i] else if i == k then x else s[i - 1];
    assert forall i :: 0 <= i < |s| ==> s[i] == if i < k then t[i] else t[i + 1];
    if AllApart(t) {
      forall i, j | 0 <= i < j < |s| ensures RangesApart(s[i], s[j]) {
        assert RangesApart(t[if i < k then i else i + 1], t[if j < k then j else j + 1]);
      }
      forall y | y in s ensures RangesApart(y, x) {
        var i :| 0 <= i < |s| && s[i] == y;
        if i < k { assert RangesApart(t[i], t[k]); } else { assert RangesApart(t[k], t[i + 1]); }
      }
    }
    if AllApart(s) && ApartFrom(s, x) {
      forall i, j | 0 <= i < j < |t| ensures RangesApart(t[i], t[j]) {
        if i == k { assert RangesApart(t[j], x); } else if j == k { assert RangesApart(t[i], x); }
        else { assert RangesApart(s[if i < k then i else i - 1], s[if j < k then j else j - 1]); }
      }
    }
  }

  /** One more range on both sides. */
  lemma SameApart(s: seq<PayloadRange>, n: nat, t: seq<PayloadRange>, k: nat)
    requires n < |s| && k <= |t| && multiset(t) == multiset(s[..n]) && (AllApart(t) <==> AllApart(s[..n]))
    ensures var t' := t[..k] + [s[n]] + t[k..];
            multiset(t') == multiset(s[..n + 1]) && (AllApart(t') <==> AllApart(s[..n + 1]))
  {
    var x := s[n];
    assert s[..n + 1] == s[..n][..n] + [x] + s[..n][n..];
    InsertApart(s[..n], n, x);
    InsertApart(t, k, x);
    forall y ensures y in t <==> y in s[..n] { assert y in t <==> y in multiset(t); assert y in s[..n] <==> y in multiset(s[..n]); }
    assert t == t[..k] + t[k..];
    assert s[..n + 1] == s[..n] + [x];
  }

  /** The ranges in the order of their starts; whether they overlap is not affected. */
  method SortByStart(s: seq<PayloadRange>) returns (t: seq<PayloadRange>)
    ensures |t| == |s| && multiset(t) == multiset(s) && ByStart(t)
    ensures AllApart(t) <==> AllApart(s)
  {
    hide AllApart;
    t := [];
    SortStarts(s);
    for n := 0 to |s|
      invariant |t| == n && multiset(t) == multiset(s[..n]) && ByStart(t)
      invariant AllApart(t) <==> AllApart(s[..n])
    {
      var k := PlaceByStart(t, s[n]);
      SameApart(s, n, t, k);
      t := t[..k] + [s[n]] + t[k..];
    }
    assert s[..|s|] == s;
  }

  lemma SortStarts(s: seq<PayloadRange>)
    ensures s[..0] == [] && AllApart([])
  {
  }

  method PlaceByStart(t: seq<PayloadRange>, x: PayloadRange) returns (k: nat)
    requires ByStart(t)
    ensures k <= |t| && ByStart(t[..k] + [x] + t[k..])
  {
    k := 0;
    while k < |t| && t[k].start <= x.start
      invariant k <= |t| && forall i :: 0 <= i < k ==> t[i].start <= x.start
    {
      k := k + 1;
    }
  }

  /** Sorted ranges that follow one another do not overlap, and the other way round. */
  lemma NeighboursDecide(t: seq<PayloadRange>)
    requires ByStart(t) && NonEmpty(t)
    ensures AllApart(t) <==> forall i :: 0 <= i < |t| - 1 ==> t[i].end <= t[i + 1].start
  {
    if AllApart(t) {
      forall i | 0 <= i < |t| - 1 ensures t[i].end <= t[i + 1].start { assert RangesApart(t[i], t[i + 1]); }
    }
    if forall i :: 0 <= i < |t| - 1 ==> t[i].end <= t[i + 1].start {
      forall i, j | 0 <= i < j < |t| ensures RangesApart(t[i], t[j]) {
        assert t[i].end <= t[i + 1].start;
        assert t[i + 1].start <= t[j].start;
      }
    }
  }

  // ── The checks ──

  function RangeOf(p: Bytes, i: nat): PayloadRange
    requires SlotAt(i) + SLOT_LEN <= |p|
  {
    PayloadRange(U16At(p, SlotAt(i)), U16At(p, SlotAt(i)) + U16At(p, SlotAt(i) + 2))
  }

  /** The ranges of the live slots among the first n; `of` says which slots they are. */
  ghost predicate Collected(p: Bytes, spans: seq<PayloadRange>, of: seq<nat>, n: nat)
    requires SlotAt(n) <= |p|
  {
    && |of| == |spans|
    && (forall k {:trigger of[k]} :: 0 <= k < |of| ==> of[k] < n && IsLive(p, of[k]) && spans[k] == RangeOf(p, of[k]))
    && (forall k, l :: 0 <= k < l < |of| ==> of[k] < of[l])
    && (forall i {:trigger IsLive(p, i)} :: 0 <= i < n && IsLive(p, i) ==> i in of)
  }

  lemma CollectedDecides(p: Bytes, spans: seq<PayloadRange>, of: seq<nat>, n: nat)
    requires SlotAt(n) <= |p| && Collected(p, spans, of, n)
    ensures AllApart(spans) <==> forall i, j {:trigger Apart(p, i, j)} :: 0 <= i < j < n && IsLive(p, i) && IsLive(p, j) ==> Apart(p, i, j)
  {
    if AllApart(spans) {
      forall i, j | 0 <= i < j < n && IsLive(p, i) && IsLive(p, j) ensures Apart(p, i, j) {
        var k :| 0 <= k < |of| && of[k] == i;
        var l :| 0 <= l < |of| && of[l] == j;
        assert k < l;
        assert RangesApart(spans[k], spans[l]);
      }
    }
    if forall i, j {:trigger Apart(p, i, j)} :: 0 <= i < j < n && IsLive(p, i) && IsLive(p, j) ==> Apart(p, i, j) {
      forall k, l | 0 <= k < l < |spans| ensures RangesApart(spans[k], spans[l]) { assert Apart(p, of[k], of[l]); }
    }
  }

  /** The directory entries one by one, and then the payloads in order. */
  method Validate(p: Bytes) returns (ok: bool)
    requires PageSize(|p|)
    ensures ok <==> WellFormed(p)
  {
    var count, freeEnd := U16At(p, 0), U16At(p, 2);
    var dirEnd := SlotAt(count);
    if dirEnd > |p| || freeEnd > |p| || dirEnd > freeEnd { return false; }
    hide Collected, AllApart, SlotValid, Apart;
    var spans: seq<PayloadRange> := [];
    ghost var of: seq<nat> := [];
    NothingCollected(p);
    for i: nat := 0 to count
      invariant Collected(p, spans, of, i) && NonEmpty(spans)
      invariant forall j {:trigger SlotValid(p, j)} :: 0 <= j < i ==> SlotValid(p, j)
    {
      if !SlotValid(p, i) { return false; }
      if IsLive(p, i) {
        CollectMore(p, spans, of, i);
        LiveNonEmpty(p, i);
        spans, of := spans + [RangeOf(p, i)], of + [i];
      } else {
        CollectNone(p, spans, of, i);
      }
    }
    CollectedDecides(p, spans, of, count);
    ok := NoOverlap(spans);
  }

  method NoOverlap(spans: seq<PayloadRange>) returns (ok: bool)
    requires NonEmpty(spans)
    ensures ok <==> AllApart(spans)
  {
    var sorted := SortByStart(spans);
    SameNonEmpty(spans, sorted);
    NeighboursDecide(sorted);
    hide AllApart;
    var i := 0;
    while i + 1 < |sorted|
      invariant forall j :: 0 <= j < i && j + 1 < |sorted| ==> sorted[j].end <= sorted[j + 1].start
    {
      if sorted[i].end > sorted[i + 1].start { return false; }
      i := i + 1;
    }
    return true;
  }

  lemma SameNonEmpty(s: seq<PayloadRange>, t: seq<PayloadRange>)
    requires NonEmpty(s) && multiset(t) == multiset(s)
    ensures NonEmpty(t)
  {
    forall i | 0 <= i < |t| ensures t[i].start < t[i].end {
      assert t[i] in multiset(t);
      assert t[i] in s;
    }
  }

  lemma NothingCollected(p: Bytes)
    requires |p| >= 8
    ensures Collected(p, [], [], 0)
  {
  }

  lemma LiveNonEmpty(p: Bytes, i: nat)
    requires 4 <= |p| && SlotAt(i) + SLOT_LEN <= |p| && SlotValid(p, i) && IsLive(p, i)
    ensures RangeOf(p, i).start < RangeOf(p, i).end
  {
  }

  lemma CollectMore(p: Bytes, spans: seq<PayloadRange>, of: seq<nat>, i: nat)
    requires SlotAt(i + 1) <= |p| && Collected(p, spans, of, i) && IsLive(p, i)
    ensures Collected(p, spans + [RangeOf(p, i)], of + [i], i + 1)
  {
  }

  lemma CollectNone(p: Bytes, spans: seq<PayloadRange>, of: seq<nat>, i: nat)
    requires SlotAt(i + 1) <= |p| && Collected(p, spans, of, i) && !IsLive(p, i)
    ensures Collected(p, spans, of, i + 1)
  {
  }

  /** `SlottedPage::parse` */
  method Parse(bytes: Bytes) returns (r: SlotResult<SlottedPage>)
    ensures r.Ok? <==> (|bytes| == 4096 || |bytes| == 8192) && WellFormed(bytes)
    ensures r.Ok? ==> fresh(r.value) && fresh(r.value.data) && r.value.Valid()
                      && r.value.data[..] == bytes && r.value.slots == SlotsOf(bytes)
    ensures r.Err? ==> r.error == Corrupt
  {
    if |bytes| != 4096 && |bytes| != 8192 { return Err(Corrupt); }
    var ok := Validate(bytes);
    if !ok { return Err(Corrupt); }
    WellFormedHolds(bytes, SlotsOf(bytes));
    var page := new SlottedPage.Parsed(bytes, SlotsOf(bytes));
    return Ok(page);
  }
}
