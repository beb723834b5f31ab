/** Records of up to 64 KiB in slotted pages: inline when they fit one page, else in pieces on pages of
    their own, listed in a descriptor on the home page. A record is named by its home page and slot; a piece by its
    page and slot. */
module Records {
  import opened Wrappers
  import opened Keys
  import opened LittleEndian
  import opened PageBytes
  import opened SlottedLayout
  import S = SlottedPage
  import opened SlottedCheck
  import opened Pager

  const MAX_RECORD_BYTES: nat := 65536
  const KIND_INLINE: byte := 0
  const KIND_OVERFLOW: byte := 1

  datatype RecordId = RecordId(page: nat, slot: nat)
  datatype RecordError = PagerFailed(pagerError: PagerError) | SlotFailed(slotError: S.SlotError) | PayloadTooLarge
  datatype RecordResult<+T> = Got(value: T) | Failed(error: RecordError)

  datatype Chunk = Chunk(page: nat, slot: nat)

  // ── The descriptor ──

  function ChunkBytes(c: Chunk): (b: Bytes)
    ensures |b| == 10
  {
    ToLE(c.page, 8) + ToLE(c.slot, 2)
  }

  function ChunksBytes(chunks: seq<Chunk>): (b: Bytes)
    ensures |b| == 10 * |chunks|
  {
    if chunks == [] then [] else ChunksBytes(chunks[..|chunks| - 1]) + ChunkBytes(chunks[|chunks| - 1])
  }

  function Descriptor(length: nat, chunks: seq<Chunk>): (b: Bytes)
    ensures |b| == 7 + 10 * |chunks| && b[0] == KIND_OVERFLOW
  {
    [KIND_OVERFLOW] + ToLE(length, 4) + ToLE(|chunks|, 2) + ChunksBytes(chunks)
  }

  predicate ChunkOk(c: Chunk) {
    c.page <= MAX_U64 && c.slot <= MAX_U16
  }

  lemma {:induction false} ChunkAt(chunks: seq<Chunk>, i: nat)
    requires i < |chunks|
    ensures ChunksBytes(chunks)[10 * i..10 * i + 10] == ChunkBytes(chunks[i])
    decreases |chunks|
  {
    var n := |chunks| - 1;
    if i < n {
      ChunkAt(chunks[..n], i);
      assert ChunksBytes(chunks)[10 * i..10 * i + 10] == ChunksBytes(chunks[..n])[10 * i..10 * i + 10];
    }
  }

  lemma DescriptorParts(length: nat, chunks: seq<Chunk>)
    requires length <= MAX_U32 && |chunks| <= MAX_U16
    ensures var raw := Descriptor(length, chunks);
            FromLE(raw[1..5]) == length && FromLE(raw[5..7]) == |chunks| && raw[7..] == ChunksBytes(chunks)
  {
    WidthValues();
    FromToLE(length, 4);
    FromToLE(|chunks|, 2);
    hide ToLE, FromLE, Pow256, ChunksBytes;
    DescriptorFields([KIND_OVERFLOW], ToLE(length, 4), ToLE(|chunks|, 2), ChunksBytes(chunks));
  }

  lemma DescriptorFields(a: Bytes, b: Bytes, c: Bytes, d: Bytes)
    requires |a| == 1 && |b| == 4 && |c| == 2
    ensures var raw := a + b + c + d;
            raw[1..5] == b && raw[5..7] == c && raw[7..] == d
  {
  }

  lemma ChunkFields(raw: Bytes, off: nat, c: Chunk)
    requires off + 10 <= |raw| && raw[off..off + 10] == ChunkBytes(c) && ChunkOk(c)
    ensures FromLE(raw[off..off + 8]) == c.page && FromLE(raw[off + 8..off + 10]) == c.slot
  {
    WidthValues();
    FromToLE(c.page, 8);
    FromToLE(c.slot, 2);
    hide ToLE, FromLE;
    PartOfPart(raw, off, ChunkBytes(c), 0, 8);
    PartOfPart(raw, off, ChunkBytes(c), 8, 10);
  }

  ghost predicate Describes(raw: Bytes, length: nat, chunks: seq<Chunk>) {
    && raw == Descriptor(length, chunks) && length <= MAX_U32 && |chunks| <= MAX_U16
    && forall i {:trigger chunks[i]} :: 0 <= i < |chunks| ==> ChunkOk(chunks[i])
  }

  /** The chunks that a payload lists, if it is as long as its count says. */
  function ChunksOf(raw: Bytes): (r: S.SlotResult<seq<Chunk>>)
    ensures r.Ok? ==> |raw| == 7 + 10 * |r.value| && forall i {:trigger r.value[i]} :: 0 <= i < |r.value| ==> r.value[i] == ChunkIn(raw, 7 + 10 * i)
  {
    if |raw| < 7 || |raw| != 7 + 10 * FromLE(raw[5..7]) then S.Err(S.Corrupt)
    else S.Ok(seq(FromLE(raw[5..7]), i requires 0 <= i < FromLE(raw[5..7]) => ChunkIn(raw, 7 + 10 * i)))
  }

  function ChunkIn(raw: Bytes, off: nat): Chunk
    requires off + 10 <= |raw|
  {
    Chunk(FromLE(raw[off..off + 8]), FromLE(raw[off + 8..off + 10]))
  }

  /** `overflow_chunks` */
  method OverflowChunks(raw: Bytes) returns (r: S.SlotResult<seq<Chunk>>)
    ensures r == ChunksOf(raw)
  {
    if |raw| < 7 { return S.Err(S.Corrupt); }
    var n := FromLE(raw[5..7]);
    if |raw| != 7 + 10 * n { return S.Err(S.Corrupt); }
    var chunks: seq<Chunk> := [];
    for i := 0 to n
      invariant |chunks| == i && forall j :: 0 <= j < i ==> chunks[j] == ChunkIn(raw, 7 + 10 * j)
    {
      var off := 7 + 10 * i;
      chunks := chunks + [Chunk(FromLE(raw[off..off + 8]), FromLE(raw[off + 8..off + 10]))];
    }
    assert ChunksOf(raw).value == chunks;
    return S.Ok(chunks);
  }

  /** The chunks of a descriptor are read back. */
  lemma ChunksReadBack(raw: Bytes, length: nat, chunks: seq<Chunk>)
    requires Describes(raw, length, chunks)
    ensures ChunksOf(raw) == S.Ok(chunks) && FromLE(raw[1..5]) == length
  {
    DescriptorParts(length, chunks);
    hide Descriptor, FromLE;
    forall i | 0 <= i < |chunks| ensures ChunkIn(raw, 7 + 10 * i) == chunks[i] { ChunkRead(raw, length, chunks, i); }
    assert ChunksOf(raw).value == chunks;
  }

  lemma ChunkRead(raw: Bytes, length: nat, chunks: seq<Chunk>, i: nat)
    requires Describes(raw, length, chunks) && i < |chunks|
    ensures ChunkIn(raw, 7 + 10 * i) == chunks[i]
  {
    hide Descriptor, ChunksBytes, ChunkBytes, FromLE;
    DescriptorParts(length, chunks);
    ChunkAt(chunks, i);
    assert raw[7 + 10 * i..7 + 10 * i + 10] == raw[7..][10 * i..10 * i + 10];
    ChunkFields(raw, 7 + 10 * i, chunks[i]);
  }

  // ── What a record is ──

  /** The payload of a live slot of a page. */
  ghost predicate SlotIsRaw(page: Bytes, slot: nat, raw: Bytes) {
    && S.PageSize(|page|) && WellFormed(page) && slot < U16At(page, 0)
    && SlotsOf(page)[slot].Live? && SlotsOf(page)[slot].payload == raw
  }

  function Joined(pieces: seq<Bytes>): Bytes {
    if pieces == [] then [] else Joined(pieces[..|pieces| - 1]) + pieces[|pieces| - 1]
  }

  /** The pieces are on the chunks' pages, and make up the payload. */
  ghost predicate InPieces(disk: map<nat, Bytes>, chunks: seq<Chunk>, pieces: seq<Bytes>) {
    && |pieces| == |chunks| <= MAX_U16
    && forall i {:trigger chunks[i]} :: 0 <= i < |chunks| ==>
         ChunkOk(chunks[i]) && chunks[i].page in disk && SlotIsRaw(disk[chunks[i].page], chunks[i].slot, pieces[i])
  }

  ghost predicate RecordIn(disk: map<nat, Bytes>, id: RecordId, payload: Bytes, chunks: seq<Chunk>, pieces: seq<Bytes>) {
    && id.page in disk && 0 < |payload| <= MAX_RECORD_BYTES
    && if chunks == [] then SlotIsRaw(disk[id.page], id.slot, [KIND_INLINE] + payload)
       else SlotIsRaw(disk[id.page], id.slot, Descriptor(|payload|, chunks)) && InPieces(disk, chunks, pieces) && Joined(pieces) == payload
  }

  /** The pages a record is on. */
  function PagesOf(id: RecordId, chunks: seq<Chunk>): set<nat> {
    {id.page} + (set c | c in chunks :: c.page)
  }

  /** A record depends on its own pages only. */
  lemma RecordKept(disk: map<nat, Bytes>, disk': map<nat, Bytes>, id: RecordId, payload: Bytes, chunks: seq<Chunk>, pieces: seq<Bytes>)
    requires RecordIn(disk, id, payload, chunks, pieces)
    requires forall p :: p in PagesOf(id, chunks) ==> p in disk && p in disk' && disk'[p] == disk[p]
    ensures RecordIn(disk', id, payload, chunks, pieces)
  {
    assert id.page in PagesOf(id, chunks);
    if chunks != [] {
      forall i | 0 <= i < |chunks| ensures chunks[i].page in disk' && SlotIsRaw(disk'[chunks[i].page], chunks[i].slot, pieces[i]) {
        assert chunks[i].page in PagesOf(id, chunks);
      }
    }
  }

  // ── Reading ──

  /** What a slot of a page gives, whatever the bytes of the page are. */
  ghost function SlotOutcome(page: Bytes, slot: nat): S.SlotResult<Bytes> {
    if !S.PageSize(|page|) || !WellFormed(page) then S.Err(S.Corrupt)
    else if slot >= U16At(page, 0) then S.Err(S.InvalidSlot)
    else if SlotsOf(page)[slot].Deleted? then S.Err(S.SlotDeleted)
    else S.Ok(SlotsOf(page)[slot].payload)
  }

  ghost function Lookup(pages: seq<Bytes>, page: nat, slot: nat): RecordResult<Bytes> {
    if page >= |pages| then Failed(PagerFailed(OutOfRange(page)))
    else match SlotOutcome(pages[page], slot)
      case Ok(raw) => Got(raw)
      case Err(e) => Failed(SlotFailed(e))
  }

  lemma LiveLookup(pager: Pager, page: nat, slot: nat)
    requires pager.Valid() && page in pager.Disk()
    ensures Lookup(pager.pages, page, slot)
            == match SlotOutcome(pager.Disk()[page], slot) case Ok(raw) => Got(raw) case Err(e) => Failed(SlotFailed(e))
  {
  }

  /** The first n pieces, one after the other; the first that cannot be read decides. */
  ghost function Gathered(pages: seq<Bytes>, chunks: seq<Chunk>, n: nat): RecordResult<Bytes>
    requires n <= |chunks|
  {
    if n == 0 then Got([])
    else match Gathered(pages, chunks, n - 1)
      case Failed(e) => Failed(e)
      case Got(out) =>
        match Lookup(pages, chunks[n - 1].page, chunks[n - 1].slot)
        case Failed(e) => Failed(e)
        case Got(piece) => Got(out + piece)
  }

  ghost function OverflowOutcome(pages: seq<Bytes>, raw: Bytes): RecordResult<Bytes> {
    match ChunksOf(raw)
    case Err(e) => Failed(SlotFailed(e))
    case Ok(chunks) =>
      if !(0 < FromLE(raw[1..5]) <= MAX_RECORD_BYTES) then Failed(SlotFailed(S.Corrupt))
      else match Gathered(pages, chunks, |chunks|)
        case Failed(e) => Failed(e)
        case Got(out) => if |out| == FromLE(raw[1..5]) then Got(out) else Failed(SlotFailed(S.Corrupt))
  }

  /** What reading a record gives, whatever the file holds. */
  ghost function RecordOutcome(pages: seq<Bytes>, id: RecordId): RecordResult<Bytes> {
    match Lookup(pages, id.page, id.slot)
    case Failed(e) => Failed(e)
    case Got(raw) =>
      if raw != [] && raw[0] == KIND_INLINE then Got(raw[1..])
      else if raw != [] && raw[0] == KIND_OVERFLOW then OverflowOutcome(pages, raw)
      else Failed(SlotFailed(S.Corrupt))
  }

  /** A record that is in the pages is read as it was put. */
  lemma RecordReadBack(pager: Pager, id: RecordId, payload: Bytes, chunks: seq<Chunk>, pieces: seq<Bytes>)
    requires pager.Valid() && RecordIn(pager.Disk(), id, payload, chunks, pieces)
    ensures RecordOutcome(pager.pages, id) == Got(payload)
  {
    hide pager.Valid, pager.Sized, SlotIsRaw, SlotOutcome, Lookup, Gathered, ChunksOf, LiveContents, Descriptor;
    var raw := if chunks == [] then [KIND_INLINE] + payload else Descriptor(|payload|, chunks);
    RawLookup(pager, id.page, id.slot, raw);
    if chunks != [] {
      RecordDescribed(pager.Disk(), id, payload, chunks, pieces);
      ChunksReadBack(raw, |payload|, chunks);
      PiecesGathered(pager, chunks, pieces, |chunks|);
      assert pieces[..|chunks|] == pieces;
      DescriptorKind(|payload|, chunks);
    }
  }

  lemma DescriptorKind(length: nat, chunks: seq<Chunk>)
    ensures Descriptor(length, chunks) != [] && Descriptor(length, chunks)[0] == KIND_OVERFLOW
  {
  }

  lemma RawLookup(pager: Pager, page: nat, slot: nat, raw: Bytes)
    requires pager.Valid() && page in pager.Disk() && SlotIsRaw(pager.Disk()[page], slot, raw)
    ensures Lookup(pager.pages, page, slot) == Got(raw)
  {
  }

  lemma {:induction false} PiecesGathered(pager: Pager, chunks: seq<Chunk>, pieces: seq<Bytes>, n: nat)
    requires pager.Valid() && InPieces(pager.Disk(), chunks, pieces) && n <= |chunks|
    ensures Gathered(pager.pages, chunks, n) == Got(Joined(pieces[..n]))
  {
    hide pager.Valid, pager.Sized, SlotIsRaw, Lookup, LiveContents;
    if n > 0 {
      PiecesGathered(pager, chunks, pieces, n - 1);
      RawLookup(pager, chunks[n - 1].page, chunks[n - 1].slot, pieces[n - 1]);
      assert pieces[..n][..n - 1] == pieces[..n - 1];
    }
  }

  /** A piece that cannot be read decides, when the descriptor and the pieces before it can. */
  lemma PieceDecides(pages: seq<Bytes>, id: RecordId, length: nat, chunks: seq<Chunk>, j: nat)
    requires Lookup(pages, id.page, id.slot) == Got(Descriptor(length, chunks)) && 0 < length <= MAX_RECORD_BYTES && j < |chunks|
    requires Describes(Descriptor(length, chunks), length, chunks)
    requires forall i {:trigger chunks[i]} :: 0 <= i < j ==> Lookup(pages, chunks[i].page, chunks[i].slot).Got?
    requires Lookup(pages, chunks[j].page, chunks[j].slot).Failed?
    ensures RecordOutcome(pages, id) == Failed(Lookup(pages, chunks[j].page, chunks[j].slot).error)
  {
    hide Lookup, Descriptor, ChunksOf;
    DescriptorKind(length, chunks);
    ChunksReadBack(Descriptor(length, chunks), length, chunks);
    ReadableGathered(pages, chunks, j);
    FailureStays(pages, chunks, j + 1, |chunks|);
  }

  lemma {:induction false} ReadableGathered(pages: seq<Bytes>, chunks: seq<Chunk>, n: nat)
    requires n <= |chunks| && forall i {:trigger chunks[i]} :: 0 <= i < n ==> Lookup(pages, chunks[i].page, chunks[i].slot).Got?
    ensures Gathered(pages, chunks, n).Got?
  {
    hide Lookup;
    if n > 0 {
      ReadableGathered(pages, chunks, n - 1);
      assert Lookup(pages, chunks[n - 1].page, chunks[n - 1].slot).Got?;
    }
  }

  /** `get_record` */
  method GetRecord(pager: Pager, id: RecordId) returns (r: RecordResult<Bytes>)
    requires pager.Valid()
    ensures r == RecordOutcome(pager.pages, id)
  {
    hide pager.Valid, pager.Sized, Lookup, OverflowOutcome;
    var raw := ReadSlot(pager, id.page, id.slot);
    if raw.Failed? { return Failed(raw.error); }
    if |raw.value| > 0 && raw.value[0] == KIND_INLINE { return Got(raw.value[1..]); }
    if |raw.value| > 0 && raw.value[0] == KIND_OVERFLOW {
      r := DecodeOverflow(pager, raw.value);
      return;
    }
    return Failed(SlotFailed(S.Corrupt));
  }

  method ReadSlot(pager: Pager, page: nat, slot: nat) returns (r: RecordResult<Bytes>)
    requires pager.Valid()
    ensures r == Lookup(pager.pages, page, slot)
  {
    hide WellFormed;
    var bytes := pager.Read(page);
    if bytes.Err? { return Failed(PagerFailed(bytes.error)); }
    var parsed := Parse(bytes.value);
    if parsed.Err? { return Failed(SlotFailed(parsed.error)); }
    var got := parsed.value.Get(slot);
    if got.Err? { return Failed(SlotFailed(got.error)); }
    return Got(got.value);
  }

  /** `decode_overflow` */
  method DecodeOverflow(pager: Pager, raw: Bytes) returns (r: RecordResult<Bytes>)
    requires pager.Valid()
    ensures r == OverflowOutcome(pager.pages, raw)
  {
    hide pager.Valid, pager.Sized, Lookup, ChunksOf, FromLE;
    var read := OverflowChunks(raw);
    if read.Err? { return Failed(SlotFailed(read.error)); }
    var declared := FromLE(raw[1..5]);
    if declared == 0 || declared > MAX_RECORD_BYTES { return Failed(SlotFailed(S.Corrupt)); }
    var out: Bytes := [];
    for i := 0 to |read.value|
      invariant Gathered(pager.pages, read.value, i) == Got(out)
    {
      var piece := ReadSlot(pager, read.value[i].page, read.value[i].slot);
      if piece.Failed? {
        FailureStays(pager.pages, read.value, i + 1, |read.value|);
        return Failed(piece.error);
      }
      out := out + piece.value;
    }
    if |out| != declared { return Failed(SlotFailed(S.Corrupt)); }
    return Got(out);
  }

  lemma {:induction false} FailureStays(pages: seq<Bytes>, chunks: seq<Chunk>, n: nat, m: nat)
    requires n <= m <= |chunks| && Gathered(pages, chunks, n).Failed?
    ensures Gathered(pages, chunks, m) == Gathered(pages, chunks, n)
  {
    if n < m { FailureStays(pages, chunks, n, m - 1); }
  }

  // ── Writing ──

  /** The page has one slot, with this payload. */
  ghost predicate OnlySlot(page: Bytes, overflow: bool, raw: Bytes) {
    S.PageSize(|page|) && WellFormed(page) && SlotsOf(page) == [Live(overflow, raw)]
  }

  /** A new slotted page with one payload, in the first slot. */
  method FrameFor(pageSize: nat, raw: Bytes, overflow: bool) returns (r: S.SlotResult<Bytes>)
    requires S.PageSize(pageSize) && 0 < |raw| <= MAX_U16
    ensures r.Ok? <==> |raw| <= pageSize - 14
    ensures r.Err? ==> r == S.Err(S.NoSpace)
    ensures r.Ok? ==> |r.value| == pageSize && SlotIsRaw(r.value, 0, raw) && OnlySlot(r.value, overflow, raw)
  {
    var page := new S.SlottedPage(pageSize);
    var slot := page.Insert(raw);
    if slot.Err? { return S.Err(slot.error); }
    if overflow { var flagged := page.SetOverflow(slot.value, true); }
    WellFormedHolds(page.data[..], page.slots);
    return S.Ok(page.data[..]);
  }

  /** Page numbers still to be had: those on the free list, and those beyond the end of the file. */
  ghost function Spare(pager: Pager): int
    reads pager
  {
    |pager.free| + MAX_U64 - pager.pageCount
  }

  /** Pieces of at most `cap` bytes. */
  function Pieces(n: nat, cap: nat): nat
    requires cap > 0
  {
    (n + cap - 1) / cap
  }

  /** Pages that a record of n bytes takes up. */
  function PagesNeeded(n: nat, pageSize: nat): nat
    requires pageSize > 14
  {
    if n + 1 <= pageSize - 14 then 1 else Pieces(n, pageSize - 14) + 1
  }

  /** After k pieces the first `at` bytes are written. */
  ghost predicate Reached(n: nat, pageSize: nat, k: nat, at: nat)
    requires pageSize > 14
  {
    && at <= n && k <= 17
    && (at < n ==> k * (pageSize - 14) == at)
    && (at == n ==> k == Pieces(n, pageSize - 14))
  }

  lemma NoneReached(n: nat, pageSize: nat)
    requires pageSize > 14 && n > 0
    ensures Reached(n, pageSize, 0, 0)
  {
  }

  lemma NextReached(n: nat, pageSize: nat, k: nat, at: nat)
    requires S.PageSize(pageSize) && Reached(n, pageSize, k, at) && at < n <= MAX_RECORD_BYTES
    ensures Pieces(n, pageSize - 14) > k
    ensures Reached(n, pageSize, k + 1, if at + pageSize - 14 <= n then at + pageSize - 14 else n)
  {
    if pageSize == 4096 {
      assert pageSize - 14 == 4082;
    } else {
      assert pageSize - 14 == 8178;
    }
  }

  lemma AllReached(payload: Bytes, pageSize: nat, k: nat)
    requires pageSize > 14 && payload != [] && Reached(|payload|, pageSize, k, |payload|)
    ensures 0 < k <= 17 && k == Pieces(|payload|, pageSize - 14) && payload[..|payload|] == payload
  {
  }

  lemma NextPart(payload: Bytes, at: nat, end: nat)
    requires at <= end <= |payload|
    ensures payload[..end] == payload[..at] + payload[at..end]
  {
  }

  /** The next pages that the pager would give: those of the free list, from its head on, and then new ones. */
  function NextPages(free: seq<nat>, count: nat, n: nat): (pages: seq<nat>)
    ensures |pages| == n
    ensures forall i {:trigger pages[i]} :: 0 <= i < n ==> pages[i] == if i < |free| then free[i] else count + i - |free|
  {
    seq(n, i requires 0 <= i < n => if i < |free| then free[i] else count + i - |free|)
  }

  /** The pages were taken in that order. */
  ghost predicate TakenInOrder(free0: seq<nat>, count0: nat, pages: seq<nat>, free: seq<nat>, count: nat) {
    && pages == NextPages(free0, count0, |pages|)
    && free == (if |pages| <= |free0| then free0[|pages|..] else [])
    && count == (if |pages| <= |free0| then count0 else count0 + |pages| - |free0|)
  }

  ghost predicate TookNext(free: seq<nat>, count: nat, page: nat, free': seq<nat>, count': nat) {
    if free != [] then page == free[0] && free' == free[1..] && count' == count
    else page == count && free' == [] && count' == count + 1
  }

  lemma OneMoreTaken(free0: seq<nat>, count0: nat, pages: seq<nat>, free: seq<nat>, count: nat, page: nat, free': seq<nat>, count': nat)
    requires TakenInOrder(free0, count0, pages, free, count) && TookNext(free, count, page, free', count')
    ensures TakenInOrder(free0, count0, pages + [page], free', count')
  {
    var more := pages + [page];
    assert forall i :: 0 <= i < |more| ==> more[i] == NextPages(free0, count0, |more|)[i];
  }

  lemma NoneTaken(free: seq<nat>, count: nat)
    ensures TakenInOrder(free, count, [], free, count)
  {
  }

  /** The frame is written to a page of its own, the next one. */
  method StoreFrame(pager: Pager, frame: Bytes) returns (r: RecordResult<nat>)
    requires pager.Valid() && |frame| == pager.pageSize
    modifies pager
    ensures pager.Valid()
    ensures r.Got? ==> r.value !in old(pager.Disk()) && r.value <= MAX_U64 && pager.Disk() == old(pager.Disk())[r.value := frame]
    ensures r.Failed? ==> pager.Disk() == old(pager.Disk()) && r.error.PagerFailed?
    ensures r.Got? <==> old(Spare(pager)) > 0
    ensures Spare(pager) == old(Spare(pager)) - (if r.Got? then 1 else 0)
    ensures r.Got? ==> TookNext(old(pager.free), old(pager.pageCount), r.value, pager.free, pager.pageCount)
  {
    hide pager.Valid, pager.Disk;
    var page := pager.Alloc();
    if page.Err? { return Failed(PagerFailed(page.error)); }
    LivePage(pager, page.value);
    DiskIsPages(pager, page.value);
    var written := pager.WritePage(page.value, frame);
    return Got(page.value);
  }

  /** Distinct pages, none of them on the disk that was. */
  ghost predicate NewPages(disk: map<nat, Bytes>, pages: seq<nat>) {
    && (forall i :: 0 <= i < |pages| ==> pages[i] !in disk)
    && (forall i, j :: 0 <= i < j < |pages| ==> pages[i] != pages[j])
  }

  /** The disk has grown by the given pages. */
  ghost predicate GrownBy(disk0: map<nat, Bytes>, disk: map<nat, Bytes>, pages: seq<nat>) {
    && NewPages(disk0, pages) && disk.Keys == disk0.Keys + (set p | p in pages)
    && forall p :: p in disk0 ==> disk[p] == disk0[p]
  }

  lemma GrownLess(disk0: map<nat, Bytes>, disk: map<nat, Bytes>, pages: seq<nat>)
    requires pages != [] && GrownBy(disk0, disk, pages)
    ensures pages[0] in disk && GrownBy(disk0, disk - {pages[0]}, pages[1..])
  {
    assert pages[0] in (set p | p in pages);
    assert (set p | p in pages) == {pages[0]} + (set p | p in pages[1..]);
    forall i | 0 <= i < |pages| - 1 ensures pages[1..][i] !in disk0 && pages[1..][i] != pages[0] { assert pages[1..][i] == pages[i + 1]; }
  }

  lemma GrownByNone(disk0: map<nat, Bytes>, disk: map<nat, Bytes>)
    ensures GrownBy(disk0, disk, []) <==> disk == disk0
  {
    var pages: seq<nat> := [];
    assert (set p | p in pages) == {};
  }

  /** Pages allocated in vain are given back. */
  method FreeAll(pager: Pager, pages: seq<nat>, ghost disk0: map<nat, Bytes>)
    requires pager.Valid() && GrownBy(disk0, pager.Disk(), pages)
    modifies pager
    ensures pager.Valid() && pager.Disk() == disk0
  {
    hide GrownBy, pager.Valid, pager.Sized;
    assert pages[0..] == pages;
    for i := 0 to |pages|
      invariant pager.Valid() && GrownBy(disk0, pager.Disk(), pages[i..])
    {
      GrownLess(disk0, pager.Disk(), pages[i..]);
      assert pages[i..][1..] == pages[i + 1..];
      LivePage(pager, pages[i]);
      var freed := pager.Free(pages[i]);
    }
    assert pages[|pages|..] == [];
    GrownByNone(disk0, pager.Disk());
  }

  lemma LivePage(pager: Pager, page: nat)
    requires pager.Valid() && page in pager.Disk()
    ensures page !in pager.free && page > 0
  {
  }

  lemma PagerSize(pager: Pager)
    requires pager.Valid()
    ensures S.PageSize(pager.pageSize) && pager.pageCount <= MAX_U64
  {
  }

  function PagesIn(chunks: seq<Chunk>): (s: seq<nat>)
    ensures |s| == |chunks| && forall i {:trigger s[i]} :: 0 <= i < |s| ==> s[i] == chunks[i].page
  {
    seq(|chunks|, i requires 0 <= i < |chunks| => chunks[i].page)
  }

  lemma GrownMore(disk0: map<nat, Bytes>, disk: map<nat, Bytes>, pages: seq<nat>, page: nat, frame: Bytes)
    requires GrownBy(disk0, disk, pages) && page !in disk
    ensures GrownBy(disk0, disk[page := frame], pages + [page])
  {
    assert (set p | p in pages + [page]) == (set p | p in pages) + {page};
    forall i | 0 <= i < |pages| ensures pages[i] != page { assert pages[i] in (set p | p in pages); }
  }

  lemma PiecesKept(disk: map<nat, Bytes>, chunks: seq<Chunk>, pieces: seq<Bytes>, page: nat, frame: Bytes)
    requires InPieces(disk, chunks, pieces) && page !in disk
    ensures InPieces(disk[page := frame], chunks, pieces)
  {
    forall i | 0 <= i < |chunks| ensures chunks[i].page in disk[page := frame]
                                         && SlotIsRaw(disk[page := frame][chunks[i].page], chunks[i].slot, pieces[i]) { }
  }

  /** Every piece is as long as a page can hold, but for the last, which may be shorter. */
  ghost predicate FullPieces(pieces: seq<Bytes>, cap: nat) {
    && (forall i {:trigger pieces[i]} :: 0 <= i < |pieces| - 1 ==> |pieces[i]| == cap)
    && (pieces != [] ==> 0 < |pieces[|pieces| - 1]| <= cap)
  }

  lemma OneMoreFull(pieces: seq<Bytes>, piece: Bytes, cap: nat)
    requires FullPieces(pieces, cap) && 0 < |piece| <= cap && (pieces != [] ==> |pieces[|pieces| - 1]| == cap)
    ensures FullPieces(pieces + [piece], cap)
  {
  }

  /** Each piece is alone on its page. */
  ghost predicate PiecesAlone(disk: map<nat, Bytes>, chunks: seq<Chunk>, pieces: seq<Bytes>) {
    && |pieces| == |chunks|
    && forall i {:trigger chunks[i]} :: 0 <= i < |chunks| ==>
         chunks[i].slot == 0 && chunks[i].page in disk && OnlySlot(disk[chunks[i].page], false, pieces[i])
  }

  lemma OneMoreAlone(disk: map<nat, Bytes>, chunks: seq<Chunk>, pieces: seq<Bytes>, c: Chunk, piece: Bytes, frame: Bytes)
    requires PiecesAlone(disk, chunks, pieces) && c.page !in disk && c.slot == 0 && OnlySlot(frame, false, piece)
    ensures PiecesAlone(disk[c.page := frame], chunks + [c], pieces + [piece])
  {
    hide OnlySlot;
  }

  lemma AloneKept(disk: map<nat, Bytes>, chunks: seq<Chunk>, pieces: seq<Bytes>, page: nat, frame: Bytes)
    requires PiecesAlone(disk, chunks, pieces) && page !in disk
    ensures PiecesAlone(disk[page := frame], chunks, pieces)
  {
    hide OnlySlot;
  }

  /** The pieces, each on a new page; on failure the pages stay allocated, for the caller to free. */
  method WriteChunks(pager: Pager, payload: Bytes) returns (chunks: seq<Chunk>, failure: Option<RecordError>, ghost pieces: seq<Bytes>)
    requires pager.Valid() && 0 < |payload| <= MAX_RECORD_BYTES
    modifies pager
    ensures pager.Valid() && |chunks| <= 17 && GrownBy(old(pager.Disk()), pager.Disk(), PagesIn(chunks))
    ensures failure.None? ==> chunks != [] && InPieces(pager.Disk(), chunks, pieces) && Joined(pieces) == payload
    ensures failure.Some? ==> failure.value.PagerFailed?
    ensures pager.pageSize > 14 && (failure.None? <==> old(Spare(pager)) >= Pieces(|payload|, pager.pageSize - 14))
    ensures failure.None? ==> Spare(pager) == old(Spare(pager)) - Pieces(|payload|, pager.pageSize - 14)
    ensures failure.None? ==> FullPieces(pieces, pager.pageSize - 14) && PiecesAlone(pager.Disk(), chunks, pieces)
    ensures failure.None? ==> TakenInOrder(old(pager.free), old(pager.pageCount), PagesIn(chunks), pager.free, pager.pageCount)
  {
    hide OnlySlot, TakenInOrder, TookNext, PiecesAlone, FullPieces, pager.Valid, pager.Sized, pager.Disk, GrownBy, InPieces, Pieces, Joined, Reached, AddedPage;
    ghost var disk0 := pager.Disk();
    PagerSize(pager);
    var at := 0;
    chunks, pieces, failure := [], [], None;
    GrownByNone(disk0, disk0);
    NoPieces(disk0);
    assert payload[..0] == [] && PagesIn([]) == [];
    NoneReached(|payload|, pager.pageSize);
    NoneTaken(pager.free, pager.pageCount);
    NoneAlone(pager.Disk(), pager.pageSize - 14);
    while at < |payload|
      invariant pager.Valid() && at <= |payload| && failure.None? && Reached(|payload|, pager.pageSize, |chunks|, at)
      invariant Spare(pager) == old(Spare(pager)) - |chunks| >= 0
      invariant GrownBy(disk0, pager.Disk(), PagesIn(chunks))
      invariant InPieces(pager.Disk(), chunks, pieces) && Joined(pieces) == payload[..at]
      invariant PiecesAlone(pager.Disk(), chunks, pieces) && FullPieces(pieces, pager.pageSize - 14)
      invariant at < |payload| && pieces != [] ==> |pieces[|pieces| - 1]| == pager.pageSize - 14
      invariant TakenInOrder(old(pager.free), old(pager.pageCount), PagesIn(chunks), pager.free, pager.pageCount)
    {
      ghost var free1, count1 := pager.free, pager.pageCount;
      var end := if at + pager.pageSize - 14 <= |payload| then at + pager.pageSize - 14 else |payload|;
      var piece := payload[at..end];
      ghost var disk1 := pager.Disk();
      NextReached(|payload|, pager.pageSize, |chunks|, at);
      var chunk := WriteChunk(pager, piece);
      if chunk.Failed? { return chunks, Some(chunk.error), pieces; }
      OneMorePiece(disk0, disk1, pager.Disk(), chunks, pieces, chunk.value, piece);
      AddedAlone(disk1, pager.Disk(), chunks, pieces, chunk.value, piece);
      OneMoreFull(pieces, piece, pager.pageSize - 14);
      OneMoreTaken(old(pager.free), old(pager.pageCount), PagesIn(chunks), free1, count1, chunk.value.page, pager.free, pager.pageCount);
      assert PagesIn(chunks + [chunk.value]) == PagesIn(chunks) + [chunk.value.page];
      NextPart(payload, at, end);
      chunks, pieces, at := chunks + [chunk.value], pieces + [piece], end;
    }
    AllReached(payload, pager.pageSize, |chunks|);
  }

  lemma NoneAlone(disk: map<nat, Bytes>, cap: nat)
    ensures PiecesAlone(disk, [], []) && FullPieces([], cap)
  {
  }

  lemma AddedAlone(disk: map<nat, Bytes>, disk': map<nat, Bytes>, chunks: seq<Chunk>, pieces: seq<Bytes>, c: Chunk, piece: Bytes)
    requires PiecesAlone(disk, chunks, pieces) && AddedPage(disk, disk', c, piece)
    ensures PiecesAlone(disk', chunks + [c], pieces + [piece])
  {
    OneMoreAlone(disk, chunks, pieces, c, piece, disk'[c.page]);
  }

  /** One piece on a page of its own. */
  method WriteChunk(pager: Pager, piece: Bytes) returns (r: RecordResult<Chunk>)
    requires pager.Valid() && 0 < |piece| <= pager.pageSize - 14
    modifies pager
    ensures pager.Valid()
    ensures r.Got? ==> ChunkOk(r.value) && AddedPage(old(pager.Disk()), pager.Disk(), r.value, piece)
    ensures r.Failed? ==> pager.Disk() == old(pager.Disk()) && r.error.PagerFailed?
    ensures r.Got? <==> old(Spare(pager)) > 0
    ensures Spare(pager) == old(Spare(pager)) - (if r.Got? then 1 else 0)
    ensures r.Got? ==> TookNext(old(pager.free), old(pager.pageCount), r.value.page, pager.free, pager.pageCount)
  {
    hide TookNext;
    PagerSize(pager);
    var frame := FrameFor(pager.pageSize, piece, false);
    var stored := StoreFrame(pager, frame.value);
    if stored.Failed? { return Failed(stored.error); }
    return Got(Chunk(stored.value, 0));
  }

  ghost predicate AddedPage(disk: map<nat, Bytes>, disk': map<nat, Bytes>, c: Chunk, raw: Bytes) {
    && c.page !in disk && c.page in disk' && SlotIsRaw(disk'[c.page], c.slot, raw) && disk' == disk[c.page := disk'[c.page]]
    && c.slot == 0 && OnlySlot(disk'[c.page], false, raw)
  }

  lemma NoPieces(disk: map<nat, Bytes>)
    ensures InPieces(disk, [], []) && Joined([]) == []
  {
  }

  lemma OneMorePiece(disk0: map<nat, Bytes>, disk: map<nat, Bytes>, disk': map<nat, Bytes>,
                     chunks: seq<Chunk>, pieces: seq<Bytes>, c: Chunk, piece: Bytes)
    requires GrownBy(disk0, disk, PagesIn(chunks)) && InPieces(disk, chunks, pieces) && |chunks| < 17
    requires ChunkOk(c) && AddedPage(disk, disk', c, piece)
    ensures GrownBy(disk0, disk', PagesIn(chunks + [c])) && InPieces(disk', chunks + [c], pieces + [piece])
    ensures Joined(pieces + [piece]) == Joined(pieces) + piece
  {
    GrownMore(disk0, disk, PagesIn(chunks), c.page, disk'[c.page]);
    assert PagesIn(chunks + [c]) == PagesIn(chunks) + [c.page];
    PiecesKept(disk, chunks, pieces, c.page, disk'[c.page]);
    assert (pieces + [piece])[..|pieces|] == pieces;
  }

  /** `put_record`: the record is stored on pages that were not in use, or nothing has changed. */
  method PutRecord(pager: Pager, payload: Bytes)
    returns (r: RecordResult<RecordId>, ghost chunks: seq<Chunk>, ghost pieces: seq<Bytes>)
    requires pager.Valid()
    modifies pager
    ensures pager.Valid()
    ensures |payload| == 0 || |payload| > 0x1_0000 <==> r == Failed(PayloadTooLarge)
    ensures r.Got? ==> r.value.slot == 0 && r.value.page in pager.Disk()
                       && (chunks == [] <==> |payload| <= pager.pageSize - 15)
                       && OnlySlot(pager.Disk()[r.value.page], chunks != [], if chunks == [] then [0] + payload else Descriptor(|payload|, chunks))
                       && (chunks != [] ==> FullPieces(pieces, pager.pageSize - 14) && PiecesAlone(pager.Disk(), chunks, pieces))
                       && TakenInOrder(old(pager.free), old(pager.pageCount), PagesIn(chunks) + [r.value.page], pager.free, pager.pageCount)
    ensures r.Got? ==> RecordIn(pager.Disk(), r.value, payload, chunks, pieces)
                       && GrownBy(old(pager.Disk()), pager.Disk(), PagesIn(chunks) + [r.value.page])
    ensures r.Failed? ==> pager.Disk() == old(pager.Disk())
    ensures pager.pageSize > 14
    ensures r.Got? <==> 0 < |payload| <= MAX_RECORD_BYTES && old(Spare(pager)) >= PagesNeeded(|payload|, pager.pageSize)
    ensures r.Got? ==> Spare(pager) == old(Spare(pager)) - PagesNeeded(|payload|, pager.pageSize)
    ensures r == Failed(PayloadTooLarge) ==> unchanged(pager)
  {
    hide pager.Valid, pager.Sized, GrownBy, InPieces, SlotIsRaw, Pieces, OnlySlot, TakenInOrder, TookNext, PiecesAlone, FullPieces;
    chunks, pieces := [], [];
    NoneTaken(pager.free, pager.pageCount);
    PagerSize(pager);
    if |payload| == 0 || |payload| > MAX_RECORD_BYTES { return Failed(PayloadTooLarge), chunks, pieces; }
    ghost var disk0 := pager.Disk();
    if |payload| + 1 <= MAX_U16 {
      var frame := FrameFor(pager.pageSize, [KIND_INLINE] + payload, false);
      if frame.Ok? {
        GrownByNone(disk0, disk0);
        assert PagesIn([]) == [];
        r := PutHome(pager, frame.value, [], disk0, old(pager.free), old(pager.pageCount));
        return;
      }
    }
    var written, failure;
    written, failure, pieces := WriteChunks(pager, payload);
    chunks := written;
    if failure.Some? {
      FreeAll(pager, PagesIn(written), disk0);
      return Failed(failure.value), chunks, pieces;
    }
    var home := FrameFor(pager.pageSize, Descriptor(|payload|, written), true);
    ghost var disk1 := pager.Disk();
    r := PutHome(pager, home.value, PagesIn(written), disk0, old(pager.free), old(pager.pageCount));
    if r.Got? {
      PiecesKept(disk1, chunks, pieces, r.value.page, home.value);
      AloneKept(disk1, chunks, pieces, r.value.page, home.value);
    }
  }

  /** The home page, last; when there is no page for it, the others are given back. */
  method PutHome(pager: Pager, frame: Bytes, pages: seq<nat>, ghost disk0: map<nat, Bytes>, ghost free0: seq<nat>, ghost count0: nat)
    returns (r: RecordResult<RecordId>)
    requires TakenInOrder(free0, count0, pages, pager.free, pager.pageCount)
    requires pager.Valid() && |frame| == pager.pageSize && GrownBy(disk0, pager.Disk(), pages)
    modifies pager
    ensures pager.Valid()
    ensures r.Got? ==> r.value.slot == 0 && r.value.page !in old(pager.Disk()) && pager.Disk() == old(pager.Disk())[r.value.page := frame]
                       && GrownBy(disk0, pager.Disk(), pages + [r.value.page])
    ensures r.Failed? ==> pager.Disk() == disk0 && r.error.PagerFailed?
    ensures r.Got? <==> old(Spare(pager)) > 0
    ensures r.Got? ==> Spare(pager) == old(Spare(pager)) - 1
    ensures r.Got? ==> TakenInOrder(free0, count0, pages + [r.value.page], pager.free, pager.pageCount)
  {
    hide pager.Valid, pager.Sized, GrownBy, TakenInOrder, TookNext;
    ghost var free1, count1 := pager.free, pager.pageCount;
    ghost var disk1 := pager.Disk();
    var stored := StoreFrame(pager, frame);
    if stored.Failed? {
      FreeAll(pager, pages, disk0);
      return Failed(stored.error);
    }
    GrownMore(disk0, disk1, pages, stored.value, frame);
    OneMoreTaken(free0, count0, pages, free1, count1, stored.value, pager.free, pager.pageCount);
    return Got(RecordId(stored.value, 0));
  }

  // ── Deleting ──

  /** A record that can be deleted: the pages it is on are different ones. */
  ghost predicate WholeRecord(disk: map<nat, Bytes>, id: RecordId, payload: Bytes, chunks: seq<Chunk>, pieces: seq<Bytes>) {
    && RecordIn(disk, id, payload, chunks, pieces)
    && (forall i, j :: 0 <= i < j < |chunks| ==> chunks[i].page != chunks[j].page)
    && (forall i :: 0 <= i < |chunks| ==> chunks[i].page != id.page)
  }

  /** What a delete finds: the chunks whose pages are to be freed, or why it is refused. */
  ghost function ToFree(pages: seq<Bytes>, id: RecordId): RecordResult<seq<Chunk>> {
    match Lookup(pages, id.page, id.slot)
    case Failed(e) => Failed(e)
    case Got(raw) =>
      if raw == [] || raw[0] != KIND_OVERFLOW then Got([])
      else match ChunksOf(raw)
        case Err(e) => Failed(SlotFailed(e))
        case Ok(chunks) => Got(chunks)
  }

  /** How many of the chunks, from the first on, are on pages of the file. */
  function InRange(chunks: seq<Chunk>, pageCount: nat): (n: nat)
    ensures n <= |chunks| && forall i {:trigger chunks[i]} :: 0 <= i < n ==> 0 < chunks[i].page < pageCount
    ensures n < |chunks| ==> chunks[n].page == 0 || chunks[n].page >= pageCount
  {
    if chunks == [] || chunks[0].page == 0 || chunks[0].page >= pageCount then 0 else 1 + InRange(chunks[1..], pageCount)
  }

  /** The first n chunks are on live pages, and no two on one. */
  ghost predicate OnePageEach(disk: map<nat, Bytes>, chunks: seq<Chunk>, n: nat)
    requires n <= |chunks|
  {
    && (forall i {:trigger chunks[i]} :: 0 <= i < n ==> chunks[i].page in disk)
    && (forall i, j {:trigger chunks[i], chunks[j]} :: 0 <= i < j < n ==> chunks[i].page != chunks[j].page)
  }

  function FreeOutcome(chunks: seq<Chunk>, pageCount: nat): RecordResult<()> {
    var n := InRange(chunks, pageCount);
    if n == |chunks| then Got(())
    else Failed(PagerFailed(if chunks[n].page == 0 then PagerError.Corrupt else OutOfRange(chunks[n].page)))
  }

  /** The pages of the first n chunks are freed, and of the others all but one are the same. */
  ghost predicate Shrunk(disk0: map<nat, Bytes>, disk: map<nat, Bytes>, chunks: seq<Chunk>, n: nat, home: nat)
    requires n <= |chunks|
  {
    && disk.Keys == disk0.Keys - (set c | c in chunks[..n] :: c.page)
    && forall p {:trigger disk[p]} :: p in disk && p != home ==> disk[p] == disk0[p]
  }

  /** The pages that none of the first n chunks are on, but for the header page. */
  ghost predicate SameElsewhere(pages0: seq<Bytes>, pages: seq<Bytes>, chunks: seq<Chunk>, n: nat)
    requires n <= |chunks|
  {
    |pages| == |pages0| && forall p {:trigger pages[p]} :: 0 < p < |pages| && p !in PagesIn(chunks[..n]) ==> pages[p] == pages0[p]
  }

  /** If the page is on the list, its link is the one the list needs. */
  ghost predicate StillLinked(pages: seq<Bytes>, free: seq<nat>, page: nat) {
    forall k {:trigger FreePageOk(pages, free, k)} :: 0 <= k < |free| && free[k] == page ==> FreePageOk(pages, free, k)
  }

  /** `delete_record`, whatever the id leads to. The pages listed in the slot go to the free list, the last one first, up to
      one that is not in the file; when all went, the slot is a tombstone. A page that is free already, or listed twice,
      loses the free list. The home page is written even if it is free by then: the list survives if its link does. */
  method DeleteRecord(pager: Pager, id: RecordId) returns (r: RecordResult<()>, ghost freed: seq<Bytes>)
    requires pager.Valid()
    modifies pager
    ensures pager.Sized() && pager.pageCount == old(pager.pageCount)
    ensures old(ToFree(pager.pages, id)).Failed? ==> r == Failed(old(ToFree(pager.pages, id)).error) && unchanged(pager)
    ensures old(ToFree(pager.pages, id)).Got? ==>
              var chunks := old(ToFree(pager.pages, id)).value;
              var n := InRange(chunks, pager.pageCount);
              && r == FreeOutcome(chunks, pager.pageCount) && SameElsewhere(old(pager.pages), freed, chunks, n)
              && (r.Failed? ==> pager.pages == freed)
              && (r.Got? ==> id.page < |freed| && pager.pages == freed[id.page := pager.pages[id.page]]
                             && SlotGone(old(pager.pages)[id.page], pager.pages[id.page], id.slot))
              && (OnePageEach(old(pager.Disk()), chunks, n) ==>
                    && pager.free == Reversed(PagesIn(chunks[..n])) + old(pager.free)
                    && Shrunk(old(pager.Disk()), pager.Disk(), chunks, n, id.page)
                    && (pager.Valid() <==> (r.Got? ==> StillLinked(pager.pages, pager.free, id.page))))
              && (!OnePageEach(old(pager.Disk()), chunks, n) ==> NoList(freed, pager.freeHead))
  {
    hide pager.Valid, pager.Disk, WellFormed, SlotsOf, SlotGone, Reversed, ToFree, OnePageEach, Shrunk, StillLinked, NoList, InRange, SameElsewhere;
    freed := pager.pages;
    var found, chunks := FindToDelete(pager, id);
    if found.Failed? { return Failed(found.error), freed; }
    r := FreeChunks(pager, chunks, id.page);
    freed := pager.pages;
    if r.Got? { Bury(pager, id, found.value, chunks, old(pager.Disk())); }
  }

  method FindToDelete(pager: Pager, id: RecordId) returns (r: RecordResult<S.SlottedPage>, chunks: seq<Chunk>)
    requires pager.Valid()
    ensures r.Failed? ==> ToFree(pager.pages, id) == Failed(r.error)
    ensures r.Got? ==>
              && ToFree(pager.pages, id) == Got(chunks) && 0 < id.page < pager.pageCount == |pager.pages|
              && fresh(r.value) && fresh(r.value.data) && r.value.Valid() && r.value.data.Length == pager.pageSize
              && r.value.data[..] == pager.pages[id.page] && WellFormed(r.value.data[..]) && r.value.slots == SlotsOf(r.value.data[..])
              && id.slot < |r.value.slots| && r.value.slots[id.slot].Live?
  {
    hide WellFormed, ChunksOf, SlotOf, FreeChain, HeaderPage;
    chunks := [];
    SlotFound(pager, id.page, id.slot);
    var bytes := pager.Read(id.page);
    if bytes.Err? { return Failed(PagerFailed(bytes.error)), chunks; }
    var parsed := Parse(bytes.value);
    if parsed.Err? { return Failed(SlotFailed(parsed.error)), chunks; }
    var raw := parsed.value.Get(id.slot);
    if raw.Err? { return Failed(SlotFailed(raw.error)), chunks; }
    HeaderNotSlotted(pager);
    hide Lookup;
    if |raw.value| > 0 && raw.value[0] == KIND_OVERFLOW {
      var read := OverflowChunks(raw.value);
      if read.Err? { return Failed(SlotFailed(read.error)), chunks; }
      chunks := read.value;
    }
    return Got(parsed.value), chunks;
  }

  /** The header page is no slotted page: its magic would be too large a count of slots. */
  lemma HeaderNotSlotted(pager: Pager)
    requires pager.Valid()
    ensures pager.pages != [] && !WellFormed(pager.pages[0])
  {
    var p := pager.pages[0];
    hide ToLE;
    assert p[0] == MAGIC[0] && p[1] == MAGIC[1];
    TwoBytes(p[0..2]);
  }

  lemma TwoBytes(b: Bytes)
    requires |b| == 2
    ensures FromLE(b) == b[0] as nat + 256 * b[1] as nat
  {
    assert FromLE(b[1..][1..]) == 0;
  }

  lemma SlotFound(pager: Pager, page: nat, slot: nat)
    requires pager.Valid()
    ensures page >= pager.pageCount ==> Lookup(pager.pages, page, slot) == Failed(PagerFailed(OutOfRange(page)))
    ensures page < pager.pageCount ==>
              Lookup(pager.pages, page, slot)
              == match SlotOutcome(pager.pages[page], slot) case Ok(raw) => Got(raw) case Err(e) => Failed(SlotFailed(e))
  {
  }

  /** The tombstone is written to the home page. */
  method Bury(pager: Pager, id: RecordId, page: S.SlottedPage, ghost chunks: seq<Chunk>, ghost disk0: map<nat, Bytes>)
    requires pager.Sized() && {page, page.data} !! {pager} && page.Valid() && page.slots == SlotsOf(page.data[..])
    requires WellFormed(page.data[..]) && page.data.Length == pager.pageSize
    requires id.slot < |page.slots| && page.slots[id.slot].Live? && 0 < id.page < pager.pageCount
    modifies pager`pages, page, page.data
    ensures pager.Sized() && pager.pages == old(pager.pages)[id.page := pager.pages[id.page]]
    ensures SlotGone(old(page.data[..]), pager.pages[id.page], id.slot)
    ensures old(pager.Valid()) && Shrunk(disk0, old(pager.Disk()), chunks, |chunks|, id.page) ==>
              Shrunk(disk0, pager.Disk(), chunks, |chunks|, id.page) && (pager.Valid() <==> StillLinked(pager.pages, pager.free, id.page))
  {
    hide WellFormed, SlotsOf, Shrunk, FreeChain, LiveContents, pager.Disk, pager.Valid, StillLinked;
    WellFormedHolds(page.data[..], page.slots);
    var deleted := page.Delete(id.slot);
    WellFormedHolds(page.data[..], page.slots);
    Rewrite(pager, id.page, page.data[..], chunks, disk0);
  }

  /** Overwrites a page that may be free. */
  method Rewrite(pager: Pager, page: nat, frame: Bytes, ghost chunks: seq<Chunk>, ghost disk0: map<nat, Bytes>)
    requires pager.Sized() && 0 < page < pager.pageCount && |frame| == pager.pageSize
    modifies pager`pages
    ensures pager.Sized() && pager.pages == old(pager.pages)[page := frame]
    ensures old(pager.Valid()) && Shrunk(disk0, old(pager.Disk()), chunks, |chunks|, page) ==>
              Shrunk(disk0, pager.Disk(), chunks, |chunks|, page) && (pager.Valid() <==> StillLinked(pager.pages, pager.free, page))
  {
    ghost var valid, disk := pager.Valid(), pager.Disk();
    if valid {
      LinkNeeded(pager, page, frame);
      FreeOrLive(pager, page);
    }
    hide pager.Valid, pager.Sized, pager.Disk, StillLinked;
    var written := pager.WritePage(page, frame);
  }

  lemma FreeOrLive(pager: Pager, page: nat)
    requires pager.Valid() && 0 < page < pager.pageCount
    ensures page in pager.Disk() <==> page !in pager.free
  {
  }

  lemma LinkNeeded(pager: Pager, page: nat, frame: Bytes)
    requires pager.Valid() && 0 < page < pager.pageCount && |frame| == pager.pageSize
    ensures pager.KeepsList(page, frame) <==> StillLinked(pager.pages[page := frame], pager.free, page)
  {
    hide Link;
    if page in pager.free {
      var k :| 0 <= k < |pager.free| && pager.free[k] == page;
      assert FreePageOk(pager.pages, pager.free, k);
      assert FreePageOk(pager.pages[page := frame], pager.free, k) <==> Link(frame) == HeadOf(pager.free[k + 1..]);
    }
  }

  /** A page whose slot is now a tombstone, with all other slots as they were. */
  ghost predicate SlotGone(page: Bytes, page': Bytes, slot: nat) {
    && WellFormed(page) && WellFormed(page') && slot < U16At(page, 0)
    && SlotsOf(page') == SlotsOf(page)[slot := Deleted]
  }

  function Reversed(s: seq<nat>): seq<nat> {
    if s == [] then [] else [s[|s| - 1]] + Reversed(s[..|s| - 1])
  }

  lemma DiskIsPages(pager: Pager, page: nat)
    requires pager.Valid() && page in pager.Disk()
    ensures page < pager.pageCount && pager.Disk()[page] == pager.pages[page] && |pager.Disk()[page]| == pager.pageSize
  {
  }

  lemma RecordDescribed(disk: map<nat, Bytes>, id: RecordId, payload: Bytes, chunks: seq<Chunk>, pieces: seq<Bytes>)
    requires RecordIn(disk, id, payload, chunks, pieces)
    ensures chunks != [] ==> Describes(Descriptor(|payload|, chunks), |payload|, chunks)
    ensures forall i {:trigger chunks[i]} :: 0 <= i < |chunks| ==> chunks[i].page in disk
  {
  }

  /** The pages of the chunks go to the free list, up to the first that is not in the file. */
  method FreeChunks(pager: Pager, chunks: seq<Chunk>, ghost home: nat) returns (r: RecordResult<()>)
    requires pager.Valid()
    modifies pager
    ensures pager.Sized() && pager.pageCount == old(pager.pageCount) && r == FreeOutcome(chunks, pager.pageCount)
    ensures SameElsewhere(old(pager.pages), pager.pages, chunks, InRange(chunks, pager.pageCount))
    ensures var n := InRange(chunks, pager.pageCount);
            if OnePageEach(old(pager.Disk()), chunks, n)
            then pager.Valid() && pager.free == Reversed(PagesIn(chunks[..n])) + old(pager.free)
                 && Shrunk(old(pager.Disk()), pager.Disk(), chunks, n, home)
            else NoList(pager.pages, pager.freeHead)
  {
    hide pager.Valid, pager.Sized, pager.Disk, LiveContents, Shrunk, Reversed, NoList, InRange, OnePageEach, SameElsewhere;
    ghost var disk0, free0, pages0 := pager.Disk(), pager.free, pager.pages;
    AllSame(pages0, chunks);
    ghost var n := InRange(chunks, pager.pageCount);
    NoneFreed(disk0, chunks, home);
    for i := 0 to |chunks|
      invariant i <= n && pager.Sized() && pager.pageCount == old(pager.pageCount)
      invariant SameElsewhere(pages0, pager.pages, chunks, i)
      invariant OnePageEach(disk0, chunks, i) ==>
                  pager.Valid() && pager.free == Reversed(PagesIn(chunks[..i])) + free0 && Shrunk(disk0, pager.Disk(), chunks, i, home)
      invariant !OnePageEach(disk0, chunks, i) ==> NoList(pager.pages, pager.freeHead)
    {
      var p := chunks[i].page;
      if i < n {
        if OnePageEach(disk0, chunks, i) {
          FreeOrNot(pager, p);
          OneMoreFreed(disk0, pager.Disk(), chunks, i, home);
        } else {
          NotOnePageEach(disk0, chunks, i);
        }
      }
      ghost var pages := pager.pages;
      SizedPages(pager);
      var done := pager.Free(p);
      if done.Err? { return Failed(PagerFailed(done.error)); }
      SizedPages(pager);
      OneMoreElsewhere(pages0, pages, pager.pages, chunks, i);
      Associative([p], Reversed(PagesIn(chunks[..i])), free0);
    }
    return Got(());
  }

  lemma SizedPages(pager: Pager)
    requires pager.Sized()
    ensures pager.pageCount == |pager.pages|
  {
  }

  lemma AllSame(pages: seq<Bytes>, chunks: seq<Chunk>)
    ensures SameElsewhere(pages, pages, chunks, 0)
  {
  }

  lemma OneMoreElsewhere(pages0: seq<Bytes>, pages: seq<Bytes>, pages': seq<Bytes>, chunks: seq<Chunk>, i: nat)
    requires i < |chunks| && SameElsewhere(pages0, pages, chunks, i) && |pages'| == |pages|
    requires forall q {:trigger pages'[q]} :: 0 < q < |pages| && q != chunks[i].page ==> pages'[q] == pages[q]
    ensures SameElsewhere(pages0, pages', chunks, i + 1)
  {
    assert PagesIn(chunks[..i + 1]) == PagesIn(chunks[..i]) + [chunks[i].page];
  }

  lemma FreeOrNot(pager: Pager, p: nat)
    requires pager.Valid() && 0 < p < pager.pageCount
    ensures p in pager.free <==> p !in pager.Disk()
  {
  }

  lemma NoneFreed(disk: map<nat, Bytes>, chunks: seq<Chunk>, home: nat)
    ensures OnePageEach(disk, chunks, 0) && Shrunk(disk, disk, chunks, 0, home) && chunks[..0] == [] && Reversed(PagesIn(chunks[..0])) == []
  {
    assert (set c | c in chunks[..0] :: c.page) == {};
  }

  lemma OneMoreFreed(disk0: map<nat, Bytes>, disk: map<nat, Bytes>, chunks: seq<Chunk>, i: nat, home: nat)
    requires i < |chunks| && OnePageEach(disk0, chunks, i) && Shrunk(disk0, disk, chunks, i, home)
    ensures OnePageEach(disk0, chunks, i + 1) <==> chunks[i].page in disk
    ensures Shrunk(disk0, disk - {chunks[i].page}, chunks, i + 1, home)
    ensures Reversed(PagesIn(chunks[..i + 1])) == [chunks[i].page] + Reversed(PagesIn(chunks[..i]))
  {
    hide OnePageEach;
    assert chunks[..i + 1] == chunks[..i] + [chunks[i]];
    assert (set c | c in chunks[..i + 1] :: c.page) == (set c | c in chunks[..i] :: c.page) + {chunks[i].page};
    assert PagesIn(chunks[..i + 1])[..i] == PagesIn(chunks[..i]);
    OneMoreEach(disk0, chunks, i);
  }

  lemma OneMoreEach(disk: map<nat, Bytes>, chunks: seq<Chunk>, i: nat)
    requires i < |chunks| && OnePageEach(disk, chunks, i)
    ensures OnePageEach(disk, chunks, i + 1) <==> chunks[i].page in disk && chunks[i].page !in (set c | c in chunks[..i] :: c.page)
  {
    var pages := set c | c in chunks[..i] :: c.page;
    forall j | 0 <= j < i ensures chunks[j].page in pages { assert chunks[..i][j] == chunks[j]; }
    if chunks[i].page in pages {
      var c :| c in chunks[..i] && c.page == chunks[i].page;
      var j :| 0 <= j < i && chunks[..i][j] == c;
      assert chunks[j] == c;
    }
  }

  lemma NotOnePageEach(disk0: map<nat, Bytes>, chunks: seq<Chunk>, i: nat)
    requires i < |chunks| && !OnePageEach(disk0, chunks, i)
    ensures !OnePageEach(disk0, chunks, i + 1)
  {
  }

  lemma Associative(a: seq<nat>, b: seq<nat>, c: seq<nat>)
    ensures a + b + c == a + (b + c)
  {
  }

  /** A record that is whole: a delete finds its chunks, each on a page of its own. */
  lemma WholeToFree(pager: Pager, id: RecordId, payload: Bytes, chunks: seq<Chunk>, pieces: seq<Bytes>)
    requires pager.Valid() && WholeRecord(pager.Disk(), id, payload, chunks, pieces)
    ensures ToFree(pager.pages, id) == Got(chunks) && InRange(chunks, pager.pageCount) == |chunks|
    ensures OnePageEach(pager.Disk(), chunks, |chunks|) && chunks[..|chunks|] == chunks
    ensures id.page in pager.Disk() && id.page !in Reversed(PagesIn(chunks)) && id.page !in pager.free
  {
    hide pager.Valid, pager.Sized, pager.Disk, InPieces, SlotIsRaw, SlotOutcome, Lookup, ChunksOf, Descriptor, Reversed, InRange, ToFree, RecordIn, Describes;
    RecordToFree(pager, id, payload, chunks, pieces);
    RecordDescribed(pager.Disk(), id, payload, chunks, pieces);
    HomeOfRecord(pager.Disk(), id, payload, chunks, pieces);
    LivePage(pager, id.page);
    ReversedHas(PagesIn(chunks), id.page);
    forall i | 0 <= i < |chunks| ensures 0 < chunks[i].page < pager.pageCount {
      DiskIsPages(pager, chunks[i].page);
      LivePage(pager, chunks[i].page);
    }
  }

  lemma HomeOfRecord(disk: map<nat, Bytes>, id: RecordId, payload: Bytes, chunks: seq<Chunk>, pieces: seq<Bytes>)
    requires RecordIn(disk, id, payload, chunks, pieces)
    ensures id.page in disk
  {
  }

  lemma RecordToFree(pager: Pager, id: RecordId, payload: Bytes, chunks: seq<Chunk>, pieces: seq<Bytes>)
    requires pager.Valid() && RecordIn(pager.Disk(), id, payload, chunks, pieces)
    ensures ToFree(pager.pages, id) == Got(chunks)
  {
    hide pager.Valid, pager.Sized, pager.Disk, InPieces, SlotIsRaw, SlotOutcome, Lookup, ChunksOf, Descriptor;
    var raw := if chunks == [] then [KIND_INLINE] + payload else Descriptor(|payload|, chunks);
    RawLookup(pager, id.page, id.slot, raw);
    RecordDescribed(pager.Disk(), id, payload, chunks, pieces);
    DescriptorKind(|payload|, chunks);
    if chunks != [] { ChunksReadBack(raw, |payload|, chunks); }
  }

  lemma {:induction false} ReversedHas(s: seq<nat>, p: nat)
    ensures p in Reversed(s) <==> p in s
  {
    if s != [] { ReversedHas(s[..|s| - 1], p); }
  }
}
