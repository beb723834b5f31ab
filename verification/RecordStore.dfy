/** All the records of a file: no two share a page, so putting or deleting one leaves the others as they were. */
module RecordStore {
  import opened Wrappers
  import opened Keys
  import opened PageBytes
  import opened SlottedLayout
  import S = SlottedPage
  import opened SlottedCheck
  import opened Pager
  import opened Records

  datatype Stored = Stored(payload: Bytes, chunks: seq<Chunk>, pieces: seq<Bytes>)

  /** The records in a file, and the ids of those that were deleted. */
  datatype Book = Book(records: map<RecordId, Stored>, graves: set<RecordId>)

  ghost predicate InFile(disk: map<nat, Bytes>, id: RecordId, s: Stored) {
    WholeRecord(disk, id, s.payload, s.chunks, s.pieces)
  }

  /** The home page of a deleted record stays in the file, with a tombstone. */
  ghost predicate IsGrave(disk: map<nat, Bytes>, id: RecordId) {
    id.page in disk && SlotOutcome(disk[id.page], id.slot) == S.Err(S.SlotDeleted)
  }

  ghost predicate Owns(book: Book, id: RecordId, page: nat) {
    (id in book.records && page in PagesOf(id, book.records[id].chunks)) || (id in book.graves && page == id.page)
  }

  /** Every record is on pages of its own, and no live page of the file is anybody's. */
  ghost predicate Tidy(disk: map<nat, Bytes>, book: Book) {
    && (forall id {:trigger InFile(disk, id, book.records[id])} :: id in book.records ==> InFile(disk, id, book.records[id]))
    && (forall id {:trigger IsGrave(disk, id)} :: id in book.graves ==> IsGrave(disk, id) && id !in book.records)
    && OnePageOneOwner(disk, book)
  }

  ghost predicate OnePageOneOwner(disk: map<nat, Bytes>, book: Book) {
    && (forall id, p {:trigger Owns(book, id, p)} :: Owns(book, id, p) ==> p in disk)
    && (forall a, b, p {:trigger Owns(book, a, p), Owns(book, b, p)} :: Owns(book, a, p) && Owns(book, b, p) ==> a == b)
    && (forall p {:trigger p in disk} :: p in disk ==> exists id :: Owns(book, id, p))
  }

  lemma EmptyIsTidy()
    ensures Tidy(map[], Book(map[], {}))
  {
  }

  lemma OwnerInFile(disk: map<nat, Bytes>, book: Book, id: RecordId, page: nat)
    requires Tidy(disk, book) && Owns(book, id, page)
    ensures page in disk
  {
    hide InFile, IsGrave;
    assert OnePageOneOwner(disk, book);
  }

  lemma NotBoth(disk: map<nat, Bytes>, book: Book, id: RecordId)
    requires Tidy(disk, book) && id in book.graves
    ensures id !in book.records
  {
    assert IsGrave(disk, id);
  }

  lemma OneOwner(disk: map<nat, Bytes>, book: Book, a: RecordId, b: RecordId, page: nat)
    requires Tidy(disk, book) && Owns(book, a, page) && Owns(book, b, page)
    ensures a == b
  {
    hide InFile, IsGrave;
    assert OnePageOneOwner(disk, book);
  }

  lemma OwnerOf(disk: map<nat, Bytes>, book: Book, page: nat) returns (id: RecordId)
    requires Tidy(disk, book) && page in disk
    ensures Owns(book, id, page)
  {
    id :| Owns(book, id, page);
  }

  /** The pages that others than id have are unchanged. */
  ghost predicate SameForOthers(disk: map<nat, Bytes>, disk': map<nat, Bytes>, book: Book, id: RecordId) {
    forall a, p {:trigger Owns(book, a, p)} :: Owns(book, a, p) && a != id ==> p in disk && p in disk' && disk'[p] == disk[p]
  }

  /** The other records stay where they are. */
  lemma RecordStays(disk: map<nat, Bytes>, disk': map<nat, Bytes>, book: Book, id: RecordId, a: RecordId)
    requires Tidy(disk, book) && SameForOthers(disk, disk', book, id) && a in book.records && a != id
    ensures InFile(disk', a, book.records[a])
  {
    hide RecordIn;
    assert InFile(disk, a, book.records[a]);
    forall p | p in PagesOf(a, book.records[a].chunks) ensures p in disk && p in disk' && disk'[p] == disk[p] {
      assert Owns(book, a, p);
    }
    RecordKept(disk, disk', a, book.records[a].payload, book.records[a].chunks, book.records[a].pieces);
  }

  lemma GraveStays(disk: map<nat, Bytes>, disk': map<nat, Bytes>, book: Book, id: RecordId, a: RecordId)
    requires Tidy(disk, book) && SameForOthers(disk, disk', book, id) && a in book.graves && a != id
    ensures IsGrave(disk', a)
  {
    assert IsGrave(disk, a) && Owns(book, a, a.page);
  }

  lemma ChunksApart(disk: map<nat, Bytes>, disk': map<nat, Bytes>, id: RecordId, chunks: seq<Chunk>)
    requires GrownBy(disk, disk', PagesIn(chunks) + [id.page])
    ensures forall i, j :: 0 <= i < j < |chunks| ==> chunks[i].page != chunks[j].page
    ensures forall i :: 0 <= i < |chunks| ==> chunks[i].page != id.page
    ensures forall p {:trigger p in PagesOf(id, chunks)} :: p in PagesOf(id, chunks) <==> p in disk' && p !in disk
  {
    var pages := PagesIn(chunks) + [id.page];
    assert forall i :: 0 <= i < |chunks| ==> pages[i] == chunks[i].page;
    assert pages[|chunks|] == id.page;
    forall p ensures p in PagesOf(id, chunks) <==> p in pages {
      if p in pages {
        var i :| 0 <= i < |pages| && pages[i] == p;
        if i < |chunks| { assert chunks[i] in chunks; }
      }
      if p in (set c | c in chunks :: c.page) {
        var c :| c in chunks && c.page == p;
        var i :| 0 <= i < |chunks| && chunks[i] == c;
        assert pages[i] == p;
      }
    }
  }

  /** A record on new pages. */
  lemma PutKeeps(disk: map<nat, Bytes>, disk': map<nat, Bytes>, book: Book, id: RecordId, s: Stored)
    requires Tidy(disk, book) && RecordIn(disk', id, s.payload, s.chunks, s.pieces)
    requires GrownBy(disk, disk', PagesIn(s.chunks) + [id.page])
    ensures id !in book.records && id !in book.graves
    ensures Tidy(disk', Book(book.records[id := s], book.graves))
  {
    hide RecordIn, InFile, IsGrave, PagesOf, Tidy;
    var book' := Book(book.records[id := s], book.graves);
    NewRecord(disk, disk', id, s);
    if id in book.records || id in book.graves {
      HomeIsOwned(book, id);
      OwnerInFile(disk, book, id, id.page);
    }
    GrownKeeps(disk, disk', PagesIn(s.chunks) + [id.page]);
    hide GrownBy, Owns;
    forall a, p | Owns(book, a, p) ensures p in disk && p in disk' && disk'[p] == disk[p] { OwnerInFile(disk, book, a, p); }
    forall a | a in book'.records ensures InFile(disk', a, book'.records[a]) {
      if a != id { RecordStays(disk, disk', book, id, a); }
    }
    forall a | a in book'.graves ensures IsGrave(disk', a) && a !in book'.records {
      GraveStays(disk, disk', book, id, a);
      NotBoth(disk, book, a);
    }
    NewOwner(disk, disk', book, book', id, s);
    TidyFrom(disk', book');
  }

  lemma NewRecord(disk: map<nat, Bytes>, disk': map<nat, Bytes>, id: RecordId, s: Stored)
    requires RecordIn(disk', id, s.payload, s.chunks, s.pieces) && GrownBy(disk, disk', PagesIn(s.chunks) + [id.page])
    ensures InFile(disk', id, s) && id.page !in disk
    ensures forall p {:trigger p in PagesOf(id, s.chunks)} :: p in PagesOf(id, s.chunks) <==> p in disk' && p !in disk
  {
    hide RecordIn;
    ChunksApart(disk, disk', id, s.chunks);
    assert id.page in PagesOf(id, s.chunks);
  }

  lemma HomeIsOwned(book: Book, id: RecordId)
    requires id in book.records || id in book.graves
    ensures Owns(book, id, id.page)
  {
  }

  lemma GrownKeeps(disk: map<nat, Bytes>, disk': map<nat, Bytes>, pages: seq<nat>)
    requires GrownBy(disk, disk', pages)
    ensures forall p {:trigger p in disk'} :: p in disk ==> p in disk' && disk'[p] == disk[p]
  {
  }

  lemma NewOwner(disk: map<nat, Bytes>, disk': map<nat, Bytes>, book: Book, book': Book, id: RecordId, s: Stored)
    requires Tidy(disk, book) && id !in book.records && id !in book.graves && book' == Book(book.records[id := s], book.graves)
    requires forall p {:trigger p in PagesOf(id, s.chunks)} :: p in PagesOf(id, s.chunks) <==> p in disk' && p !in disk
    requires forall p {:trigger p in disk'} :: p in disk ==> p in disk'
    ensures OnePageOneOwner(disk', book')
  {
    hide InFile, IsGrave, PagesOf;
    forall a, b, p | Owns(book', a, p) && Owns(book', b, p) ensures a == b && p in disk' {
      if a != id { assert Owns(book, a, p); OwnerInFile(disk, book, a, p); }
      if b != id { assert Owns(book, b, p); OwnerInFile(disk, book, b, p); }
      if a != id && b != id { OneOwner(disk, book, a, b, p); }
    }
    forall p | p in disk' ensures exists a :: Owns(book', a, p) {
      if p in disk {
        var a := OwnerOf(disk, book, p);
        assert Owns(book', a, p);
      } else {
        assert p in PagesOf(id, s.chunks);
        assert Owns(book', id, p);
      }
    }
  }

  lemma TidyFrom(disk: map<nat, Bytes>, book: Book)
    requires forall id {:trigger InFile(disk, id, book.records[id])} :: id in book.records ==> InFile(disk, id, book.records[id])
    requires forall id {:trigger IsGrave(disk, id)} :: id in book.graves ==> IsGrave(disk, id) && id !in book.records
    requires OnePageOneOwner(disk, book)
    ensures Tidy(disk, book)
  {
    hide OnePageOneOwner, RecordIn, SlotOutcome, WholeRecord;
    forall id | id in book.records ensures InFile(disk, id, book.records[id]) { }
    forall id | id in book.graves ensures IsGrave(disk, id) && id !in book.records { }
  }

  /** A deleted record leaves its home page only. */
  lemma DeleteKeeps(disk: map<nat, Bytes>, disk': map<nat, Bytes>, book: Book, id: RecordId)
    requires Tidy(disk, book) && id in book.records
    requires disk'.Keys == disk.Keys - (set c | c in book.records[id].chunks :: c.page)
    requires forall p {:trigger disk'[p]} :: p in disk' && p != id.page ==> disk'[p] == disk[p]
    requires id.page in disk && id.page in disk' && |disk'[id.page]| == |disk[id.page]| && SlotGone(disk[id.page], disk'[id.page], id.slot)
    ensures Tidy(disk', Book(book.records - {id}, book.graves + {id}))
  {
    hide SlotGone, RecordIn, Descriptor, Tidy, InFile, IsGrave;
    var book' := Book(book.records - {id}, book.graves + {id});
    NewGrave(disk, disk', book, id);
    HomeIsOwned(book, id);
    forall a, p | Owns(book, a, p) && a != id ensures p in disk && p in disk' && disk'[p] == disk[p] {
      OwnerInFile(disk, book, a, p);
      if Owns(book, id, p) { OneOwner(disk, book, a, id, p); }
    }
    hide Owns;
    forall a | a in book'.records ensures InFile(disk', a, book'.records[a]) { RecordStays(disk, disk', book, id, a); }
    forall a | a in book'.graves ensures IsGrave(disk', a) && a !in book'.records {
      if a != id {
        GraveStays(disk, disk', book, id, a);
        NotBoth(disk, book, a);
      }
    }
    FewerPages(disk, disk', book, book', id);
    TidyFrom(disk', book');
  }

  lemma NewGrave(disk: map<nat, Bytes>, disk': map<nat, Bytes>, book: Book, id: RecordId)
    requires Tidy(disk, book) && id in book.records && id.page in disk && id.page in disk'
    requires |disk'[id.page]| == |disk[id.page]| && SlotGone(disk[id.page], disk'[id.page], id.slot)
    ensures IsGrave(disk', id)
  {
    assert InFile(disk, id, book.records[id]);
    SlotIsGone(disk[id.page], disk'[id.page], id.slot);
  }

  lemma FewerPages(disk: map<nat, Bytes>, disk': map<nat, Bytes>, book: Book, book': Book, id: RecordId)
    requires Tidy(disk, book) && id in book.records && book' == Book(book.records - {id}, book.graves + {id})
    requires disk'.Keys == disk.Keys - (set c | c in book.records[id].chunks :: c.page) && id.page in disk'
    ensures OnePageOneOwner(disk', book')
  {
    hide InFile, IsGrave;
    var s := book.records[id];
    forall a, b, p | Owns(book', a, p) && Owns(book', b, p) ensures a == b && p in disk' {
      assert Owns(book, a, p) && Owns(book, b, p);
      OneOwner(disk, book, a, b, p);
      OwnerInFile(disk, book, a, p);
      if p in (set c | c in s.chunks :: c.page) {
        assert Owns(book, id, p);
        OneOwner(disk, book, a, id, p);
      }
    }
    forall p | p in disk' ensures exists a :: Owns(book', a, p) {
      var a := OwnerOf(disk, book, p);
      if a == id { assert p == id.page; }
      assert Owns(book', a, p);
    }
  }

  lemma SlotIsGone(page: Bytes, page': Bytes, slot: nat)
    requires S.PageSize(|page|) && |page'| == |page| && SlotGone(page, page', slot)
    ensures SlotOutcome(page', slot) == S.Err(S.SlotDeleted)
  {
    assert |SlotsOf(page')| == U16At(page', 0) && |SlotsOf(page)| == U16At(page, 0);
  }

  // ── Operations on a tidy file ──

  /** The stored payloads. */
  ghost function Payloads(book: Book): map<RecordId, Bytes> {
    map id | id in book.records :: book.records[id].payload
  }

  /** `put_record`: one record more, under an id that was never used. */
  method Put(pager: Pager, payload: Bytes, ghost book: Book) returns (r: RecordResult<RecordId>, ghost book': Book)
    requires pager.Valid() && Tidy(pager.Disk(), book)
    modifies pager
    ensures pager.Valid() && Tidy(pager.Disk(), book') && book'.graves == book.graves
    ensures r.Failed? ==> book' == book
    ensures r.Got? ==> r.value !in book.records && r.value !in book.graves && Payloads(book') == Payloads(book)[r.value := payload]
    ensures pager.pageSize > 14
    ensures r.Got? <==> 0 < |payload| <= MAX_RECORD_BYTES && old(Spare(pager)) >= PagesNeeded(|payload|, pager.pageSize)
    ensures r.Got? ==> Spare(pager) == old(Spare(pager)) - PagesNeeded(|payload|, pager.pageSize)
    ensures |payload| == 0 || |payload| > MAX_RECORD_BYTES ==> unchanged(pager)
  {
    hide pager.Valid, Tidy, RecordIn, GrownBy;
    ghost var disk := pager.Disk();
    ghost var chunks, pieces;
    r, chunks, pieces := PutRecord(pager, payload);
    book' := book;
    if r.Got? {
      ghost var s := Stored(payload, chunks, pieces);
      PutKeeps(disk, pager.Disk(), book, r.value, s);
      book' := Book(book.records[r.value := s], book.graves);
    }
  }

  /** Ids that name a record, and those for which `delete_record` has only a refusal. */
  ghost predicate Known(pager: Pager, book: Book, id: RecordId)
    reads pager
  {
    id in book.records || ToFree(pager.pages, id).Failed?
  }

  lemma GraveLookup(pager: Pager, book: Book, id: RecordId)
    requires pager.Valid() && Tidy(pager.Disk(), book) && id in book.graves
    ensures Lookup(pager.pages, id.page, id.slot) == Failed(SlotFailed(S.SlotDeleted))
  {
    assert IsGrave(pager.Disk(), id);
    LiveLookup(pager, id.page, id.slot);
  }

  lemma StoredRecord(disk: map<nat, Bytes>, book: Book, id: RecordId)
    requires Tidy(disk, book) && id in book.records
    ensures InFile(disk, id, book.records[id])
  {
  }

  /** `get_record`: the payload that was put; a deleted record is told from one that never was. */
  method Fetch(pager: Pager, id: RecordId, ghost book: Book) returns (r: RecordResult<Bytes>)
    requires pager.Valid() && Tidy(pager.Disk(), book)
    ensures id in book.records ==> r == Got(book.records[id].payload)
    ensures id in book.graves ==> r == Failed(SlotFailed(S.SlotDeleted))
    ensures r == RecordOutcome(pager.pages, id)
  {
    hide pager.Valid, Tidy, RecordIn, Lookup, RecordOutcome;
    if id in book.records { StoredIsRead(pager, book, id); }
    if id in book.graves { GraveIsRead(pager, book, id); }
    r := GetRecord(pager, id);
  }

  lemma StoredIsRead(pager: Pager, book: Book, id: RecordId)
    requires pager.Valid() && Tidy(pager.Disk(), book) && id in book.records
    ensures RecordOutcome(pager.pages, id) == Got(book.records[id].payload)
  {
    hide pager.Valid, pager.Disk, Tidy, RecordIn, RecordOutcome;
    StoredRecord(pager.Disk(), book, id);
    var s := book.records[id];
    RecordReadBack(pager, id, s.payload, s.chunks, s.pieces);
  }

  lemma GraveIsRead(pager: Pager, book: Book, id: RecordId)
    requires pager.Valid() && Tidy(pager.Disk(), book) && id in book.graves
    ensures RecordOutcome(pager.pages, id) == Failed(SlotFailed(S.SlotDeleted)) && ToFree(pager.pages, id) == Failed(SlotFailed(S.SlotDeleted))
  {
    hide pager.Valid, Tidy, Lookup;
    GraveLookup(pager, book, id);
  }

  /** The id names a piece of a record, rather than the record. */
  ghost predicate PieceOf(book: Book, a: RecordId, j: nat, id: RecordId) {
    a in book.records && j < |book.records[a].chunks| && book.records[a].chunks[j] == Chunk(id.page, id.slot)
  }

  /** One record cannot be read any more, and all else is as it was. */
  ghost predicate OneBroken(pages: seq<Bytes>, book: Book, a: RecordId) {
    && RecordOutcome(pages, a) == Failed(SlotFailed(S.SlotDeleted))
    && (forall b {:trigger book.records[b]} :: b in book.records && b != a ==> RecordOutcome(pages, b) == Got(book.records[b].payload))
    && (forall b {:trigger b in book.graves} :: b in book.graves ==> RecordOutcome(pages, b) == Failed(SlotFailed(S.SlotDeleted)))
  }

  /** `delete_record`: that record is gone, and no other. An id that names a piece is not refused: unless the piece
      happens to read as a descriptor, the record it belongs to is broken. */
  method Remove(pager: Pager, id: RecordId, ghost book: Book) returns (r: RecordResult<()>, ghost book': Book)
    requires pager.Valid() && Tidy(pager.Disk(), book)
    modifies pager
    ensures old(Known(pager, book, id)) ==> pager.Valid() && Tidy(pager.Disk(), book') && Spare(pager) >= old(Spare(pager))
    ensures id in book.records ==> r == Got(()) && Payloads(book') == Payloads(book) - {id} && book'.graves == book.graves + {id}
    ensures id in book.graves ==> r == Failed(SlotFailed(S.SlotDeleted))
    ensures id !in book.records ==> book' == book
    ensures old(ToFree(pager.pages, id)).Failed? ==> r == Failed(old(ToFree(pager.pages, id)).error) && unchanged(pager)
    ensures forall a, j {:trigger PieceOf(book, a, j, id)} :: PieceOf(book, a, j, id) && old(ToFree(pager.pages, id)) == Got([]) ==>
              r == Got(()) && pager.Valid() && OneBroken(pager.pages, book, a)
  {
    hide pager.Valid, Tidy, RecordIn, Lookup, ToFree, OnePageEach, Shrunk, StillLinked, SameElsewhere, NoList, SlotGone, InRange, PieceOf, OneBroken;
    ghost var disk, was := pager.Disk(), ToFree(pager.pages, id);
    ghost var s := if id in book.records then book.records[id] else Stored([], [], []);
    book' := book;
    if id in book.records { StoredFound(pager, book, id); }
    if id in book.graves { GraveIsRead(pager, book, id); }
    ghost var freed, free := [], pager.free;
    if was.Got? { HomeBefore(pager, id); }
    ghost var home := if id.page < |pager.pages| then pager.pages[id.page] else [];
    r, freed := DeleteRecord(pager, id);
    if id in book.records {
      RecordGone(pager, disk, free, book, id, home);
      book' := Book(book.records - {id}, book.graves + {id});
    }
    forall a, j | PieceOf(book, a, j, id) && was == Got([])
      ensures r == Got(()) && pager.Valid() && OneBroken(pager.pages, book, a)
    {
      NotAlsoARecord(disk, book, a, j, id);
      NothingListed(disk, pager.pageCount);
      PieceGone(pager, disk, free, book, a, j, id, home);
    }
  }

  lemma HomeBefore(pager: Pager, id: RecordId)
    requires pager.Valid() && ToFree(pager.pages, id).Got?
    ensures id.page < |pager.pages|
    ensures id.page in pager.Disk() ==> id.page !in pager.free && pager.Disk()[id.page] == pager.pages[id.page]
    ensures |pager.pages[id.page]| == pager.pageSize
  {
  }

  lemma NothingListed(disk: map<nat, Bytes>, pageCount: nat)
    ensures InRange([], pageCount) == 0 && OnePageEach(disk, [], 0) && Reversed(PagesIn([][..0])) == []
  {
  }

  lemma StoredFound(pager: Pager, book: Book, id: RecordId)
    requires pager.Valid() && Tidy(pager.Disk(), book) && id in book.records
    ensures id !in book.graves && id.page in pager.Disk() && id.page !in pager.free
    ensures var chunks := book.records[id].chunks;
            && ToFree(pager.pages, id) == Got(chunks) && InRange(chunks, pager.pageCount) == |chunks|
            && OnePageEach(pager.Disk(), chunks, |chunks|) && chunks[..|chunks|] == chunks && id.page !in Reversed(PagesIn(chunks))
  {
    hide pager.Valid, pager.Disk, Tidy, RecordIn, ToFree, OnePageEach, InRange, Reversed;
    StoredRecord(pager.Disk(), book, id);
    var s := book.records[id];
    WholeToFree(pager, id, s.payload, s.chunks, s.pieces);
    NotBothHere(pager.Disk(), book, id);
  }

  /** A page that was neither freed nor free is still live, and the pager is as it should be. */
  lemma StillLive(pager: Pager, page: nat)
    requires page !in pager.free && (pager.Valid() <==> StillLinked(pager.pages, pager.free, page)) && 0 < page < |pager.pages|
    ensures pager.Valid() && page in pager.Disk() && pager.Disk()[page] == pager.pages[page]
  {
  }

  lemma RecordGone(pager: Pager, disk: map<nat, Bytes>, free: seq<nat>, book: Book, id: RecordId, home: Bytes)
    requires Tidy(disk, book) && id in book.records && id.page in disk && disk[id.page] == home
    requires var chunks := book.records[id].chunks;
             && pager.free == Reversed(PagesIn(chunks)) + free && id.page !in Reversed(PagesIn(chunks)) && id.page !in free
             && Shrunk(disk, pager.Disk(), chunks, |chunks|, id.page)
    requires 0 < id.page < |pager.pages| && |pager.pages[id.page]| == |home| && SlotGone(home, pager.pages[id.page], id.slot)
    requires pager.Valid() <==> StillLinked(pager.pages, pager.free, id.page)
    ensures pager.Valid() && Tidy(pager.Disk(), Book(book.records - {id}, book.graves + {id}))
  {
    hide pager.Valid, pager.Disk, Tidy, StillLinked, SlotGone;
    StillLive(pager, id.page);
    var chunks := book.records[id].chunks;
    assert chunks[..|chunks|] == chunks;
    DeleteKeeps(disk, pager.Disk(), book, id);
  }

  lemma NotAlsoARecord(disk: map<nat, Bytes>, book: Book, a: RecordId, j: nat, id: RecordId)
    requires Tidy(disk, book) && PieceOf(book, a, j, id)
    ensures id !in book.records && id !in book.graves && id.page in disk && id.page != a.page && Owns(book, a, id.page)
  {
    hide RecordIn;
    assert InFile(disk, a, book.records[a]) && book.records[a].chunks[j] in book.records[a].chunks;
    OwnerInFile(disk, book, a, id.page);
    if id in book.records || id in book.graves {
      HomeIsOwned(book, id);
      OneOwner(disk, book, a, id, id.page);
    }
  }

  /** The record of the piece is broken, and no other. */
  lemma PieceGone(pager: Pager, disk: map<nat, Bytes>, free: seq<nat>, book: Book, a: RecordId, j: nat, id: RecordId, home: Bytes)
    requires Tidy(disk, book) && PieceOf(book, a, j, id) && id.page in disk && disk[id.page] == home && Owns(book, a, id.page)
    requires pager.free == free && id.page !in free && Shrunk(disk, pager.Disk(), [], 0, id.page)
    requires 0 < id.page < |pager.pages| && |pager.pages[id.page]| == |home| && SlotGone(home, pager.pages[id.page], id.slot)
    requires pager.Valid() <==> StillLinked(pager.pages, pager.free, id.page)
    ensures pager.Valid() && OneBroken(pager.pages, book, a)
  {
    hide pager.Valid, pager.Disk, Tidy, StillLinked, SlotGone, RecordOutcome, Owns, InFile, IsGrave;
    StillLive(pager, id.page);
    forall b, p | Owns(book, b, p) && b != a ensures p in disk && p in pager.Disk() && pager.Disk()[p] == disk[p] {
      OwnerInFile(disk, book, b, p);
      if p == id.page { OneOwner(disk, book, a, b, p); }
    }
    forall b | b in book.records && b != a ensures RecordOutcome(pager.pages, b) == Got(book.records[b].payload) {
      RecordStays(disk, pager.Disk(), book, a, b);
      InFileIsRead(pager, b, book.records[b]);
    }
    forall b | b in book.graves ensures RecordOutcome(pager.pages, b) == Failed(SlotFailed(S.SlotDeleted)) {
      NotBoth(disk, book, b);
      GraveStays(disk, pager.Disk(), book, a, b);
      TombstoneIsRead(pager, b);
    }
    BrokenRecord(pager, disk, book, a, j, id);
  }

  lemma InFileIsRead(pager: Pager, id: RecordId, s: Stored)
    requires pager.Valid() && InFile(pager.Disk(), id, s)
    ensures RecordOutcome(pager.pages, id) == Got(s.payload)
  {
    hide pager.Valid, pager.Disk, RecordIn, RecordOutcome;
    RecordReadBack(pager, id, s.payload, s.chunks, s.pieces);
  }

  lemma TombstoneIsRead(pager: Pager, id: RecordId)
    requires pager.Valid() && IsGrave(pager.Disk(), id)
    ensures RecordOutcome(pager.pages, id) == Failed(SlotFailed(S.SlotDeleted))
  {
    hide pager.Valid, pager.Disk, Lookup;
    LiveLookup(pager, id.page, id.slot);
  }

  lemma BrokenRecord(pager: Pager, disk: map<nat, Bytes>, book: Book, a: RecordId, j: nat, id: RecordId)
    requires pager.Valid() && Tidy(disk, book) && PieceOf(book, a, j, id) && id.page in disk && id.page in pager.Disk()
    requires Shrunk(disk, pager.Disk(), [], 0, id.page) && |pager.Disk()[id.page]| == |disk[id.page]|
    requires SlotGone(disk[id.page], pager.Disk()[id.page], id.slot)
    ensures RecordOutcome(pager.pages, a) == Failed(SlotFailed(S.SlotDeleted))
  {
    hide pager.Valid, pager.Disk, Tidy, SlotGone, SlotIsRaw, RecordOutcome, SlotOutcome, Lookup, Descriptor;
    StoredRecord(disk, book, a);
    var s := book.records[a];
    RecordDescribed(disk, a, s.payload, s.chunks, s.pieces);
    RawLookup(pager, a.page, a.slot, Descriptor(|s.payload|, s.chunks));
    forall i | 0 <= i < j ensures Lookup(pager.pages, s.chunks[i].page, s.chunks[i].slot).Got? {
      RawLookup(pager, s.chunks[i].page, s.chunks[i].slot, s.pieces[i]);
    }
    PieceSize(disk, a, s, j);
    SlotIsGone(disk[id.page], pager.Disk()[id.page], id.slot);
    LiveLookup(pager, id.page, id.slot);
    PieceDecides(pager.pages, a, |s.payload|, s.chunks, j);
  }

  lemma PieceSize(disk: map<nat, Bytes>, a: RecordId, s: Stored, j: nat)
    requires InFile(disk, a, s) && j < |s.chunks|
    ensures s.chunks[j].page in disk && S.PageSize(|disk[s.chunks[j].page]|)
  {
    assert SlotIsRaw(disk[s.chunks[j].page], s.chunks[j].slot, s.pieces[j]);
  }

  lemma NotBothHere(disk: map<nat, Bytes>, book: Book, id: RecordId)
    requires Tidy(disk, book) && id in book.records
    ensures id !in book.graves
  {
    if id in book.graves { NotBoth(disk, book, id); }
  }

  // ── Runs ──

  /** Put a payload, or delete the record that an earlier operation put. */
  datatype RecordOp = PutOne(payload: Bytes) | DeleteOne(put: nat)

  /** Operation k put a record that none of the operations before n deleted. */
  ghost predicate Alive(ops: seq<RecordOp>, k: nat, n: nat)
    requires n <= |ops|
  {
    forall j {:trigger ops[j]} :: k < j < n ==> ops[j] != DeleteOne(k)
  }

  /** What the run has done so far: the record of each put is there, or its tombstone. */
  ghost predicate Done(ops: seq<RecordOp>, ids: seq<Option<RecordId>>, book: Book) {
    && |ids| <= |ops|
    && (forall k {:trigger ids[k]} :: 0 <= k < |ids| && ids[k].Some? ==> ops[k].PutOne? && Found(book, ids[k].value, ops[k].payload, Alive(ops, k, |ids|)))
    && (forall j, k {:trigger ids[j], ids[k]} :: 0 <= j < k < |ids| && ids[j].Some? ==> ids[j] != ids[k])
  }

  ghost predicate Found(book: Book, id: RecordId, payload: Bytes, alive: bool) {
    if alive then id in book.records && book.records[id].payload == payload else id in book.graves
  }

  /** A legal payload is stored. */
  ghost predicate AllStored(ops: seq<RecordOp>, ids: seq<Option<RecordId>>)
    requires |ids| <= |ops|
  {
    forall k {:trigger ids[k]} :: 0 <= k < |ids| && ops[k].PutOne? && 0 < |ops[k].payload| <= MAX_RECORD_BYTES ==> ids[k].Some?
  }

  lemma NothingStored(ops: seq<RecordOp>)
    ensures AllStored(ops, [])
  {
  }

  lemma OneMoreStored(ops: seq<RecordOp>, ids: seq<Option<RecordId>>, id: Option<RecordId>)
    requires |ids| < |ops| && AllStored(ops, ids)
    requires ops[|ids|].PutOne? && 0 < |ops[|ids|].payload| <= MAX_RECORD_BYTES ==> id.Some?
    ensures AllStored(ops, ids + [id])
  {
  }

  lemma FewPages(n: nat, pageSize: nat)
    requires (pageSize == PAGE_4K || pageSize == PAGE_8K) && 0 < n <= MAX_RECORD_BYTES
    ensures PagesNeeded(n, pageSize) <= 18
  {
  }

  /** Any run of puts and deletes in a new file: at the end every record that was put and not deleted has its payload,
      and every deleted one has its tombstone. */
  method RunRecords(pageSize: nat, ops: seq<RecordOp>) returns (pager: Pager, ids: seq<Option<RecordId>>, ghost book: Book)
    requires pageSize == PAGE_4K || pageSize == PAGE_8K
    ensures fresh(pager) && pager.Valid() && Tidy(pager.Disk(), book) && |ids| == |ops| && Done(ops, ids, book)
    ensures 18 * |ops| < MAX_U64 ==> AllStored(ops, ids)
  {
    hide Tidy, Done, AllStored;
    pager := new Pager.Create(pageSize);
    hide pager.Valid, pager.Disk;
    ids, book := [], Book(map[], {});
    EmptyIsTidy();
    NothingDone(ops, book);
    NothingStored(ops);
    while |ids| < |ops|
      invariant fresh(pager) && pager.Valid() && Tidy(pager.Disk(), book) && |ids| <= |ops| && Done(ops, ids, book)
      invariant pager.pageSize == pageSize && (18 * |ops| < MAX_U64 ==> AllStored(ops, ids) && Spare(pager) >= MAX_U64 - 1 - 18 * |ids|)
    {
      var id;
      id, book := RunRecord(pager, ops, ids, book);
      if 18 * |ops| < MAX_U64 { OneMoreStored(ops, ids, id); }
      ids := ids + [id];
    }
  }

  /** The next operation of a run. */
  method RunRecord(pager: Pager, ops: seq<RecordOp>, ids: seq<Option<RecordId>>, ghost book: Book)
    returns (id: Option<RecordId>, ghost book': Book)
    requires pager.Valid() && Tidy(pager.Disk(), book) && Done(ops, ids, book) && |ids| < |ops|
    requires pager.pageSize == PAGE_4K || pager.pageSize == PAGE_8K
    modifies pager
    ensures pager.Valid() && Tidy(pager.Disk(), book') && Done(ops, ids + [id], book')
    ensures old(Spare(pager)) >= 18 ==> Spare(pager) >= old(Spare(pager)) - 18
    ensures var op := ops[|ids|];
            op.PutOne? && 0 < |op.payload| <= MAX_RECORD_BYTES && old(Spare(pager)) >= 18 ==> id.Some?
  {
    hide Tidy, Done, PagesNeeded, pager.Valid;
    id, book' := None, book;
    match ops[|ids|] {
      case PutOne(payload) =>
        var r;
        if 0 < |payload| <= MAX_RECORD_BYTES { FewPages(|payload|, pager.pageSize); }
        r, book' := Put(pager, payload, book);
        if r.Got? { id := Some(r.value); }
        DonePut(ops, ids, book, id, book');
      case DeleteOne(put) =>
        if put < |ids| && ids[put].Some? {
          KnownId(pager, ops, ids, book, put);
          var r;
          r, book' := Remove(pager, ids[put].value, book);
        }
        DoneDelete(ops, ids, book, book');
    }
  }

  lemma NothingDone(ops: seq<RecordOp>, book: Book)
    ensures Done(ops, [], book)
  {
  }

  lemma KnownId(pager: Pager, ops: seq<RecordOp>, ids: seq<Option<RecordId>>, book: Book, k: nat)
    requires pager.Valid() && Tidy(pager.Disk(), book) && Done(ops, ids, book) && k < |ids| && ids[k].Some?
    ensures Known(pager, book, ids[k].value) && (ids[k].value in book.records || ids[k].value in book.graves)
  {
    hide Tidy, Lookup, Alive;
    if ids[k].value in book.graves { GraveLookup(pager, book, ids[k].value); }
  }

  lemma DonePut(ops: seq<RecordOp>, ids: seq<Option<RecordId>>, book: Book, got: Option<RecordId>, book': Book)
    requires Done(ops, ids, book) && |ids| < |ops| && ops[|ids|].PutOne? && book'.graves == book.graves
    requires got.None? ==> book' == book
    requires got.Some? ==> got.value !in book.records && got.value !in book.graves
                           && Payloads(book') == Payloads(book)[got.value := ops[|ids|].payload]
    ensures Done(ops, ids + [got], book')
  {
    var n := |ids|;
    var ids' := ids + [got];
    forall k | 0 <= k < n + 1 && ids'[k].Some?
      ensures ops[k].PutOne? && Found(book', ids'[k].value, ops[k].payload, Alive(ops, k, n + 1))
    {
      if k < n {
        assert ids'[k] == ids[k];
        assert Alive(ops, k, n + 1) <==> Alive(ops, k, n);
        if got.Some? && Alive(ops, k, n) { PayloadKept(book, book', ids[k].value, got.value, ops[n].payload); }
      } else {
        assert got.value in Payloads(book');
      }
    }
    forall j, k | 0 <= j < k < n + 1 && ids'[j].Some? ensures ids'[j] != ids'[k] {
      assert ids'[j] == ids[j];
      if k < n { assert ids'[k] == ids[k]; }
    }
  }

  lemma PayloadKept(book: Book, book': Book, id: RecordId, other: RecordId, payload: Bytes)
    requires Payloads(book') == Payloads(book)[other := payload] && id in book.records && id != other
    ensures id in book'.records && book'.records[id].payload == book.records[id].payload
  {
    assert id in Payloads(book');
  }

  /** A delete of an earlier put, or of nothing. */
  lemma DoneDelete(ops: seq<RecordOp>, ids: seq<Option<RecordId>>, book: Book, book': Book)
    requires Done(ops, ids, book) && |ids| < |ops| && ops[|ids|].DeleteOne?
    requires var put := ops[|ids|].put;
             if put < |ids| && ids[put].Some? && ids[put].value in book.records
             then Payloads(book') == Payloads(book) - {ids[put].value} && book'.graves == book.graves + {ids[put].value}
             else book' == book
    ensures Done(ops, ids + [None], book')
  {
    var n, put := |ids|, ops[|ids|].put;
    var ids' := ids + [None];
    forall k | 0 <= k < n + 1 && ids'[k].Some?
      ensures ops[k].PutOne? && Found(book', ids'[k].value, ops[k].payload, Alive(ops, k, n + 1))
    {
      assert ids'[k] == ids[k];
      assert Alive(ops, k, n + 1) <==> Alive(ops, k, n) && k != put;
      if book' != book && k != put {
        assert ids[k] != ids[put];
        if Alive(ops, k, n) { PayloadLeft(book, book', ids[k].value, ids[put].value); }
      }
    }
    forall j, k | 0 <= j < k < n + 1 && ids'[j].Some? ensures ids'[j] != ids'[k] {
      assert ids'[j] == ids[j];
      if k < n { assert ids'[k] == ids[k]; }
    }
  }

  lemma PayloadLeft(book: Book, book': Book, id: RecordId, other: RecordId)
    requires Payloads(book') == Payloads(book) - {other} && id in book.records && id != other
    ensures id in book'.records && book'.records[id].payload == book.records[id].payload
  {
    assert id in Payloads(book');
  }

  /** After any run, reading gives the payload of every record that was put and not deleted, and of no deleted one. */
  method RunAndRead(pageSize: nat, ops: seq<RecordOp>, k: nat) returns (stored: bool, r: RecordResult<Bytes>)
    requires (pageSize == PAGE_4K || pageSize == PAGE_8K) && k < |ops| && ops[k].PutOne?
    ensures stored ==> r == if Alive(ops, k, |ops|) then Got(ops[k].payload) else Failed(SlotFailed(S.SlotDeleted))
    ensures 0 < |ops[k].payload| <= MAX_RECORD_BYTES && 18 * |ops| < MAX_U64 ==> stored
  {
    hide Tidy, Alive;
    var pager, ids;
    ghost var book;
    pager, ids, book := RunRecords(pageSize, ops);
    stored, r := false, Failed(PayloadTooLarge);
    if ids[k].Some? {
      r := Fetch(pager, ids[k].value, book);
      stored := true;
    }
  }
}
