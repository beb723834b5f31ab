/** The pool under all interleavings of its steps. */
module PoolModel {
  import opened Wrappers
  import opened Keys

  // The state: frames, page table, free frames, evictable frames, the guards that clients hold, and the pages on
  // disk. Every step that the pool takes under its lock is a function here, and every step of a guard.

  datatype Frame = Frame(page: Option<nat>, pins: nat, dirty: bool, lsn: nat, data: Bytes)

  /** A pin that a client holds: on its way to the page's lock, or holding it, shared or exclusive. */
  datatype Guard = Guard(page: nat, exclusive: bool, held: bool, dirty: bool, lsn: nat)

  /** One write of a page to disk: the largest LSN recorded for what was written, and how far the log
      was flushed at that time. */
  datatype PageWrite = PageWrite(page: nat, recorded: nat, flushed: nat)

  datatype Pool = Pool(
    frames: seq<Frame>, table: map<nat, nat>, free: seq<nat>, evictable: set<nat>,
    guards: map<nat, Guard>, disk: map<nat, Bytes>, flushed: nat,
    recorded: map<nat, nat>, writes: seq<PageWrite>)

  // ── The invariant ──

  function GuardsOn(guards: map<nat, Guard>, p: nat): set<nat> {
    set h | h in guards && guards[h].page == p
  }

  ghost predicate FrameOk(s: Pool, f: nat)
    requires f < |s.frames|
  {
    var fr := s.frames[f];
    match fr.page
    case Some(p) => p in s.table && s.table[p] == f && fr.pins == |GuardsOn(s.guards, p)|
    case None => fr.pins == 0 && !fr.dirty
  }

  ghost predicate EntryOk(s: Pool, p: nat)
    requires p in s.table
  {
    s.table[p] < |s.frames| && s.frames[s.table[p]].page == Some(p) && p in s.disk
  }

  /** A frame is evictable exactly when it has a page and no pin, and free exactly when it has none
      (except for a frame that a step has taken and not yet given a page). */
  ghost predicate ListsOk(s: Pool, f: nat, taken: Option<nat>)
    requires f < |s.frames|
  {
    && (f in s.evictable <==> s.frames[f].page.Some? && s.frames[f].pins == 0)
    && (f in s.free <==> s.frames[f].page.None? && taken != Some(f))
  }

  /** No page is written and read, or written twice, at the same time. */
  ghost predicate LocksOk(s: Pool, h: nat, h2: nat)
    requires h in s.guards && h2 in s.guards
  {
    h != h2 && s.guards[h].held && s.guards[h].exclusive && s.guards[h2].held ==> s.guards[h].page != s.guards[h2].page
  }

  ghost predicate GuardOk(s: Pool, h: nat)
    requires h in s.guards
  {
    && s.guards[h].page in s.table
    && (s.guards[h].dirty ==> s.guards[h].exclusive)
  }

  ghost predicate BeingChanged(guards: map<nat, Guard>, p: nat) {
    exists h :: h in guards && guards[h].page == p && guards[h].dirty
  }

  /** A clean page that nobody is changing is on disk as it is. */
  ghost predicate CleanOk(s: Pool, p: nat)
    requires p in s.table && EntryOk(s, p)
  {
    !s.frames[s.table[p]].dirty && !BeingChanged(s.guards, p) ==> s.frames[s.table[p]].data == s.disk[p]
  }

  /** Every LSN recorded for a page is flushed, or still stands in the way of writing the page. */
  ghost predicate LsnOk(s: Pool, p: nat)
    requires p in s.recorded
  {
    s.recorded[p] <= s.flushed
    || (p in s.table && EntryOk(s, p) && s.frames[s.table[p]].dirty && s.recorded[p] <= s.frames[s.table[p]].lsn)
  }

  ghost predicate FramesInv(s: Pool, taken: Option<nat>) {
    && (forall f {:trigger FrameOk(s, f)} :: 0 <= f < |s.frames| ==> FrameOk(s, f))
    && (forall f {:trigger ListsOk(s, f, taken)} :: 0 <= f < |s.frames| ==> ListsOk(s, f, taken))
    && (forall f {:trigger f in s.free} :: f in s.free ==> f < |s.frames|)
    && (forall f {:trigger f in s.evictable} :: f in s.evictable ==> f < |s.frames|)
    && (forall i, j :: 0 <= i < j < |s.free| ==> s.free[i] != s.free[j])
    && (taken.Some? ==> taken.value < |s.frames| && s.frames[taken.value].page.None?)
  }

  ghost predicate PagesInv(s: Pool) {
    && (forall p {:trigger EntryOk(s, p)} :: p in s.table ==> EntryOk(s, p))
    && (forall p {:trigger CleanOk(s, p)} :: p in s.table ==> CleanOk(s, p))
  }

  ghost predicate GuardsInv(s: Pool) {
    && (forall h {:trigger GuardOk(s, h)} :: h in s.guards ==> GuardOk(s, h))
    && (forall h, h2 {:trigger LocksOk(s, h, h2)} :: h in s.guards && h2 in s.guards ==> LocksOk(s, h, h2))
  }

  ghost predicate LogInv(s: Pool) {
    && s.recorded.Keys == s.disk.Keys
    && (forall p {:trigger LsnOk(s, p)} :: p in s.recorded ==> LsnOk(s, p))
    && (forall i {:trigger s.writes[i]} :: 0 <= i < |s.writes| ==> s.writes[i].recorded <= s.writes[i].flushed)
  }

  ghost predicate Inv(s: Pool, taken: Option<nat>) {
    FramesInv(s, taken) && PagesInv(s) && GuardsInv(s) && LogInv(s)
  }

  /** The contents that clients see: the frame's when the page has one, else the disk's. */
  ghost function Contents(s: Pool): (m: map<nat, Bytes>)
    ensures m.Keys == s.disk.Keys
  {
    map p | p in s.disk :: if p in s.table && s.table[p] < |s.frames| then s.frames[s.table[p]].data else s.disk[p]
  }

  // ── Steps under the pool's lock ──

  function SetFrame(s: Pool, f: nat, fr: Frame): Pool
    requires f < |s.frames|
  {
    s.(frames := s.frames[f := fr])
  }

  /** The last of the free frames is taken. */
  function TakeFree(s: Pool): Pool
    requires s.free != []
  {
    s.(free := s.free[..|s.free| - 1])
  }

  /** A taken frame is put back. */
  function PutBack(s: Pool, f: nat): Pool {
    s.(free := s.free + [f])
  }

  /** The page of a dirty frame is written to disk, the log having been flushed as far as its LSN. */
  function WriteBack(s: Pool, f: nat): Pool
    requires f < |s.frames| && s.frames[f].page.Some? && s.frames[f].page.value in s.recorded
  {
    var fr := s.frames[f];
    var p := fr.page.value;
    var flushed := if fr.lsn > s.flushed then fr.lsn else s.flushed;
    SetFrame(s, f, fr.(dirty := false)).(
      disk := s.disk[p := fr.data], flushed := flushed, writes := s.writes + [PageWrite(p, s.recorded[p], flushed)])
  }

  /** A frame gives up its page. */
  function Detach(s: Pool, f: nat, fr: Frame): Pool
    requires f < |s.frames| && s.frames[f].page.Some?
  {
    SetFrame(s, f, fr).(table := s.table - {s.frames[f].page.value}, evictable := s.evictable - {f})
  }

  /** A clean page is evicted. */
  function Unmap(s: Pool, f: nat): Pool
    requires f < |s.frames| && s.frames[f].page.Some?
  {
    Detach(s, f, s.frames[f].(page := None))
  }

  /** A frame with the page of a new guard. */
  function Place(s: Pool, f: nat, fr: Frame, h: nat, g: Guard): Pool
    requires f < |s.frames|
  {
    SetFrame(s, f, fr).(table := s.table[g.page := f], evictable := s.evictable - {f}, guards := s.guards[h := g])
  }

  /** A page that has a frame gets one more pin. */
  function Pin(s: Pool, p: nat, h: nat, exclusive: bool): Pool
    requires p in s.table && s.table[p] < |s.frames|
  {
    var fr := s.frames[s.table[p]];
    Place(s, s.table[p], fr.(pins := fr.pins + 1), h, Guard(p, exclusive, false, false, fr.lsn))
  }

  /** A page is read into a taken frame. */
  function Load(s: Pool, f: nat, p: nat, h: nat, exclusive: bool): Pool
    requires f < |s.frames| && p in s.disk
  {
    Place(s, f, Frame(Some(p), 1, false, 0, s.disk[p]), h, Guard(p, exclusive, false, false, 0))
  }

  /** The pager allocates a page of zeros. */
  function AddPage(s: Pool, p: nat, zeros: Bytes): Pool {
    s.(disk := s.disk[p := zeros], recorded := s.recorded[p := 0])
  }

  /** A new page of zeros in a taken frame, pinned by a guard on its way to the exclusive lock. */
  function Create(s: Pool, f: nat, p: nat, zeros: Bytes, h: nat): Pool
    requires f < |s.frames|
  {
    Place(AddPage(s, p, zeros), f, Frame(Some(p), 1, true, 0, zeros), h, Guard(p, true, false, true, 0))
  }

  /** A page is given back to the pager. */
  function Release(s: Pool, p: nat): Pool {
    s.(disk := s.disk - {p}, recorded := s.recorded - {p})
  }

  /** A page without pins loses its frame, which becomes free, and is given back to the pager. */
  function Delete(s: Pool, p: nat): Pool
    requires p in s.table ==> s.table[p] < |s.frames| && s.frames[s.table[p]].page == Some(p)
  {
    if p in s.table then
      var f := s.table[p];
      Release(PutBack(Detach(s, f, s.frames[f].(page := None, dirty := false, lsn := 0)), f), p)
    else Release(s, p)
  }

  // ── Steps of a guard ──

  predicate CanLock(s: Pool, h: nat) {
    h in s.guards && !s.guards[h].held
    && forall h2 :: h2 in s.guards && s.guards[h2].held && s.guards[h2].page == s.guards[h].page ==>
         !s.guards[h].exclusive && !s.guards[h2].exclusive
  }

  function LockPage(s: Pool, h: nat): Pool
    requires h in s.guards
  {
    s.(guards := s.guards[h := s.guards[h].(held := true)])
  }

  predicate MayWrite(s: Pool, h: nat) {
    h in s.guards && s.guards[h].held && s.guards[h].exclusive
  }

  function Write(s: Pool, h: nat, data: Bytes): Pool
    requires MayWrite(s, h) && s.guards[h].page in s.table && s.table[s.guards[h].page] < |s.frames|
  {
    var f := s.table[s.guards[h].page];
    SetFrame(s, f, s.frames[f].(data := data)).(guards := s.guards[h := s.guards[h].(dirty := true)])
  }

  function MarkDirty(s: Pool, h: nat, lsn: nat): Pool
    requires MayWrite(s, h)
  {
    s.(guards := s.guards[h := s.guards[h].(dirty := true, lsn := Max(s.guards[h].lsn, lsn))])
  }

  function Max(a: nat, b: nat): (m: nat)
    ensures a <= m && b <= m && (m == a || m == b)
  {
    if a > b then a else b
  }

  /** A guard goes away: the page is dirty if the guard was, its LSN covers the guard's, and the frame
      of the last guard becomes evictable. */
  function Drop(s: Pool, h: nat): Pool
    requires h in s.guards && s.guards[h].page in s.table && s.table[s.guards[h].page] < |s.frames|
  {
    var g := s.guards[h];
    var f := s.table[g.page];
    var fr := s.frames[f];
    var fr1 := if g.dirty then fr.(dirty := true, lsn := Max(fr.lsn, g.lsn)) else fr;
    SetFrame(s, f, fr1.(pins := if fr.pins <= 1 then 0 else fr.pins - 1)).(
      guards := s.guards - {h},
      evictable := if fr.pins <= 1 then s.evictable + {f} else s.evictable,
      recorded := if g.dirty && g.page in s.recorded then s.recorded[g.page := Max(s.recorded[g.page], g.lsn)] else s.recorded)
  }

  // ── Counting guards ──

  lemma GuardAdded(guards: map<nat, Guard>, h: nat, g: Guard)
    requires h !in guards
    ensures forall p {:trigger GuardsOn(guards[h := g], p)} :: |GuardsOn(guards[h := g], p)| == |GuardsOn(guards, p)| + if p == g.page then 1 else 0
  {
    forall p ensures |GuardsOn(guards[h := g], p)| == |GuardsOn(guards, p)| + if p == g.page then 1 else 0 {
      assert GuardsOn(guards[h := g], p) == GuardsOn(guards, p) + if p == g.page then {h} else {};
    }
  }

  lemma GuardRemoved(guards: map<nat, Guard>, h: nat)
    requires h in guards
    ensures forall p {:trigger GuardsOn(guards - {h}, p)} :: |GuardsOn(guards - {h}, p)| == |GuardsOn(guards, p)| - if p == guards[h].page then 1 else 0
  {
    forall p ensures |GuardsOn(guards - {h}, p)| == |GuardsOn(guards, p)| - if p == guards[h].page then 1 else 0 {
      assert GuardsOn(guards - {h}, p) == GuardsOn(guards, p) - if p == guards[h].page then {h} else {};
      if p == guards[h].page { assert h in GuardsOn(guards, p); }
    }
  }

  lemma GuardChanged(guards: map<nat, Guard>, h: nat, g: Guard)
    requires h in guards && guards[h].page == g.page
    ensures forall p {:trigger GuardsOn(guards[h := g], p)} :: GuardsOn(guards[h := g], p) == GuardsOn(guards, p)
  {
  }

  lemma NoGuards(guards: map<nat, Guard>, p: nat)
    requires |GuardsOn(guards, p)| == 0
    ensures forall h :: h in guards ==> guards[h].page != p
  {
    forall h | h in guards ensures guards[h].page != p { assert h in GuardsOn(guards, guards[h].page); }
  }

  // ── The invariant is kept: free frames ──

  lemma TakeFreeKeeps(s: Pool)
    requires Inv(s, None) && s.free != []
    ensures Inv(TakeFree(s), Some(s.free[|s.free| - 1])) && Contents(TakeFree(s)) == Contents(s)
  {
    var f := s.free[|s.free| - 1];
    assert f in s.free;
    assert ListsOk(s, f, None);
    var s' := TakeFree(s);
    assert s.free == s'.free + [f];
    forall x | x in s'.free ensures x < |s.frames| { assert x in s.free; }
    forall x | 0 <= x < |s.frames| ensures ListsOk(s', x, Some(f)) && FrameOk(s', x) {
      assert ListsOk(s, x, None) && FrameOk(s, x);
    }
    ListsOnly(s, None, s');
  }

  lemma PutBackKeeps(s: Pool, f: nat)
    requires Inv(s, Some(f))
    ensures Inv(PutBack(s, f), None) && Contents(PutBack(s, f)) == Contents(s)
  {
    PutBackFrames(s, f);
    ListsOnly(s, Some(f), PutBack(s, f));
  }

  lemma PutBackFrames(s: Pool, f: nat)
    requires FramesInv(s, Some(f))
    ensures FramesInv(PutBack(s, f), None)
  {
    var s' := PutBack(s, f);
    assert ListsOk(s, f, Some(f));
    forall x | 0 <= x < |s.frames| ensures ListsOk(s', x, None) && FrameOk(s', x) {
      assert ListsOk(s, x, Some(f)) && FrameOk(s, x);
    }
  }

  /** What does not depend on the lists. */
  lemma ListsOnly(s: Pool, taken: Option<nat>, s': Pool)
    requires Inv(s, taken) && s' == s.(free := s'.free)
    ensures PagesInv(s') && GuardsInv(s') && LogInv(s') && Contents(s') == Contents(s)
  {
    forall p | p in s.table ensures EntryOk(s', p) && CleanOk(s', p) { assert EntryOk(s, p) && CleanOk(s, p); }
    forall h | h in s.guards ensures GuardOk(s', h) { assert GuardOk(s, h); }
    forall h, h2 | h in s.guards && h2 in s.guards ensures LocksOk(s', h, h2) { assert LocksOk(s, h, h2); }
    forall p | p in s.recorded ensures LsnOk(s', p) { assert LsnOk(s, p); }
  }

  // ── Writing back ──

  /** Writing a page back is invisible, and happens after the log it depends on was flushed. */
  lemma WriteBackKeeps(s: Pool, f: nat)
    requires Inv(s, None) && f < |s.frames| && s.frames[f].page.Some? && s.frames[f].dirty
    ensures s.frames[f].page.value in s.recorded
    ensures Inv(WriteBack(s, f), None) && Contents(WriteBack(s, f)) == Contents(s)
  {
    assert FrameOk(s, f);
    var p := s.frames[f].page.value;
    assert EntryOk(s, p) && LsnOk(s, p);
    WriteBackLog(s, f);
    var s' := WriteBack(s, f);
    forall x | 0 <= x < |s.frames| ensures ListsOk(s', x, None) && FrameOk(s', x) { assert ListsOk(s, x, None) && FrameOk(s, x); }
    forall q | q in s.table ensures EntryOk(s', q) && CleanOk(s', q) { assert EntryOk(s, q) && CleanOk(s, q); }
    forall h | h in s.guards ensures GuardOk(s', h) { assert GuardOk(s, h); }
    forall h, h2 | h in s.guards && h2 in s.guards ensures LocksOk(s', h, h2) { assert LocksOk(s, h, h2); }
    WriteBackInvisible(s, f);
  }

  lemma WriteBackInvisible(s: Pool, f: nat)
    requires PagesInv(s) && f < |s.frames| && s.frames[f].page.Some? && s.frames[f].page.value in s.recorded
    requires s.frames[f].page.value in s.table && s.table[s.frames[f].page.value] == f && s.frames[f].page.value in s.disk
    ensures Contents(WriteBack(s, f)) == Contents(s)
  {
    var s' := WriteBack(s, f);
    forall q | q in s.disk ensures Contents(s')[q] == Contents(s)[q] { if q in s.table { assert EntryOk(s, q); } }
  }

  lemma WriteBackLog(s: Pool, f: nat)
    requires PagesInv(s) && LogInv(s) && f < |s.frames| && s.frames[f].page.Some?
    requires s.frames[f].page.value in s.table && s.table[s.frames[f].page.value] == f && s.frames[f].page.value in s.recorded
    ensures LogInv(WriteBack(s, f))
  {
    var p := s.frames[f].page.value;
    assert EntryOk(s, p) && LsnOk(s, p);
    var s' := WriteBack(s, f);
    forall q | q in s.recorded ensures LsnOk(s', q) {
      assert LsnOk(s, q);
      if q in s.table { assert EntryOk(s, q); }
    }
  }

  // ── Giving a frame a page ──

  /** The frame of a guard's page has one more pin, and no other frame has that page. */
  ghost predicate CanPlace(s: Pool, f: nat, fr: Frame, h: nat, g: Guard) {
    && f < |s.frames| && fr.page == Some(g.page) && h !in s.guards
    && fr.pins == |GuardsOn(s.guards, g.page)| + 1
    && (if g.page in s.table then s.table[g.page] == f && s.frames[f].page == Some(g.page) else s.frames[f].page == None)
  }

  lemma PlaceFrames(s: Pool, taken: Option<nat>, f: nat, fr: Frame, h: nat, g: Guard)
    requires FramesInv(s, taken) && PagesInv(s) && CanPlace(s, f, fr, h, g)
    requires taken == if g.page in s.table then None else Some(f)
    ensures FramesInv(Place(s, f, fr, h, g), None)
  {
    var s' := Place(s, f, fr, h, g);
    GuardAdded(s.guards, h, g);
    forall x | 0 <= x < |s.frames| ensures ListsOk(s', x, None) && FrameOk(s', x) { assert ListsOk(s, x, taken) && FrameOk(s, x); }
  }

  lemma PlacePages(s: Pool, f: nat, fr: Frame, h: nat, g: Guard)
    requires PagesInv(s) && CanPlace(s, f, fr, h, g) && g.page in s.disk
    requires fr.dirty || g.dirty || BeingChanged(s.guards, g.page) || fr.data == s.disk[g.page]
    ensures PagesInv(Place(s, f, fr, h, g))
  {
    var s' := Place(s, f, fr, h, g);
    forall q | q in s'.table ensures EntryOk(s', q) && CleanOk(s', q) {
      if q != g.page {
        assert EntryOk(s, q) && CleanOk(s, q);
        if BeingChanged(s.guards, q) {
          var x :| x in s.guards && s.guards[x].page == q && s.guards[x].dirty;
          assert x in s'.guards && s'.guards[x] == s.guards[x];
        }
      } else if BeingChanged(s.guards, q) {
        var x :| x in s.guards && s.guards[x].page == q && s.guards[x].dirty;
        assert x in s'.guards && s'.guards[x] == s.guards[x];
      } else {
        assert s'.guards[h] == g;
      }
    }
  }

  lemma PlaceGuards(s: Pool, f: nat, fr: Frame, h: nat, g: Guard)
    requires GuardsInv(s) && CanPlace(s, f, fr, h, g)
    requires (g.dirty ==> g.exclusive) && !g.held
    ensures GuardsInv(Place(s, f, fr, h, g))
  {
    var s' := Place(s, f, fr, h, g);
    forall x | x in s'.guards ensures GuardOk(s', x) { if x != h { assert GuardOk(s, x); } }
    forall x, y | x in s'.guards && y in s'.guards ensures LocksOk(s', x, y) {
      if x != h && y != h { assert LocksOk(s, x, y); }
    }
  }

  lemma PlaceLog(s: Pool, f: nat, fr: Frame, h: nat, g: Guard)
    requires PagesInv(s) && LogInv(s) && CanPlace(s, f, fr, h, g) && g.page in s.disk
    requires g.page in s.table ==> fr.dirty == s.frames[f].dirty && fr.lsn == s.frames[f].lsn
    ensures LogInv(Place(s, f, fr, h, g))
  {
    var s' := Place(s, f, fr, h, g);
    forall q | q in s.recorded ensures LsnOk(s', q) {
      assert LsnOk(s, q);
      if q in s.table { assert EntryOk(s, q); }
    }
  }

  lemma PlaceContents(s: Pool, f: nat, fr: Frame, h: nat, g: Guard)
    requires PagesInv(s) && CanPlace(s, f, fr, h, g) && g.page in s.disk
    ensures Contents(Place(s, f, fr, h, g)) == Contents(s)[g.page := fr.data]
  {
    var s' := Place(s, f, fr, h, g);
    forall q | q in s.disk ensures Contents(s')[q] == Contents(s)[g.page := fr.data][q] {
      if q in s.table { assert EntryOk(s, q); }
    }
  }

  lemma CanPin(s: Pool, p: nat, h: nat, exclusive: bool)
    requires Inv(s, None) && p in s.table && h !in s.guards
    ensures s.table[p] < |s.frames| && p in s.disk
    ensures var fr := s.frames[s.table[p]];
            && CanPlace(s, s.table[p], fr.(pins := fr.pins + 1), h, Guard(p, exclusive, false, false, fr.lsn))
            && (fr.dirty || BeingChanged(s.guards, p) || fr.data == s.disk[p])
  {
    assert EntryOk(s, p) && CleanOk(s, p);
    assert FrameOk(s, s.table[p]);
  }

  lemma PinKeeps(s: Pool, p: nat, h: nat, exclusive: bool)
    requires Inv(s, None) && p in s.table && h !in s.guards
    ensures s.table[p] < |s.frames| && Inv(Pin(s, p, h, exclusive), None) && Contents(Pin(s, p, h, exclusive)) == Contents(s)
  {
    hide FramesInv, PagesInv, GuardsInv, LogInv, Contents, BeingChanged, CanPlace;
    CanPin(s, p, h, exclusive);
    var f := s.table[p];
    var fr, g := s.frames[f].(pins := s.frames[f].pins + 1), Guard(p, exclusive, false, false, s.frames[f].lsn);
    PlaceFrames(s, None, f, fr, h, g);
    PlacePages(s, f, fr, h, g);
    PlaceGuards(s, f, fr, h, g);
    PlaceLog(s, f, fr, h, g);
    PlaceContents(s, f, fr, h, g);
    ContentsOf(s, p);
    assert Contents(s)[p := Contents(s)[p]] == Contents(s);
  }

  lemma ContentsOf(s: Pool, p: nat)
    requires PagesInv(s) && p in s.disk
    ensures Contents(s)[p] == if p in s.table && s.table[p] < |s.frames| then s.frames[s.table[p]].data else s.disk[p]
  {
  }

  /** Reading a page in is invisible. */
  lemma LoadKeeps(s: Pool, f: nat, p: nat, h: nat, exclusive: bool)
    requires Inv(s, Some(f)) && p !in s.table && p in s.disk && h !in s.guards
    ensures f < |s.frames| && Inv(Load(s, f, p, h, exclusive), None) && Contents(Load(s, f, p, h, exclusive)) == Contents(s)
  {
    assert FrameOk(s, f);
    NoGuardsElsewhere(s, p);
    var fr, g := Frame(Some(p), 1, false, 0, s.disk[p]), Guard(p, exclusive, false, false, 0);
    hide PagesInv, GuardsInv, LogInv, Contents;
    PlaceFrames(s, Some(f), f, fr, h, g);
    PlacePages(s, f, fr, h, g);
    PlaceGuards(s, f, fr, h, g);
    PlaceLog(s, f, fr, h, g);
    PlaceContents(s, f, fr, h, g);
    ContentsOf(s, p);
    assert Contents(s)[p := Contents(s)[p]] == Contents(s);
  }

  /** A page without a frame has no guard. */
  lemma NoGuardsElsewhere(s: Pool, p: nat)
    requires p !in s.table && GuardsInv(s)
    ensures GuardsOn(s.guards, p) == {} && !BeingChanged(s.guards, p)
  {
    forall h | h in s.guards ensures s.guards[h].page != p { assert GuardOk(s, h); }
  }

  lemma MappedIsOnDisk(s: Pool)
    requires PagesInv(s)
    ensures forall p :: p in s.table ==> p in s.disk
  {
    forall p | p in s.table ensures p in s.disk { assert EntryOk(s, p); }
  }

  lemma AddPageKeeps(s: Pool, taken: Option<nat>, p: nat, zeros: Bytes)
    requires Inv(s, taken) && p !in s.disk
    ensures p !in s.table && Inv(AddPage(s, p, zeros), taken) && Contents(AddPage(s, p, zeros)) == Contents(s)[p := zeros]
  {
    MappedIsOnDisk(s);
    AddPageFrames(s, taken, p, zeros);
    AddPageLog(s, p, zeros);
    hide FramesInv, GuardsInv, LogInv, Contents;
    var s' := AddPage(s, p, zeros);
    forall q | q in s.table ensures EntryOk(s', q) && CleanOk(s', q) { assert EntryOk(s, q) && CleanOk(s, q); }
  }

  lemma AddPageLog(s: Pool, p: nat, zeros: Bytes)
    requires LogInv(s) && p !in s.disk && p !in s.table
    ensures LogInv(AddPage(s, p, zeros)) && Contents(AddPage(s, p, zeros)) == Contents(s)[p := zeros]
  {
    var s' := AddPage(s, p, zeros);
    forall q | q in s'.recorded ensures LsnOk(s', q) { if q != p { assert LsnOk(s, q); } }
  }

  lemma AddPageFrames(s: Pool, taken: Option<nat>, p: nat, zeros: Bytes)
    requires FramesInv(s, taken) && GuardsInv(s)
    ensures FramesInv(AddPage(s, p, zeros), taken) && GuardsInv(AddPage(s, p, zeros))
  {
    var s' := AddPage(s, p, zeros);
    forall x | 0 <= x < |s.frames| ensures ListsOk(s', x, taken) && FrameOk(s', x) { assert ListsOk(s, x, taken) && FrameOk(s, x); }
    forall h | h in s.guards ensures GuardOk(s', h) { assert GuardOk(s, h); }
    forall h, h2 | h in s.guards && h2 in s.guards ensures LocksOk(s', h, h2) { assert LocksOk(s, h, h2); }
  }

  /** A new page is all zeros, and no other page changes. */
  lemma CreateKeeps(s: Pool, f: nat, p: nat, zeros: Bytes, h: nat)
    requires Inv(s, Some(f)) && p !in s.disk && h !in s.guards
    ensures f < |s.frames| && Inv(Create(s, f, p, zeros, h), None)
    ensures Contents(Create(s, f, p, zeros, h)) == Contents(s)[p := zeros]
  {
    AddPageKeeps(s, Some(f), p, zeros);
    var s1 := AddPage(s, p, zeros);
    assert FrameOk(s, f);
    NoGuardsElsewhere(s1, p);
    var fr, g := Frame(Some(p), 1, true, 0, zeros), Guard(p, true, false, true, 0);
    hide PagesInv, GuardsInv, LogInv, Contents;
    PlaceFrames(s1, Some(f), f, fr, h, g);
    PlacePages(s1, f, fr, h, g);
    PlaceGuards(s1, f, fr, h, g);
    PlaceLog(s1, f, fr, h, g);
    PlaceContents(s1, f, fr, h, g);
  }

  // ── Taking a page from a frame ──

  /** The frame has a page that nobody has pinned. */
  ghost predicate CanDetach(s: Pool, f: nat, fr: Frame) {
    && f < |s.frames| && s.frames[f].page.Some? && s.frames[f].pins == 0
    && fr.page == None && fr.pins == 0 && !fr.dirty
  }

  lemma DetachKeeps(s: Pool, f: nat, fr: Frame)
    requires FramesInv(s, None) && PagesInv(s) && GuardsInv(s) && CanDetach(s, f, fr)
    ensures FramesInv(Detach(s, f, fr), Some(f)) && PagesInv(Detach(s, f, fr)) && GuardsInv(Detach(s, f, fr))
  {
    assert ListsOk(s, f, None) && FrameOk(s, f);
    NoGuards(s.guards, s.frames[f].page.value);
    var s' := Detach(s, f, fr);
    forall x | 0 <= x < |s.frames| ensures ListsOk(s', x, Some(f)) && FrameOk(s', x) { assert ListsOk(s, x, None) && FrameOk(s, x); }
    forall q | q in s'.table ensures EntryOk(s', q) && CleanOk(s', q) { assert EntryOk(s, q) && CleanOk(s, q); }
    forall h | h in s.guards ensures GuardOk(s', h) { assert GuardOk(s, h); }
    forall h, h2 | h in s.guards && h2 in s.guards ensures LocksOk(s', h, h2) { assert LocksOk(s, h, h2); }
  }

  /** Evicting a clean page is invisible. */
  lemma UnmapKeeps(s: Pool, f: nat)
    requires Inv(s, None) && f in s.evictable && f < |s.frames| && s.frames[f].page.Some? && !s.frames[f].dirty
    ensures Inv(Unmap(s, f), Some(f)) && Contents(Unmap(s, f)) == Contents(s)
  {
    assert ListsOk(s, f, None) && FrameOk(s, f);
    var p := s.frames[f].page.value;
    assert EntryOk(s, p) && CleanOk(s, p);
    NoGuards(s.guards, p);
    DetachKeeps(s, f, s.frames[f].(page := None));
    UnmapLog(s, f);
    UnmapInvisible(s, f);
  }

  lemma UnmapLog(s: Pool, f: nat)
    requires PagesInv(s) && LogInv(s) && f < |s.frames| && s.frames[f].page.Some? && !s.frames[f].dirty
    requires s.frames[f].page.value in s.table && s.table[s.frames[f].page.value] == f
    requires s.frames[f].page.value in s.disk && s.frames[f].data == s.disk[s.frames[f].page.value]
    ensures LogInv(Unmap(s, f))
  {
    var s' := Unmap(s, f);
    forall q | q in s.recorded ensures LsnOk(s', q) {
      assert LsnOk(s, q);
      if q in s.table { assert EntryOk(s, q); }
    }
  }

  lemma UnmapInvisible(s: Pool, f: nat)
    requires PagesInv(s) && f < |s.frames| && s.frames[f].page.Some?
    requires s.frames[f].page.value in s.table && s.table[s.frames[f].page.value] == f
    requires s.frames[f].page.value in s.disk && s.frames[f].data == s.disk[s.frames[f].page.value]
    ensures Contents(Unmap(s, f)) == Contents(s)
  {
    var s' := Unmap(s, f);
    forall q | q in s.disk ensures Contents(s')[q] == Contents(s)[q] { if q in s.table { assert EntryOk(s, q); } }
  }

  lemma ReleaseKeeps(s: Pool, p: nat)
    requires FramesInv(s, None) && PagesInv(s) && GuardsInv(s) && p !in s.table
    ensures FramesInv(Release(s, p), None) && PagesInv(Release(s, p)) && GuardsInv(Release(s, p))
  {
    var s' := Release(s, p);
    forall x | 0 <= x < |s.frames| ensures ListsOk(s', x, None) && FrameOk(s', x) { assert ListsOk(s, x, None) && FrameOk(s, x); }
    forall q | q in s.table ensures EntryOk(s', q) && CleanOk(s', q) { assert EntryOk(s, q) && CleanOk(s, q); }
    forall h | h in s.guards ensures GuardOk(s', h) { assert GuardOk(s, h); }
    forall h, h2 | h in s.guards && h2 in s.guards ensures LocksOk(s', h, h2) { assert LocksOk(s, h, h2); }
  }

  /** Deleting a page without pins takes that page away and changes no other. */
  lemma DeleteKeeps(s: Pool, p: nat)
    requires Inv(s, None) && (p in s.table ==> s.table[p] < |s.frames| && s.frames[s.table[p]].pins == 0)
    ensures p in s.table ==> s.frames[s.table[p]].page == Some(p)
    ensures Inv(Delete(s, p), None) && Contents(Delete(s, p)) == Contents(s) - {p}
  {
    if p in s.table {
      assert EntryOk(s, p);
      var f := s.table[p];
      var fr := s.frames[f].(page := None, dirty := false, lsn := 0);
      DetachKeeps(s, f, fr);
      var s1 := Detach(s, f, fr);
      PutBackFrames(s1, f);
      PagesAndGuardsOnly(s1, PutBack(s1, f));
      ReleaseKeeps(PutBack(s1, f), p);
    } else {
      ReleaseKeeps(s, p);
    }
    DeleteLog(s, p);
  }

  lemma PagesAndGuardsOnly(s: Pool, s': Pool)
    requires PagesInv(s) && GuardsInv(s) && s' == s.(free := s'.free)
    ensures PagesInv(s') && GuardsInv(s')
  {
    forall p | p in s.table ensures EntryOk(s', p) && CleanOk(s', p) { assert EntryOk(s, p) && CleanOk(s, p); }
    forall h | h in s.guards ensures GuardOk(s', h) { assert GuardOk(s, h); }
    forall h, h2 | h in s.guards && h2 in s.guards ensures LocksOk(s', h, h2) { assert LocksOk(s, h, h2); }
  }

  lemma DeleteLog(s: Pool, p: nat)
    requires PagesInv(s) && LogInv(s)
    ensures p in s.table ==> s.table[p] < |s.frames| && s.frames[s.table[p]].page == Some(p)
    ensures LogInv(Delete(s, p)) && Contents(Delete(s, p)) == Contents(s) - {p}
  {
    hide Delete, LsnOk, Contents, CleanOk;
    if p in s.table { assert EntryOk(s, p); }
    var s' := Delete(s, p);
    DeleteParts(s, p);
    forall q | q in s'.recorded ensures LsnOk(s', q) {
      assert LsnOk(s, q);
      LsnUndeleted(s, p, q);
    }
    forall q | q in s'.disk ensures Contents(s')[q] == Contents(s)[q] { ContentsUndeleted(s, p, q); }
  }

  lemma LsnUndeleted(s: Pool, p: nat, q: nat)
    requires PagesInv(s) && q in s.recorded && q != p && LsnOk(s, q) && (p in s.table ==> EntryOk(s, p))
    ensures q in Delete(s, p).recorded && LsnOk(Delete(s, p), q)
  {
    DeleteParts(s, p);
    hide Delete;
    if q in s.table { assert EntryOk(s, q); }
  }

  lemma ContentsUndeleted(s: Pool, p: nat, q: nat)
    requires PagesInv(s) && q in s.disk && q != p && (p in s.table ==> EntryOk(s, p))
    ensures q in Contents(Delete(s, p)) && Contents(Delete(s, p))[q] == Contents(s)[q]
  {
    DeleteParts(s, p);
    hide Delete;
    if q in s.table { assert EntryOk(s, q); }
  }

  /** What a delete leaves: everything but the page and its frame. */
  lemma DeleteParts(s: Pool, p: nat)
    requires p in s.table ==> EntryOk(s, p)
    ensures var s' := Delete(s, p);
            && s'.disk == s.disk - {p} && s'.table == s.table - {p} && s'.recorded == s.recorded - {p}
            && s'.writes == s.writes && s'.flushed == s.flushed && |s'.frames| == |s.frames|
            && (forall f {:trigger s'.frames[f]} :: 0 <= f < |s.frames| && (p in s.table ==> f != s.table[p]) ==> s'.frames[f] == s.frames[f])
  {
  }

  // ── Guards ──

  /** A guard changes state without its page or its frame changing. */
  lemma GuardOnly(s: Pool, h: nat, g: Guard)
    requires Inv(s, None) && h in s.guards && g.page == s.guards[h].page && (s.guards[h].dirty ==> g.dirty)
    ensures var s' := s.(guards := s.guards[h := g]);
            FramesInv(s', None) && PagesInv(s') && LogInv(s') && Contents(s') == Contents(s)
  {
    var s' := s.(guards := s.guards[h := g]);
    GuardChanged(s.guards, h, g);
    forall x | 0 <= x < |s.frames| ensures ListsOk(s', x, None) && FrameOk(s', x) { assert ListsOk(s, x, None) && FrameOk(s, x); }
    forall q | q in s.table ensures EntryOk(s', q) && CleanOk(s', q) {
      assert EntryOk(s, q) && CleanOk(s, q);
      StillChanged(s.guards, h, g, q);
    }
    forall q | q in s.recorded ensures LsnOk(s', q) { assert LsnOk(s, q); }
  }

  lemma StillChanged(guards: map<nat, Guard>, h: nat, g: Guard, q: nat)
    requires h in guards && g.page == guards[h].page && (guards[h].dirty ==> g.dirty)
    ensures BeingChanged(guards, q) ==> BeingChanged(guards[h := g], q)
  {
    if BeingChanged(guards, q) {
      var x :| x in guards && guards[x].page == q && guards[x].dirty;
      assert x in guards[h := g] && guards[h := g][x].page == q && guards[h := g][x].dirty;
    }
  }

  lemma LockKeeps(s: Pool, h: nat)
    requires Inv(s, None) && CanLock(s, h)
    ensures Inv(LockPage(s, h), None) && Contents(LockPage(s, h)) == Contents(s)
  {
    assert GuardOk(s, h);
    var g := s.guards[h].(held := true);
    GuardOnly(s, h, g);
    var s' := LockPage(s, h);
    forall x | x in s'.guards ensures GuardOk(s', x) { assert GuardOk(s, x); }
    forall x, y | x in s'.guards && y in s'.guards ensures LocksOk(s', x, y) { assert LocksOk(s, x, y); }
  }

  lemma MarkDirtyKeeps(s: Pool, h: nat, lsn: nat)
    requires Inv(s, None) && MayWrite(s, h)
    ensures Inv(MarkDirty(s, h, lsn), None) && Contents(MarkDirty(s, h, lsn)) == Contents(s)
  {
    var g := s.guards[h].(dirty := true, lsn := Max(s.guards[h].lsn, lsn));
    GuardOnly(s, h, g);
    var s' := MarkDirty(s, h, lsn);
    forall x | x in s'.guards ensures GuardOk(s', x) { assert GuardOk(s, x); }
    forall x, y | x in s'.guards && y in s'.guards ensures LocksOk(s', x, y) { assert LocksOk(s, x, y); }
  }

  /** Writing through an exclusive guard changes its page and no other. */
  lemma WriteKeeps(s: Pool, h: nat, data: Bytes)
    requires Inv(s, None) && MayWrite(s, h)
    ensures s.guards[h].page in s.table && s.table[s.guards[h].page] < |s.frames|
    ensures Inv(Write(s, h, data), None) && Contents(Write(s, h, data)) == Contents(s)[s.guards[h].page := data]
  {
    assert GuardOk(s, h);
    var p := s.guards[h].page;
    assert EntryOk(s, p);
    var g := s.guards[h].(dirty := true);
    var s1 := s.(guards := s.guards[h := g]);
    GuardOnly(s, h, g);
    forall x | x in s1.guards ensures GuardOk(s1, x) { assert GuardOk(s, x); }
    forall x, y | x in s1.guards && y in s1.guards ensures LocksOk(s1, x, y) { assert LocksOk(s, x, y); }
    assert s1.guards[h] == g;
    DataChanges(s1, h, data);
    assert Write(s, h, data) == SetFrame(s1, s.table[p], s1.frames[s.table[p]].(data := data));
  }

  lemma DataChanges(s: Pool, h: nat, data: Bytes)
    requires Inv(s, None) && h in s.guards && s.guards[h].dirty
    ensures s.guards[h].page in s.table && s.table[s.guards[h].page] < |s.frames|
    ensures var p := s.guards[h].page;
            var s' := SetFrame(s, s.table[p], s.frames[s.table[p]].(data := data));
            Inv(s', None) && Contents(s') == Contents(s)[p := data]
  {
    assert GuardOk(s, h);
    var p := s.guards[h].page;
    assert EntryOk(s, p);
    var f := s.table[p];
    var s' := SetFrame(s, f, s.frames[f].(data := data));
    assert BeingChanged(s.guards, p);
    forall x | 0 <= x < |s.frames| ensures ListsOk(s', x, None) && FrameOk(s', x) { assert ListsOk(s, x, None) && FrameOk(s, x); }
    forall q | q in s.table ensures EntryOk(s', q) && CleanOk(s', q) { assert EntryOk(s, q) && CleanOk(s, q); }
    forall x | x in s.guards ensures GuardOk(s', x) { assert GuardOk(s, x); }
    forall x, y | x in s.guards && y in s.guards ensures LocksOk(s', x, y) { assert LocksOk(s, x, y); }
    forall q | q in s.recorded ensures LsnOk(s', q) { assert LsnOk(s, q); }
    DataShows(s, p, data);
  }

  lemma DataShows(s: Pool, p: nat, data: Bytes)
    requires PagesInv(s) && p in s.table && s.table[p] < |s.frames|
    ensures Contents(SetFrame(s, s.table[p], s.frames[s.table[p]].(data := data))) == Contents(s)[p := data]
  {
    var s' := SetFrame(s, s.table[p], s.frames[s.table[p]].(data := data));
    assert EntryOk(s, p);
    forall q | q in s.disk ensures Contents(s')[q] == Contents(s)[p := data][q] { if q in s.table { assert EntryOk(s, q); } }
  }

  lemma DropKeeps(s: Pool, h: nat)
    requires Inv(s, None) && h in s.guards
    ensures s.guards[h].page in s.table && s.table[s.guards[h].page] < |s.frames|
    ensures Inv(Drop(s, h), None) && Contents(Drop(s, h)) == Contents(s)
  {
    assert GuardOk(s, h);
    var p := s.guards[h].page;
    assert EntryOk(s, p);
    DropFrames(s, h);
    DropPages(s, h);
    DropLog(s, h);
    var s' := Drop(s, h);
    hide FramesInv, LogInv;
    forall x | x in s'.guards ensures GuardOk(s', x) { assert GuardOk(s, x); }
    forall x, y | x in s'.guards && y in s'.guards ensures LocksOk(s', x, y) { assert LocksOk(s, x, y); }
  }

  lemma DropFrames(s: Pool, h: nat)
    requires FramesInv(s, None) && PagesInv(s) && h in s.guards && s.guards[h].page in s.table && s.table[s.guards[h].page] < |s.frames|
    ensures FramesInv(Drop(s, h), None)
  {
    var s' := Drop(s, h);
    var f := s.table[s.guards[h].page];
    assert EntryOk(s, s.guards[h].page);
    assert FrameOk(s, f) && ListsOk(s, f, None);
    GuardRemoved(s.guards, h);
    assert h in GuardsOn(s.guards, s.guards[h].page);
    forall x | 0 <= x < |s.frames| ensures ListsOk(s', x, None) && FrameOk(s', x) { assert ListsOk(s, x, None) && FrameOk(s, x); }
  }

  lemma DropPages(s: Pool, h: nat)
    requires PagesInv(s) && h in s.guards && s.guards[h].page in s.table && s.table[s.guards[h].page] < |s.frames|
    ensures PagesInv(Drop(s, h)) && Contents(Drop(s, h)) == Contents(s)
  {
    var s' := Drop(s, h);
    forall q | q in s.table ensures EntryOk(s', q) && CleanOk(s', q) {
      assert EntryOk(s, q) && CleanOk(s, q) && EntryOk(s, s.guards[h].page);
      if BeingChanged(s.guards, q) {
        var x :| x in s.guards && s.guards[x].page == q && s.guards[x].dirty;
        assert x != h ==> x in s'.guards && s'.guards[x] == s.guards[x];
      }
    }
    forall q | q in s.disk ensures Contents(s')[q] == Contents(s)[q] { if q in s.table { assert EntryOk(s, q); } }
  }

  lemma DropLog(s: Pool, h: nat)
    requires PagesInv(s) && LogInv(s) && h in s.guards && s.guards[h].page in s.table && s.table[s.guards[h].page] < |s.frames|
    ensures LogInv(Drop(s, h))
  {
    var s' := Drop(s, h);
    assert EntryOk(s, s.guards[h].page);
    forall q | q in s'.recorded ensures LsnOk(s', q) {
      assert LsnOk(s, q);
      if q in s.table { assert EntryOk(s, q); }
    }
  }

  /** The log is reported flushed up to some LSN. */
  function RecordSync(s: Pool, lsn: nat): Pool {
    s.(flushed := Max(s.flushed, lsn))
  }

  lemma RecordSyncKeeps(s: Pool, lsn: nat)
    requires Inv(s, None)
    ensures Inv(RecordSync(s, lsn), None) && Contents(RecordSync(s, lsn)) == Contents(s)
  {
    var s' := RecordSync(s, lsn);
    forall x | 0 <= x < |s.frames| ensures ListsOk(s', x, None) && FrameOk(s', x) { assert ListsOk(s, x, None) && FrameOk(s, x); }
    forall q | q in s.table ensures EntryOk(s', q) && CleanOk(s', q) { assert EntryOk(s, q) && CleanOk(s, q); }
    forall h | h in s.guards ensures GuardOk(s', h) { assert GuardOk(s, h); }
    forall h, h2 | h in s.guards && h2 in s.guards ensures LocksOk(s', h, h2) { assert LocksOk(s, h, h2); }
    forall q | q in s.recorded ensures LsnOk(s', q) { assert LsnOk(s, q); }
  }

  // ── Whole steps ──

  /** A dirty victim is written back, and gives up its page. */
  function Evict(s: Pool, f: nat): Pool
    requires f < |s.frames| && s.frames[f].page.Some? && (s.frames[f].dirty ==> s.frames[f].page.value in s.recorded)
  {
    Unmap(if s.frames[f].dirty then WriteBack(s, f) else s, f)
  }

  /** A frame is found: the last free one, or when there is none, any evictable one. */
  ghost predicate Obtained(s: Pool, f: nat, s': Pool) {
    if s.free != [] then
      f == s.free[|s.free| - 1] && s' == TakeFree(s)
    else
      && f in s.evictable && f < |s.frames| && s.frames[f].page.Some?
      && (s.frames[f].dirty ==> s.frames[f].page.value in s.recorded) && s' == Evict(s, f)
  }

  /** Finding a frame is invisible, and takes no page that is pinned. */
  lemma ObtainedKeeps(s: Pool, f: nat, s': Pool)
    requires Inv(s, None) && Obtained(s, f, s')
    ensures Inv(s', Some(f)) && Contents(s') == Contents(s) && s'.disk.Keys == s.disk.Keys
    ensures s'.guards == s.guards && s.flushed <= s'.flushed && s.writes <= s'.writes
    ensures forall h :: h in s.guards ==> s.guards[h].page in s.table && s.guards[h].page in s'.table
                                          && s'.table[s.guards[h].page] == s.table[s.guards[h].page]
    ensures forall p :: p !in s.table ==> p !in s'.table
  {
    if s.free != [] {
      TakeFreeKeeps(s);
      GuardsMapped(s);
    } else {
      EvictKeeps(s, f);
    }
  }

  lemma GuardsMapped(s: Pool)
    requires GuardsInv(s)
    ensures forall h :: h in s.guards ==> s.guards[h].page in s.table
  {
    forall h | h in s.guards ensures s.guards[h].page in s.table { assert GuardOk(s, h); }
  }

  lemma EvictKeeps(s: Pool, f: nat)
    requires Inv(s, None) && f in s.evictable && f < |s.frames| && s.frames[f].page.Some?
    requires s.frames[f].dirty ==> s.frames[f].page.value in s.recorded
    ensures var s' := Evict(s, f);
            && Inv(s', Some(f)) && Contents(s') == Contents(s) && s'.disk.Keys == s.disk.Keys
            && s'.guards == s.guards && s.flushed <= s'.flushed && s.writes <= s'.writes
            && s'.table == s.table - {s.frames[f].page.value}
            && forall h :: h in s.guards ==> s.guards[h].page != s.frames[f].page.value && s.guards[h].page in s.table
  {
    GuardsMapped(s);
    VictimUnpinned(s, f);
    if s.frames[f].dirty {
      WriteBackKeeps(s, f);
      UnmapKeeps(WriteBack(s, f), f);
    } else {
      UnmapKeeps(s, f);
    }
  }

  lemma VictimUnpinned(s: Pool, f: nat)
    requires Inv(s, None) && f in s.evictable && f < |s.frames| && s.frames[f].page.Some?
    ensures s.frames[f].page.value in s.disk
    ensures forall h :: h in s.guards ==> s.guards[h].page != s.frames[f].page.value
  {
    assert ListsOk(s, f, None) && FrameOk(s, f);
    assert EntryOk(s, s.frames[f].page.value);
    NoGuards(s.guards, s.frames[f].page.value);
  }

  /** Pinning a page, in its frame or in one found for it. */
  ghost predicate FetchStep(s: Pool, p: nat, h: nat, exclusive: bool, s': Pool) {
    && p in s.disk && h !in s.guards
    && if p in s.table then s.table[p] < |s.frames| && s' == Pin(s, p, h, exclusive)
       else exists f: nat, s1 {:trigger Obtained(s, f, s1)} ::
              Obtained(s, f, s1) && f < |s1.frames| && p in s1.disk && s' == Load(s1, f, p, h, exclusive)
  }

  ghost predicate CreateStep(s: Pool, p: nat, zeros: Bytes, h: nat, s': Pool) {
    && p !in s.disk && h !in s.guards
    && exists f: nat, s1 {:trigger Obtained(s, f, s1)} :: Obtained(s, f, s1) && f < |s1.frames| && s' == Create(s1, f, p, zeros, h)
  }

  datatype Event =
    | Fetched(page: nat, guard: nat, exclusive: bool)
    | Created(page: nat, guard: nat, zeros: Bytes)
    | Locked(guard: nat)
    | Wrote(guard: nat, data: Bytes)
    | Marked(guard: nat, lsn: nat)
    | Dropped(guard: nat)
    | Flushed(frame: nat)
    | Deleted(page: nat)
    | Synced(lsn: nat)
    /** A frame was found for a new page, but the pager had no page to give. */
    | Emptied(frame: nat)
    /** No frame was to be had, a page was pinned, or the log could not be synced. */
    | Refused

  ghost predicate Next(s: Pool, e: Event, s': Pool) {
    match e
    case Fetched(p, h, exclusive) => FetchStep(s, p, h, exclusive, s')
    case Created(p, h, zeros) => CreateStep(s, p, zeros, h, s')
    case Locked(h) => CanLock(s, h) && s' == LockPage(s, h)
    case Wrote(h, data) => MayWrite(s, h) && s.guards[h].page in s.table && s.table[s.guards[h].page] < |s.frames| && s' == Write(s, h, data)
    case Marked(h, lsn) => MayWrite(s, h) && s' == MarkDirty(s, h, lsn)
    case Dropped(h) => h in s.guards && s.guards[h].page in s.table && s.table[s.guards[h].page] < |s.frames| && s' == Drop(s, h)
    case Flushed(f) =>
      && f < |s.frames| && s.frames[f].page.Some? && s.frames[f].page.value in s.recorded && s.frames[f].dirty
      && (forall h :: h in s.guards && s.guards[h].page == s.frames[f].page.value ==> !MayWrite(s, h))
      && s' == WriteBack(s, f)
    case Deleted(p) =>
      && (p in s.table ==> s.table[p] < |s.frames| && s.frames[s.table[p]].page == Some(p) && s.frames[s.table[p]].pins == 0)
      && s' == Delete(s, p)
    case Synced(lsn) => s' == RecordSync(s, lsn)
    case Emptied(f) => exists s1 {:trigger Obtained(s, f, s1)} :: Obtained(s, f, s1) && s' == PutBack(s1, f)
    case Refused => s' == s
  }

  /** The pages as a map, changed only by writing through a guard, creating and deleting. */
  ghost predicate MapStep(m: map<nat, Bytes>, s: Pool, e: Event, m': map<nat, Bytes>) {
    match e
    case Created(p, _, zeros) => m' == m[p := zeros]
    case Wrote(h, data) => h in s.guards && m' == m[s.guards[h].page := data]
    case Deleted(p) => m' == m - {p}
    case _ => m' == m
  }

  /** A guard that stays keeps its page in its frame. */
  ghost predicate PinnedStay(s: Pool, s': Pool) {
    forall h {:trigger s'.guards[h]} :: h in s.guards && h in s'.guards ==>
      && s'.guards[h].page == s.guards[h].page
      && s.guards[h].page in s.table && s.guards[h].page in s'.table
      && s'.table[s.guards[h].page] == s.table[s.guards[h].page]
  }

  /** Every step of every interleaving keeps the invariant, refines the map of pages, leaves pinned pages
      where they are, and moves the flushed LSN only forward. */
  lemma StepKeeps(s: Pool, e: Event, s': Pool)
    requires Inv(s, None) && Next(s, e, s')
    ensures Inv(s', None) && MapStep(Contents(s), s, e, Contents(s'))
    ensures PinnedStay(s, s') && s.flushed <= s'.flushed && s.writes <= s'.writes
  {
    hide FramesInv, PagesInv, LogInv, GuardsInv, Contents, Obtained, BeingChanged;
    GuardsMapped(s);
    match e
    case Fetched(p, h, exclusive) => FetchKeeps(s, p, h, exclusive, s');
    case Created(p, h, zeros) => CreateStepKeeps(s, p, zeros, h, s');
    case Locked(h) => LockKeeps(s, h);
    case Wrote(h, data) => WriteKeeps(s, h, data);
    case Marked(h, lsn) => MarkDirtyKeeps(s, h, lsn);
    case Dropped(h) => DropKeeps(s, h);
    case Flushed(f) => WriteBackKeeps(s, f);
    case Deleted(p) => DeleteKeeps(s, p); DeletedUnpinned(s, p);
    case Synced(lsn) => RecordSyncKeeps(s, lsn);
    case Emptied(f) => EmptiedKeeps(s, f, s');
    case Refused =>
  }

  lemma DeletedUnpinned(s: Pool, p: nat)
    requires Inv(s, None) && (p in s.table ==> s.table[p] < |s.frames| && s.frames[s.table[p]].pins == 0)
    ensures forall h :: h in s.guards ==> s.guards[h].page != p
  {
    if p in s.table {
      assert EntryOk(s, p);
      assert FrameOk(s, s.table[p]);
      NoGuards(s.guards, p);
    } else {
      GuardsMapped(s);
    }
  }

  lemma FetchKeeps(s: Pool, p: nat, h: nat, exclusive: bool, s': Pool)
    requires Inv(s, None) && FetchStep(s, p, h, exclusive, s')
    ensures Inv(s', None) && Contents(s') == Contents(s)
    ensures PinnedStay(s, s') && s.flushed <= s'.flushed && s.writes <= s'.writes
  {
    hide FramesInv, PagesInv, LogInv, GuardsInv, Contents, Obtained;
    GuardsMapped(s);
    if p in s.table {
      PinKeeps(s, p, h, exclusive);
    } else {
      var f: nat, s1 :| Obtained(s, f, s1) && f < |s1.frames| && p in s1.disk && s' == Load(s1, f, p, h, exclusive);
      ObtainedKeeps(s, f, s1);
      LoadKeeps(s1, f, p, h, exclusive);
    }
  }

  lemma CreateStepKeeps(s: Pool, p: nat, zeros: Bytes, h: nat, s': Pool)
    requires Inv(s, None) && CreateStep(s, p, zeros, h, s')
    ensures Inv(s', None) && Contents(s') == Contents(s)[p := zeros]
    ensures PinnedStay(s, s') && s.flushed <= s'.flushed && s.writes <= s'.writes
  {
    hide FramesInv, PagesInv, LogInv, GuardsInv, Contents, Obtained;
    var f: nat, s1 :| Obtained(s, f, s1) && f < |s1.frames| && s' == Create(s1, f, p, zeros, h);
    ObtainedKeeps(s, f, s1);
    CreateKeeps(s1, f, p, zeros, h);
    MappedIsOnDisk(s);
  }

  lemma EmptiedKeeps(s: Pool, f: nat, s': Pool)
    requires Inv(s, None) && Next(s, Emptied(f), s')
    ensures Inv(s', None) && Contents(s') == Contents(s)
    ensures PinnedStay(s, s') && s.flushed <= s'.flushed && s.writes <= s'.writes
  {
    hide FramesInv, PagesInv, LogInv, GuardsInv, Contents, Obtained;
    var s1 :| Obtained(s, f, s1) && s' == PutBack(s1, f);
    ObtainedKeeps(s, f, s1);
    PutBackKeeps(s1, f);
  }

  // ── Runs ──

  ghost predicate StepHolds(s: Pool, e: Event, s': Pool) {
    MapStep(Contents(s), s, e, Contents(s')) && PinnedStay(s, s') && s.flushed <= s'.flushed
  }

  ghost predicate IsRun(states: seq<Pool>, events: seq<Event>) {
    && |states| == |events| + 1
    && forall i {:trigger events[i]} :: 0 <= i < |events| ==> Next(states[i], events[i], states[i + 1])
  }

  /** In every run, of any number of guard holders interleaved in any way: the pool refines the map of
      pages; no page was ever written to disk before the log that it depends on; the flushed LSN never
      went back. */
  lemma {:induction false} RunKeeps(states: seq<Pool>, events: seq<Event>, n: nat)
    requires IsRun(states, events) && Inv(states[0], None) && n <= |events|
    ensures Inv(states[n], None)
    ensures forall i {:trigger events[i]} :: 0 <= i < n ==> StepHolds(states[i], events[i], states[i + 1])
    ensures states[0].flushed <= states[n].flushed && states[0].writes <= states[n].writes
    ensures forall w :: w in states[n].writes ==> w.recorded <= w.flushed
  {
    hide Next, MapStep, PinnedStay, FramesInv, PagesInv, GuardsInv;
    if n > 0 {
      RunKeeps(states, events, n - 1);
      assert Next(states[n - 1], events[n - 1], states[n - 1 + 1]);
      StepKeeps(states[n - 1], events[n - 1], states[n]);
      assert StepHolds(states[n - 1], events[n - 1], states[n]);
    }
  }

  // ── What the invariant says ──

  /** Pins are guards, evictable means mapped without pins, no two frames have the same page, and the
      frames with a page and the free list share out all frames. */
  lemma FramesShared(s: Pool, f: nat, f2: nat)
    requires Inv(s, None) && f < |s.frames| && f2 < |s.frames|
    ensures s.frames[f].page.Some? ==> s.frames[f].pins == |GuardsOn(s.guards, s.frames[f].page.value)|
    ensures f in s.evictable <==> s.frames[f].page.Some? && s.frames[f].pins == 0
    ensures s.frames[f].page.Some? && s.frames[f2].page == s.frames[f].page ==> f == f2
    ensures f in s.free <==> f !in s.table.Values
  {
    assert FrameOk(s, f) && FrameOk(s, f2) && ListsOk(s, f, None);
    if f in s.table.Values {
      var p :| p in s.table && s.table[p] == f;
      assert EntryOk(s, p);
    }
  }

  /** A frame can be found unless every frame is pinned. */
  lemma FrameToBeHad(s: Pool)
    requires Inv(s, None)
    ensures s.free == [] && s.evictable == {} <==> forall f :: 0 <= f < |s.frames| ==> s.frames[f].pins > 0
  {
    forall f | 0 <= f < |s.frames| ensures s.frames[f].pins > 0 <==> f !in s.free && f !in s.evictable {
      assert ListsOk(s, f, None) && FrameOk(s, f);
    }
    if s.free != [] { assert s.free[0] in s.free; }
  }
}
