/** What a pool does for a client that holds fewer guards than there are frames. */
module PoolClient {
  import opened Wrappers
  import opened Keys
  import opened PoolModel

  /** No frame waits for the log, and no guard will make one wait. */
  ghost predicate Flushable(s: Pool) {
    && (forall f {:trigger s.frames[f]} :: 0 <= f < |s.frames| ==> s.frames[f].lsn <= s.flushed)
    && (forall h {:trigger s.guards[h]} :: h in s.guards ==> s.guards[h].lsn <= s.flushed)
  }

  // ── A frame is to be had ──

  /** When every frame is pinned there are at least as many guards as frames. */
  lemma PinnedByGuards(s: Pool)
    requires Inv(s, None) && forall f :: 0 <= f < |s.frames| ==> s.frames[f].pins > 0
    ensures |s.frames| <= |s.guards|
  {
    var owners := OwnersOf(s, |s.frames|);
    assert owners <= s.guards.Keys;
    SmallerSet(owners, s.guards.Keys);
  }

  /** A guard for each of the first n frames. */
  lemma {:induction false} OwnersOf(s: Pool, n: nat) returns (owners: set<nat>)
    requires Inv(s, None) && n <= |s.frames| && forall f :: 0 <= f < |s.frames| ==> s.frames[f].pins > 0
    ensures owners <= s.guards.Keys && |owners| == n
    ensures forall h :: h in owners ==> s.guards[h].page in s.table && s.table[s.guards[h].page] < n
  {
    if n == 0 { return {}; }
    owners := OwnersOf(s, n - 1);
    var f := n - 1;
    assert FrameOk(s, f) && s.frames[f].pins > 0;
    var p := s.frames[f].page.value;
    assert |GuardsOn(s.guards, p)| > 0;
    var h :| h in GuardsOn(s.guards, p);
    owners := owners + {h};
  }

  lemma {:induction false} SmallerSet(a: set<nat>, b: set<nat>)
    requires a <= b
    ensures |a| <= |b|
  {
    if a != {} {
      var x :| x in a;
      SmallerSet(a - {x}, b - {x});
    }
  }

  /** With fewer guards than frames some frame is free or evictable. */
  lemma SomeFrame(s: Pool)
    requires Inv(s, None) && |s.guards| < |s.frames|
    ensures s.free != [] || s.evictable != {}
  {
    FrameToBeHad(s);
    if s.free == [] && s.evictable == {} { PinnedByGuards(s); }
  }

  // ── Steps ──

  lemma ObtainedFlushable(s: Pool, f: nat, s': Pool)
    requires Inv(s, None) && Obtained(s, f, s') && Flushable(s)
    ensures Flushable(s') && s'.guards == s.guards && |s'.frames| == |s.frames|
  {
  }

  lemma PlacedFlushable(s: Pool, f: nat, fr: Frame, h: nat, g: Guard)
    requires Flushable(s) && f < |s.frames| && fr.lsn <= s.flushed && g.lsn <= s.flushed && h !in s.guards
    ensures var s' := Place(s, f, fr, h, g);
            && Flushable(s') && |s'.frames| == |s.frames|
            && h in s'.guards && s'.guards[h] == g && s'.guards - {h} == s.guards
  {
  }

  lemma PinnedFlushable(s: Pool, p: nat, h: nat, exclusive: bool)
    requires Flushable(s) && p in s.table && s.table[p] < |s.frames| && h !in s.guards
    ensures var s' := Pin(s, p, h, exclusive);
            && Flushable(s') && |s'.frames| == |s.frames|
            && h in s'.guards && s'.guards - {h} == s.guards
            && s'.guards[h].page == p && s'.guards[h].exclusive == exclusive && !s'.guards[h].held && !s'.guards[h].dirty
  {
    var fr := s.frames[s.table[p]];
    PlacedFlushable(s, s.table[p], fr.(pins := fr.pins + 1), h, Guard(p, exclusive, false, false, fr.lsn));
  }

  /** A page is fetched: one guard more, no page changed. */
  lemma Fetched(s: Pool, p: nat, h: nat, exclusive: bool, s': Pool)
    requires Inv(s, None) && Flushable(s) && FetchStep(s, p, h, exclusive, s')
    ensures Inv(s', None) && Flushable(s') && Contents(s') == Contents(s) && |s'.frames| == |s.frames|
    ensures h in s'.guards && s'.guards - {h} == s.guards
    ensures s'.guards[h].page == p && s'.guards[h].exclusive == exclusive && !s'.guards[h].held && !s'.guards[h].dirty
  {
    hide Inv, Contents, Obtained, Flushable, Place;
    FetchKeeps(s, p, h, exclusive, s');
    if p in s.table {
      PinnedFlushable(s, p, h, exclusive);
    } else {
      var f: nat, s1 :| Obtained(s, f, s1) && f < |s1.frames| && p in s1.disk && s' == Load(s1, f, p, h, exclusive);
      ObtainedFlushable(s, f, s1);
      PlacedFlushable(s1, f, Frame(Some(p), 1, false, 0, s1.disk[p]), h, Guard(p, exclusive, false, false, 0));
    }
  }

  /** A page is created: one guard more, and one page more, of zeros. */
  lemma Created(s: Pool, p: nat, zeros: Bytes, h: nat, s': Pool)
    requires Inv(s, None) && Flushable(s) && CreateStep(s, p, zeros, h, s')
    ensures Inv(s', None) && Flushable(s') && Contents(s') == Contents(s)[p := zeros] && |s'.frames| == |s.frames|
    ensures h in s'.guards && s'.guards - {h} == s.guards
    ensures s'.guards[h].page == p && s'.guards[h].exclusive && !s'.guards[h].held
  {
    hide Inv, Contents, Obtained, Flushable, Place;
    CreateStepKeeps(s, p, zeros, h, s');
    var f: nat, s1 :| Obtained(s, f, s1) && f < |s1.frames| && s' == Create(s1, f, p, zeros, h);
    ObtainedFlushable(s, f, s1);
    AddedFlushable(s1, p, zeros);
    PlacedFlushable(AddPage(s1, p, zeros), f, Frame(Some(p), 1, true, 0, zeros), h, Guard(p, true, false, true, 0));
  }

  lemma AddedFlushable(s: Pool, p: nat, zeros: Bytes)
    requires Flushable(s)
    ensures Flushable(AddPage(s, p, zeros))
  {
  }

  lemma WrittenFlushable(s: Pool, h: nat, data: Bytes)
    requires MayWrite(s, h) && s.guards[h].page in s.table && s.table[s.guards[h].page] < |s.frames| && Flushable(s)
    ensures Flushable(Write(s, h, data)) && |Write(s, h, data).frames| == |s.frames|
  {
  }

  lemma DroppedFlushable(s: Pool, h: nat)
    requires h in s.guards && s.guards[h].page in s.table && s.table[s.guards[h].page] < |s.frames| && Flushable(s)
    ensures Flushable(Drop(s, h)) && |Drop(s, h).frames| == |s.frames|
  {
  }

  lemma DeletedFlushable(s: Pool, p: nat)
    requires p in s.table ==> s.table[p] < |s.frames| && s.frames[s.table[p]].page == Some(p)
    requires Flushable(s)
    ensures Flushable(Delete(s, p)) && |Delete(s, p).frames| == |s.frames|
  {
  }
}
