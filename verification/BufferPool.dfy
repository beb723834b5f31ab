/** The buffer pool: a fixed number of frames over the pager, with pins, eviction and log-before-data.
    Each method is one section under the pool's lock, or one action of a guard. */
module BufferPool {
  import opened Wrappers
  import opened Keys
  import opened Pager
  import opened Replacer
  import opened PoolModel

  datatype PoolError = PagerFailed(error: PagerError) | NoFreeFrame | PagePinned(page: nat) | PageNotFound(page: nat)
    | WalNotSynced(page: nat, lsn: nat, flushed: nat) | WalSyncFailed
  datatype PoolResult<+T> = Done(value: T) | Failed(error: PoolError)

  /** Either replacement policy. */
  datatype Policy = Clock(clock: ClockReplacer) | LruK(lru: LruKReplacer) {
    function Objects(): set<object> {
      match this
      case Clock(r) => {r}
      case LruK(r) => {r}
    }

    function Capacity(): nat {
      if Clock? then clock.capacity else lru.capacity
    }

    ghost predicate Valid()
      reads Objects()
    {
      if Clock? then clock.Valid() else lru.Valid()
    }

    ghost function Unpinned(): set<nat>
      reads Objects()
    {
      if Clock? then clock.Unpinned() else lru.Unpinned()
    }

    function Kind(): Kind {
      if Clock? then ClockOf(clock.capacity) else LruKOf(lru.k)
    }

    /** The policy knows of all the uses in the log, and of no others. */
    ghost predicate Follows(log: seq<Use>)
      reads Objects()
    {
      if Clock? then clock.capacity > 0 && Dial(clock.hand, clock.referenced) == DialAfter(log, clock.capacity)
      else
        && lru.currentTimestamp == UseCount(log) && |lru.accesses| == lru.capacity
        && forall f {:trigger lru.accesses[f]} :: 0 <= f < lru.capacity ==> lru.accesses[f] == UseTimes(log, f)
    }

    lemma FollowsNothing()
      requires Valid()
      requires if Clock? then clock.hand == 0 && forall f :: 0 <= f < clock.capacity ==> !clock.referenced[f]
               else lru.currentTimestamp == 0 && forall f :: 0 <= f < lru.capacity ==> lru.accesses[f] == []
      ensures Follows([])
    {
      if Clock? { assert clock.referenced == seq(clock.capacity, i => false); }
    }

    /** The frame that comes next. */
    ghost predicate Picks(v: nat)
      reads Objects()
    {
      if Clock? then ClockPick(clock.hand, clock.referenced, clock.pinned, v) else LruKChoice(lru.k, lru.history, lru.pinned, v)
    }

    lemma PicksUnique(v: nat, w: nat)
      requires Picks(v) && Picks(w)
      ensures v == w
    {
      if Clock? {
        ClockPickUnique(clock.hand, clock.referenced, clock.pinned, v, w);
      } else {
        LruKChoiceUnique(lru.k, lru.history, lru.pinned, v, w);
      }
    }

    lemma PicksOne()
      ensures forall v: nat, w: nat {:trigger Picks(v), Picks(w)} :: Picks(v) && Picks(w) ==> v == w
    {
      forall v: nat, w: nat | Picks(v) && Picks(w) ensures v == w { PicksUnique(v, w); }
    }

    method Victim(ghost log: seq<Use>) returns (r: Option<nat>)
      requires Valid() && Follows(log)
      modifies Objects()
      ensures r.Some? ==> old(Picks(r.value))
      ensures Valid() && (r.None? <==> old(Unpinned()) == {})
      ensures r.None? ==> Unpinned() == old(Unpinned()) && Follows(log)
      ensures r.Some? ==> r.value in old(Unpinned()) && Unpinned() == old(Unpinned()) - {r.value}
      ensures r.Some? ==> Prescribed(Kind(), log, old(Unpinned()), r.value) && Follows(log + [Sought(old(Unpinned()), r.value)])
    {
      match this {
        case Clock(c) => r := ClockVictim(c, log);
        case LruK(l) => r := LruKVictim(l, log);
      }
    }

    static method ClockVictim(c: ClockReplacer, ghost log: seq<Use>) returns (r: Option<nat>)
      requires c.Valid() && Clock(c).Follows(log)
      modifies c
      ensures c.Valid() && (r.None? <==> old(c.Unpinned()) == {}) && (r.None? ==> unchanged(c))
      ensures r.Some? ==> old(ClockPick(c.hand, c.referenced, c.pinned, r.value))
      ensures r.Some? ==> r.value in old(c.Unpinned()) && c.Unpinned() == old(c.Unpinned()) - {r.value}
      ensures r.Some? ==> Prescribed(ClockOf(c.capacity), log, old(c.Unpinned()), r.value)
                          && Clock(c).Follows(log + [Sought(old(c.Unpinned()), r.value)])
    {
      hide ClockPick, DialAfter, UnpinnedIn, NextDial, BitsAfter;
      ghost var d, pinned := Dial(c.hand, c.referenced), c.pinned;
      r := c.Victim();
      if r.Some? {
        PinnedAre(pinned);
        ChoiceIsPick(d, pinned, r.value, c.referenced);
        SweptDial(d, pinned, r.value, c.referenced);
        UseMore(log, Sought(UnpinnedIn(pinned), r.value), c.capacity);
      }
    }

    static method LruKVictim(l: LruKReplacer, ghost log: seq<Use>) returns (r: Option<nat>)
      requires l.Valid() && LruK(l).Follows(log)
      modifies l
      ensures l.Valid() && (r.None? <==> old(l.Unpinned()) == {}) && (r.None? ==> unchanged(l))
      ensures r.Some? ==> old(LruKChoice(l.k, l.history, l.pinned, r.value))
      ensures r.Some? ==> r.value in old(l.Unpinned()) && l.Unpinned() == old(l.Unpinned()) - {r.value}
      ensures r.Some? ==> Prescribed(LruKOf(l.k), log, old(l.Unpinned()), r.value)
                          && LruK(l).Follows(log + [Sought(old(l.Unpinned()), r.value)])
    {
      hide LruKChoice, UseTimes, UseCount, UnpinnedIn, LastK, Increasing;
      ghost var history, pinned := l.history, l.pinned;
      assert forall f :: 0 <= f < |history| ==> history[f] == LastK(UseTimes(log, f), l.k);
      r := l.Victim();
      if r.Some? {
        ChosenIsPrescribed(l.k, history, pinned, r.value, log);
        UseMore(log, Sought(UnpinnedIn(pinned), r.value), 1);
      }
    }

    method Pin(f: nat, ghost log: seq<Use>)
      requires Valid() && Follows(log)
      modifies Objects()
      ensures Valid() && Unpinned() == old(Unpinned()) - {f} && Follows(log)
    {
      match this {
        case Clock(c) => c.Pin(f);
        case LruK(l) => l.Pin(f);
      }
    }

    method Unpin(f: nat, ghost log: seq<Use>)
      requires Valid() && f < Capacity() && Follows(log)
      modifies Objects()
      ensures Valid() && Unpinned() == old(Unpinned()) + {f} && Follows(log)
    {
      match this {
        case Clock(c) => c.Unpin(f);
        case LruK(l) => l.Unpin(f);
      }
    }

    method RecordAccess(f: nat, ghost page: nat, ghost log: seq<Use>)
      requires Valid() && f < Capacity() && Follows(log)
      modifies Objects()
      ensures Valid() && Unpinned() == old(Unpinned()) && Follows(log + [Used(f, page)])
    {
      hide UseTimes, UseCount, DialAfter;
      UseMore(log, Used(f, page), if Capacity() > 0 then Capacity() else 1);
      match this {
        case Clock(c) => c.RecordAccess(f);
        case LruK(l) => l.RecordAccess(f);
      }
    }

    method Remove(f: nat, ghost log: seq<Use>)
      requires Valid() && f < Capacity() && Follows(log)
      modifies Objects()
      ensures Valid() && Unpinned() == old(Unpinned()) - {f} && Follows(log + [Forgot(f)])
    {
      hide UseTimes, UseCount, DialAfter;
      UseMore(log, Forgot(f), if Capacity() > 0 then Capacity() else 1);
      match this {
        case Clock(c) => c.Remove(f);
        case LruK(l) => l.Remove(f);
      }
    }
  }

  /** What providing a frame tells the policy: nothing when one was free, the one freed last; else a victim is sought, and it
      loses its page. */
  ghost predicate Provided(free: seq<nat>, evictable: set<nat>, f: nat, before: seq<Use>, after: seq<Use>) {
    if free != [] then f == free[|free| - 1] && after == before
    else after == before + [Sought(evictable, f)] + [Forgot(f)]
  }

  /** No use of a page was recorded. */
  ghost predicate Unused(before: seq<Use>, after: seq<Use>) {
    before <= after && forall i :: |before| <= i < |after| ==> !after[i].Used?
  }

  lemma NothingUsed(log: seq<Use>)
    ensures Unused(log, log)
  {
  }

  lemma ProvidedUnused(free: seq<nat>, evictable: set<nat>, f: nat, before: seq<Use>, after: seq<Use>)
    requires Provided(free, evictable, f, before, after)
    ensures Unused(before, after)
  {
  }

  class BufferPool {
    const pager: Pager
    const replacer: Policy
    const hasHook: bool
    var frames: seq<Frame>
    var pageTable: map<nat, nat>
    var freeList: seq<nat>
    var flushedWalSeq: nat
    /** The guards that clients hold, by a number of their own. */
    var guards: map<nat, Guard>
    var nextGuard: nat
    /** The largest LSN recorded by a dropped dirty guard for each page, and the page writes so far. */
    ghost var recorded: map<nat, nat>
    ghost var writes: seq<PageWrite>
    /** What the policy was told and asked so far. */
    ghost var uses: seq<Use>

    function Objects(): set<object> {
      {this, pager} + replacer.Objects()
    }

    ghost function View(): Pool
      reads Objects()
    {
      Pool(frames, pageTable, freeList, replacer.Unpinned(), guards, pager.Disk(), flushedWalSeq, recorded, writes)
    }

    lemma ViewParts()
      ensures View().frames == frames && View().guards == guards && View().disk == pager.Disk()
    {
    }

    ghost predicate Sized()
      reads Objects()
    {
      && {this, pager} !! replacer.Objects() && {this} !! {pager}
      && pager.Valid() && replacer.Valid() && replacer.Capacity() == |frames|
      && replacer.Follows(uses) && AllPrescribed(replacer.Kind(), uses)
      && (forall f {:trigger frames[f]} :: 0 <= f < |frames| ==> |frames[f].data| == pager.pageSize)
      && (forall h {:trigger h in guards} :: h in guards ==> h < nextGuard)
    }

    ghost predicate Valid()
      reads Objects()
    {
      Sized() && Inv(View(), None)
    }

    constructor (pager: Pager, policy: Policy, capacity: nat, hasHook: bool)
      requires pager.Valid() && policy.Valid() && capacity > 0 && policy.Capacity() == capacity && policy.Unpinned() == {}
      requires pager !in policy.Objects() && policy.Follows([])
      ensures Valid() && this.pager == pager && replacer == policy && this.hasHook == hasHook
      ensures |frames| == capacity && Contents(View()) == pager.Disk() && flushedWalSeq == pager.walSeq && guards == map[]
      ensures (forall f :: 0 <= f < |frames| ==> frames[f].lsn == 0) && uses == []
      ensures pageTable == map[] && |freeList| == capacity && forall i :: 0 <= i < capacity ==> freeList[i] == capacity - 1 - i
    {
      this.pager := pager;
      replacer := policy;
      this.hasHook := hasHook;
      frames := seq(capacity, i => Frame(None, 0, false, 0, Zeros(pager.pageSize)));
      pageTable := map[];
      freeList := seq(capacity, i requires 0 <= i < capacity => capacity - 1 - i);
      flushedWalSeq := pager.walSeq;
      guards := map[];
      nextGuard := 0;
      recorded := map p | p in pager.Disk() :: 0;
      writes := [];
      uses := [];
      new;
      EmptyPool(frames, freeList, pager.Disk(), flushedWalSeq, recorded);
    }

    // ── Finding a frame ──

    /** The log is flushed that far, or the hook can make it so. */
    ghost predicate LogReady(lsn: nat, answer: nat -> bool)
      reads this
    {
      lsn <= flushedWalSeq || (hasHook && answer(lsn))
    }

    /** A dirty frame that cannot be written back, for want of the log. */
    ghost predicate Stuck(f: nat, answer: nat -> bool)
      reads this
    {
      f < |frames| && frames[f].dirty && !LogReady(frames[f].lsn, answer)
    }

    /** No frame is free, and there is none to evict or the one that comes next is stuck. */
    ghost predicate Blocked(answer: nat -> bool)
      reads Objects()
    {
      freeList == [] && (replacer.Unpinned() == {} || exists f: nat :: replacer.Picks(f) && Stuck(f, answer))
    }

    /** The log is flushed at least as far as the page needs, or is made to be by the hook. */
    method EnforceWalInvariant(page: nat, lsn: nat, answer: nat -> bool) returns (r: PoolResult<()>)
      modifies `flushedWalSeq
      ensures r.Done? ==> flushedWalSeq == PoolModel.Max(old(flushedWalSeq), lsn)
      ensures r.Failed? ==> flushedWalSeq == old(flushedWalSeq) && lsn > flushedWalSeq
                            && r.error == if hasHook then WalSyncFailed else WalNotSynced(page, lsn, flushedWalSeq)
      ensures r.Done? <==> old(LogReady(lsn, answer))
    {
      if lsn > flushedWalSeq {
        if hasHook {
          if !answer(lsn) { return Failed(WalSyncFailed); }
          flushedWalSeq := PoolModel.Max(flushedWalSeq, lsn);
        } else {
          return Failed(WalNotSynced(page, lsn, flushedWalSeq));
        }
      }
      return Done(());
    }

    /** The state, with the frames that were evictable before a victim was chosen. */
    ghost function ViewWith(evictable: set<nat>): Pool
      reads Objects()
    {
      View().(evictable := evictable)
    }

    /** Writes a dirty frame to disk, log first. */
    method WriteFrame(f: nat, answer: nat -> bool, ghost evictable: set<nat>) returns (r: PoolResult<()>)
      requires Sized() && Inv(ViewWith(evictable), None) && f < |frames| && frames[f].page.Some? && frames[f].dirty
      modifies this, pager`pages
      ensures old(frames[f]).page.value in old(recorded)
      ensures r.Done? ==> ViewWith(evictable) == WriteBack(old(ViewWith(evictable)), f)
      ensures r.Failed? ==> View() == old(View()) && (r.error.WalNotSynced? || r.error.WalSyncFailed?)
      ensures r.Failed? <==> old(Stuck(f, answer))
      ensures Sized() && nextGuard == old(nextGuard) && uses == old(uses)
    {
      hide FramesInv, PagesInv, GuardsInv, LogInv, Contents, pager.Valid, pager.Sized, replacer.Valid, replacer.Follows, AllPrescribed, replacer.Unpinned;
      FrameFacts(ViewWith(evictable), f);
      r := EnforceWalInvariant(frames[f].page.value, frames[f].lsn, answer);
      if r.Done? { SaveFrame(f); }
    }

    /** The log has been flushed far enough; the page is written and the frame is clean. */
    method SaveFrame(f: nat)
      requires Sized() && f < |frames| && frames[f].page.Some? && frames[f].page.value in pager.Disk()
      requires frames[f].page.value in recorded
      modifies `frames, `writes, pager`pages
      ensures Sized() && frames == old(frames)[f := old(frames[f]).(dirty := false)]
      ensures pager.Disk() == old(pager.Disk())[old(frames[f]).page.value := old(frames[f]).data]
      ensures writes == old(writes) + [PageWrite(old(frames[f]).page.value, recorded[old(frames[f]).page.value], flushedWalSeq)]
      ensures replacer.Unpinned() == old(replacer.Unpinned())
    {
      hide pager.Valid, replacer.Valid, replacer.Follows, AllPrescribed, replacer.Unpinned;
      var fr := frames[f];
      var page := fr.page.value;
      var written := pager.WritePage(page, fr.data);
      frames := frames[f := fr.(dirty := false)];
      writes := writes + [PageWrite(page, recorded[page], flushedWalSeq)];
    }

    /** A free frame, or a victim whose page is written back if need be. When the log cannot be synced the
        victim keeps its page, its contents and its dirty bit, and can be evicted later. */
    method FindAvailableFrame(answer: nat -> bool) returns (r: PoolResult<nat>)
      requires Valid()
      modifies Objects()
      ensures Sized() && guards == old(guards) && nextGuard == old(nextGuard)
      ensures r.Done? ==> r.value < |frames| && Obtained(old(View()), r.value, View())
      ensures r.Failed? ==> View() == old(View()) && (r.error.NoFreeFrame? || r.error.WalNotSynced? || r.error.WalSyncFailed?)
      ensures r == Failed(NoFreeFrame) <==> old(freeList) == [] && old(replacer.Unpinned()) == {}
      ensures r.Failed? <==> old(Blocked(answer))
      ensures pager.free == old(pager.free) && pager.pageCount == old(pager.pageCount)
      ensures r.Done? ==> Provided(old(freeList), old(replacer.Unpinned()), r.value, old(uses), uses)
      ensures r.Failed? ==> Unused(old(uses), uses)
    {
      hide FramesInv, PagesInv, GuardsInv, LogInv, Contents, pager.Valid, pager.Sized, replacer.Valid, replacer.Follows, AllPrescribed, replacer.Unpinned,
           replacer.Picks, Prescribed, UnpinnedIn;
      ghost var s := View();
      ListsBounded(s);
      if freeList != [] {
        var f := freeList[|freeList| - 1];
        freeList := freeList[..|freeList| - 1];
        return Done(f);
      }
      replacer.PicksOne();
      ghost var uses0 := uses;
      var victim := replacer.Victim(uses);
      if victim.None? { return Failed(NoFreeFrame); }
      var f := victim.value;
      OneMorePrescribed(replacer.Kind(), uses, Sought(s.evictable, f));
      uses := uses + [Sought(s.evictable, f)];
      assert f in s.evictable;
      r := EvictVictim(f, answer, s.evictable);
    }

    /** The part of finding a frame after the victim is chosen. */
    method EvictVictim(f: nat, answer: nat -> bool, ghost evictable: set<nat>) returns (r: PoolResult<nat>)
      requires Sized() && Inv(ViewWith(evictable), None) && f in evictable && f < |frames|
      requires frames[f].page.Some? && replacer.Unpinned() == evictable - {f} && freeList == []
      modifies Objects()
      ensures Sized() && guards == old(guards) && nextGuard == old(nextGuard)
      ensures r.Done? ==> r.value == f && Obtained(old(ViewWith(evictable)), f, View())
      ensures r.Failed? ==> View() == old(ViewWith(evictable)) && (r.error.WalNotSynced? || r.error.WalSyncFailed?)
      ensures r.Failed? <==> old(Stuck(f, answer))
      ensures pager.free == old(pager.free) && pager.pageCount == old(pager.pageCount)
      ensures uses == old(uses) + if r.Done? then [Forgot(f)] else []
    {
      hide FramesInv, PagesInv, GuardsInv, LogInv, Contents, pager.Valid, pager.Sized, replacer.Valid, replacer.Follows, AllPrescribed, replacer.Unpinned;
      ghost var s := ViewWith(evictable);
      if frames[f].dirty {
        var written := WriteFrame(f, answer, evictable);
        if written.Failed? {
          replacer.Unpin(f, uses);
          assert evictable - {f} + {f} == evictable;
          return Failed(written.error);
        }
      }
      UnmapFrame(f, evictable);
      return Done(f);
    }

    method UnmapFrame(f: nat, ghost evictable: set<nat>)
      requires Sized() && f < |frames| && frames[f].page.Some? && replacer.Unpinned() == evictable - {f}
      modifies Objects()
      ensures Sized() && guards == old(guards) && nextGuard == old(nextGuard)
      ensures View() == Unmap(old(ViewWith(evictable)), f)
      ensures pager.free == old(pager.free) && pager.pageCount == old(pager.pageCount)
      ensures uses == old(uses) + [Forgot(f)]
    {
      hide pager.Valid, pager.Sized, replacer.Valid, replacer.Follows, AllPrescribed, replacer.Unpinned;
      var page := frames[f].page.value;
      pageTable := pageTable - {page};
      frames := frames[f := frames[f].(page := None)];
      replacer.Remove(f, uses);
      OneMorePrescribed(replacer.Kind(), uses, Forgot(f));
      uses := uses + [Forgot(f)];
      assert replacer.Unpinned() == evictable - {f};
    }

    // ── Fetching and creating pages ──

    /** Pins a page for a guard. Only allocated pages may be asked for. */
    method PinPage(page: nat, exclusive: bool, answer: nat -> bool) returns (r: PoolResult<nat>)
      requires Valid() && (page < pager.pageCount ==> page in pager.Disk())
      modifies Objects()
      ensures Valid()
      ensures page >= old(pager.pageCount) ==> r == Failed(PagerFailed(OutOfRange(page))) && View() == old(View())
      ensures r.Done? ==> r.value == old(nextGuard) && FetchStep(old(View()), page, r.value, exclusive, View())
      ensures r.Failed? ==> View() == old(View())
      ensures r == Failed(NoFreeFrame) ==> page !in old(pageTable) && old(freeList) == [] && old(replacer.Unpinned()) == {}
      ensures page < old(pager.pageCount) ==> (r.Failed? <==> page !in old(pageTable) && old(Blocked(answer)))
      ensures pager.free == old(pager.free) && pager.pageCount == old(pager.pageCount)
      ensures r.Done? && page in old(pageTable) ==>
                page in pageTable && pageTable[page] == old(pageTable)[page] && uses == old(uses) + [Used(pageTable[page], page)]
      ensures r.Done? && page !in old(pageTable) ==> page in pageTable && exists found: seq<Use> ::
                Provided(old(freeList), old(replacer.Unpinned()), pageTable[page], old(uses), found) && uses == found + [Used(pageTable[page], page)]
      ensures r.Done? && page !in old(pageTable) && old(freeList) == [] ==>
                Prescribed(replacer.Kind(), old(uses), old(replacer.Unpinned()), pageTable[page])
      ensures r.Failed? ==> Unused(old(uses), uses)
    {
      hide FramesInv, PagesInv, GuardsInv, LogInv, Contents, pager.Valid, pager.Sized, replacer.Valid, replacer.Follows, AllPrescribed, replacer.Unpinned,
           Obtained, Blocked, Prescribed;
      ghost var s := View();
      NothingUsed(uses);
      if page >= pager.pageCount { return Failed(PagerFailed(OutOfRange(page))); }
      var h := nextGuard;
      if page in pageTable {
        PinKeeps(s, page, h, exclusive);
        PinMapped(page, exclusive);
        return Done(h);
      }
      var found := FindAvailableFrame(answer);
      if found.Failed? { return Failed(found.error); }
      ghost var s1 := View();
      ObtainedKeeps(s, found.value, s1);
      LoadKeeps(s1, found.value, page, h, exclusive);
      LoadFrame(found.value, page, exclusive);
      if s.free == [] { PrescribedThen(replacer.Kind(), old(uses), s.evictable, found.value, uses); }
      return Done(h);
    }

    /** The page has a frame already. */
    method PinMapped(page: nat, exclusive: bool)
      requires Sized() && page in pageTable && pageTable[page] < |frames|
      modifies Objects()
      ensures Sized() && View() == Pin(old(View()), page, old(nextGuard), exclusive)
      ensures pager.free == old(pager.free) && pager.pageCount == old(pager.pageCount)
      ensures pageTable == old(pageTable) && uses == old(uses) + [Used(pageTable[page], page)]
    {
      hide pager.Valid, pager.Sized, replacer.Valid, replacer.Follows, AllPrescribed, replacer.Unpinned;
      ghost var s := View();
      var f := pageTable[page];
      frames := frames[f := frames[f].(pins := frames[f].pins + 1)];
      TellUse(f, page);
      AddGuard(Guard(page, exclusive, false, false, frames[f].lsn));
      assert s.table[page := f] == s.table;
    }

    /** The page is read into the frame found for it. */
    method LoadFrame(f: nat, page: nat, exclusive: bool)
      requires Sized() && f < |frames| && page in pager.Disk()
      modifies Objects()
      ensures Sized() && View() == Load(old(View()), f, page, old(nextGuard), exclusive)
      ensures pager.free == old(pager.free) && pager.pageCount == old(pager.pageCount)
      ensures page in pageTable && pageTable[page] == f && uses == old(uses) + [Used(f, page)]
    {
      hide pager.Valid, pager.Sized, pager.Disk, replacer.Valid, replacer.Follows, AllPrescribed, replacer.Unpinned;
      var data := pager.Read(page);
      frames := frames[f := Frame(Some(page), 1, false, 0, data.value)];
      pageTable := pageTable[page := f];
      TellUse(f, page);
      AddGuard(Guard(page, exclusive, false, false, 0));
    }

    /** The frame was used, and is pinned. */
    method TellUse(f: nat, ghost page: nat)
      requires replacer.Valid() && replacer.Follows(uses) && AllPrescribed(replacer.Kind(), uses) && f < replacer.Capacity()
      requires this !in replacer.Objects() && pager !in replacer.Objects()
      modifies `uses, replacer.Objects()
      ensures replacer.Valid() && replacer.Follows(uses) && AllPrescribed(replacer.Kind(), uses)
      ensures uses == old(uses) + [Used(f, page)] && replacer.Unpinned() == old(replacer.Unpinned()) - {f}
    {
      hide replacer.Valid, replacer.Follows, replacer.Unpinned, AllPrescribed;
      OneMorePrescribed(replacer.Kind(), uses, Used(f, page));
      replacer.RecordAccess(f, page, uses);
      uses := uses + [Used(f, page)];
      replacer.Pin(f, uses);
    }

    /** Allocates a page on disk and pins it, all zeros, in a frame found before. When the pager has no page
        to give, the frame goes to the free list. */
    method NewPage(answer: nat -> bool) returns (r: PoolResult<(nat, nat)>)
      requires Valid()
      modifies Objects()
      ensures Valid()
      ensures r.Done? ==> r.value.1 == old(nextGuard)
                          && CreateStep(old(View()), r.value.0, Zeros(pager.pageSize), r.value.1, View())
      ensures r.Failed? && r.error.PagerFailed? ==> exists f: nat :: Next(old(View()), Emptied(f), View())
      ensures r.Failed? && !r.error.PagerFailed? ==> View() == old(View())
      ensures r.Failed? && !r.error.PagerFailed? <==> old(Blocked(answer))
      ensures r.Failed? && r.error.PagerFailed? <==> !old(Blocked(answer)) && old(pager.free) == [] && old(pager.pageCount) >= MAX_U64
      ensures r.Failed? ==> pager.free == old(pager.free) && pager.pageCount == old(pager.pageCount)
      ensures r.Done? && old(pager.free) != [] ==>
                r.value.0 == old(pager.free)[0] && pager.free == old(pager.free)[1..] && pager.pageCount == old(pager.pageCount)
      ensures r.Done? && old(pager.free) == [] ==>
                r.value.0 == old(pager.pageCount) && pager.free == [] && pager.pageCount == old(pager.pageCount) + 1
      ensures r == Failed(NoFreeFrame) <==> old(freeList) == [] && old(replacer.Unpinned()) == {}
      ensures r.Done? ==> var page := r.value.0; page in pageTable && exists found: seq<Use> ::
                Provided(old(freeList), old(replacer.Unpinned()), pageTable[page], old(uses), found) && uses == found + [Used(pageTable[page], page)]
      ensures r.Done? && old(freeList) == [] ==>
                Prescribed(replacer.Kind(), old(uses), old(replacer.Unpinned()), pageTable[r.value.0])
      ensures r.Failed? ==> Unused(old(uses), uses)
    {
      hide FramesInv, PagesInv, GuardsInv, LogInv, Contents, pager.Valid, pager.Sized, replacer.Valid, replacer.Follows, AllPrescribed, replacer.Unpinned,
           Obtained, Blocked, Prescribed;
      ghost var s := View();
      var found := FindAvailableFrame(answer);
      if found.Failed? { return Failed(found.error); }
      var f := found.value;
      ghost var s1 := View();
      ObtainedKeeps(s, f, s1);
      var page := AllocOnDisk();
      if page.Err? {
        freeList := freeList + [f];
        ProvidedUnused(old(freeList), s.evictable, f, old(uses), uses);
        PutBackKeeps(s1, f);
        assert View() == PutBack(s1, f);
        assert Next(s, Emptied(f), View());
        return Failed(PagerFailed(page.error));
      }
      var h := nextGuard;
      CreateKeeps(s1, f, page.value, Zeros(pager.pageSize), h);
      CreateFrame(f, page.value);
      if s.free == [] { PrescribedThen(replacer.Kind(), old(uses), s.evictable, f, uses); }
      return Done((page.value, h));
    }

    /** The pager's part of it. */
    method AllocOnDisk() returns (page: PagerResult<nat>)
      requires Sized()
      modifies pager
      ensures Sized()
      ensures page.Ok? ==> page.value !in old(pager.Disk())
                           && View() == old(View()).(disk := old(pager.Disk())[page.value := Zeros(pager.pageSize)])
      ensures page.Err? ==> View() == old(View()) && pager.free == old(pager.free) && pager.pageCount == old(pager.pageCount)
      ensures page.Err? <==> old(pager.free) == [] && old(pager.pageCount) >= MAX_U64
      ensures page.Ok? && old(pager.free) != [] ==>
                page.value == old(pager.free)[0] && pager.free == old(pager.free)[1..] && pager.pageCount == old(pager.pageCount)
      ensures page.Ok? && old(pager.free) == [] ==>
                page.value == old(pager.pageCount) && pager.free == [] && pager.pageCount == old(pager.pageCount) + 1
    {
      hide pager.Valid, pager.Sized, replacer.Valid, replacer.Follows, AllPrescribed, replacer.Unpinned;
      page := pager.Alloc();
    }

    method CreateFrame(f: nat, page: nat)
      requires Sized() && f < |frames|
      modifies Objects() - {pager}
      ensures Sized()
      ensures View() == Place(old(View()).(recorded := old(recorded)[page := 0]), f, Frame(Some(page), 1, true, 0, Zeros(pager.pageSize)),
                              old(nextGuard), Guard(page, true, false, true, 0))
      ensures page in pageTable && pageTable[page] == f && uses == old(uses) + [Used(f, page)]
    {
      hide pager.Valid, pager.Sized, replacer.Valid, replacer.Follows, AllPrescribed, replacer.Unpinned;
      frames := frames[f := Frame(Some(page), 1, true, 0, Zeros(pager.pageSize))];
      pageTable := pageTable[page := f];
      recorded := recorded[page := 0];
      TellUse(f, page);
      AddGuard(Guard(page, true, false, true, 0));
    }

    // ── Guards ──

    /** A guard gets its page's lock, when no other guard is in the way. */
    method LockGuard(h: nat)
      requires Valid() && CanLock(View(), h)
      modifies `guards
      ensures Valid() && View() == LockPage(old(View()), h)
    {
      LockKeeps(View(), h);
      guards := guards[h := guards[h].(held := true)];
    }

    /** The page of a guard that has its lock, as its bytes. */
    method ReadThrough(h: nat) returns (data: Bytes)
      requires Valid() && h in guards && guards[h].held && guards[h].page in pager.Disk()
      ensures data == Contents(View())[guards[h].page] && |data| == pager.pageSize
    {
      hide pager.Valid, pager.Sized, replacer.Valid, replacer.Follows, AllPrescribed, replacer.Unpinned;
      ghost var s := View();
      assert GuardOk(s, h);
      EntryFacts(s, guards[h].page);
      data := frames[pageTable[guards[h].page]].data;
    }

    method WriteThrough(h: nat, data: Bytes)
      requires Valid() && MayWrite(View(), h) && |data| == pager.pageSize
      modifies `guards, `frames
      ensures Valid() && guards.Keys == old(guards).Keys
      ensures Next(old(View()), Wrote(h, data), View())
      ensures Contents(View()) == Contents(old(View()))[old(guards)[h].page := data]
    {
      hide FramesInv, PagesInv, GuardsInv, LogInv, Contents, pager.Valid, pager.Sized, replacer.Valid, replacer.Follows, AllPrescribed, replacer.Unpinned;
      ghost var s := View();
      WriteKeeps(s, h, data);
      var f := pageTable[guards[h].page];
      frames := frames[f := frames[f].(data := data)];
      guards := guards[h := guards[h].(dirty := true)];
      assert View() == PoolModel.Write(s, h, data);
    }

    method MarkGuardDirty(h: nat, lsn: nat)
      requires Valid() && MayWrite(View(), h)
      modifies `guards
      ensures Valid() && View() == MarkDirty(old(View()), h, lsn)
    {
      MarkDirtyKeeps(View(), h, lsn);
      guards := guards[h := guards[h].(dirty := true, lsn := PoolModel.Max(guards[h].lsn, lsn))];
    }

    /** Takes one pin from a page, recording dirtiness and LSN; the last pin makes the frame evictable. */
    method UnpinPage(page: nat, dirty: bool, lsn: nat) returns (r: PoolResult<()>)
      requires Sized() && (page in pageTable ==> pageTable[page] < |frames|)
      modifies `frames, replacer.Objects()
      ensures Sized()
      ensures r == if page in pageTable then Done(()) else Failed(PageNotFound(page))
      ensures r.Failed? ==> frames == old(frames) && replacer.Unpinned() == old(replacer.Unpinned())
      ensures r.Done? ==>
                var fr := old(frames)[pageTable[page]];
                var fr1 := if dirty then fr.(dirty := true, lsn := PoolModel.Max(fr.lsn, lsn)) else fr;
                && frames == old(frames)[pageTable[page] := fr1.(pins := if fr.pins <= 1 then 0 else fr.pins - 1)]
                && replacer.Unpinned() == old(replacer.Unpinned()) + if fr.pins <= 1 then {pageTable[page]} else {}
    {
      if page !in pageTable { return Failed(PageNotFound(page)); }
      var f := pageTable[page];
      var fr := frames[f];
      if dirty { fr := fr.(dirty := true, lsn := PoolModel.Max(fr.lsn, lsn)); }
      var oldPins := fr.pins;
      if oldPins <= 1 {
        frames := frames[f := fr.(pins := 0)];
        replacer.Unpin(f, uses);
      } else {
        frames := frames[f := fr.(pins := oldPins - 1)];
      }
      return Done(());
    }

    /** A guard goes out of scope. */
    method DropGuard(h: nat)
      requires Valid() && h in guards
      modifies Objects() - {pager}
      ensures Valid() && Next(old(View()), Dropped(h), View())
      ensures h !in guards && nextGuard == old(nextGuard) && uses == old(uses)
    {
      hide FramesInv, PagesInv, GuardsInv, LogInv, Contents, pager.Valid, pager.Sized, replacer.Valid, replacer.Follows, AllPrescribed, replacer.Unpinned;
      ghost var s := View();
      DropKeeps(s, h);
      var g := guards[h];
      var unpinned := UnpinPage(g.page, g.dirty, g.lsn);
      guards := guards - {h};
      recorded := if g.dirty && g.page in recorded then recorded[g.page := PoolModel.Max(recorded[g.page], g.lsn)] else recorded;
      assert View() == Drop(s, h);
    }

    // ── Flushing and deleting ──

    /** Writes a page's frame back if it is dirty. The page must not be locked for writing. */
    method FlushPage(page: nat, answer: nat -> bool) returns (r: PoolResult<()>)
      requires Valid() && forall h :: h in guards && guards[h].page == page ==> !MayWrite(View(), h)
      modifies this, pager
      ensures Valid() && guards == old(guards) && pageTable == old(pageTable) && uses == old(uses)
      ensures r.Done? ==> if MappedDirty(old(View()), page) then Next(old(View()), Flushed(pageTable[page]), View())
                          else View() == old(View())
      ensures r.Failed? ==> View() == old(View()) && (r.error.WalNotSynced? || r.error.WalSyncFailed?)
      ensures r.Failed? <==> page in pageTable && old(Stuck(pageTable[page], answer))
    {
      hide FramesInv, PagesInv, GuardsInv, LogInv, Contents, pager.Valid, pager.Sized, replacer.Valid, replacer.Follows, AllPrescribed, replacer.Unpinned;
      if page !in pageTable { return Done(()); }
      ghost var s := View();
      EntryFacts(s, page);
      var f := pageTable[page];
      if !frames[f].dirty { return Done(()); }
      WriteBackKeeps(s, f);
      r := WriteFrame(f, answer, s.evictable);
    }

    /** One page of those still to be written back. */
    method FlushNext(page: nat, ghost todo: set<nat>, answer: nat -> bool) returns (r: PoolResult<()>)
      requires Valid() && (forall h :: h in guards ==> !MayWrite(View(), h)) && page in pageTable && Cleaned(View(), todo)
      modifies this, pager
      ensures Valid() && guards == old(guards) && pageTable == old(pageTable) && Contents(View()) == Contents(old(View()))
      ensures (forall h :: h in guards ==> !MayWrite(View(), h)) && uses == old(uses)
      ensures r.Done? ==> Cleaned(View(), todo - {page})
      ensures r.Failed? ==> Stuck(pageTable[page], answer)
    {
      hide FramesInv, PagesInv, GuardsInv, LogInv, Contents, pager.Valid, pager.Sized, replacer.Valid, replacer.Follows, AllPrescribed, replacer.Unpinned,
           MappedDirty, Next, Cleaned;
      ghost var before := View();
      r := FlushPage(page, answer);
      if r.Done? { FlushedMore(before, View(), todo, page); }
    }

    /** Writes every dirty page back, and the header. */
    method FlushAll(answer: nat -> bool) returns (r: PoolResult<()>)
      requires Valid() && forall h :: h in guards ==> !MayWrite(View(), h)
      modifies this, pager
      ensures Valid() && guards == old(guards) && pageTable == old(pageTable) && Contents(View()) == Contents(old(View()))
      ensures uses == old(uses)
      ensures r.Done? ==> forall p {:trigger p in pageTable} :: p in pageTable ==> pageTable[p] < |frames| && !frames[pageTable[p]].dirty
      ensures r.Done? && (forall h :: h in guards ==> !guards[h].dirty) ==> pager.Disk() == Contents(View())
      ensures r.Failed? ==> exists p :: p in pageTable && Stuck(pageTable[p], answer)
    {
      hide Valid, Contents, pager.Valid, pager.Sized, replacer.Valid, replacer.Follows, AllPrescribed, replacer.Unpinned, MappedDirty, Next, Stuck;
      ghost var s := View();
      var todo := pageTable.Keys;
      while todo != {}
        invariant Valid() && todo <= pageTable.Keys && pageTable == s.table && guards == s.guards
        invariant Contents(View()) == Contents(s) && uses == old(uses)
        invariant Cleaned(View(), todo)
        decreases |todo|
      {
        var page :| page in todo;
        var flushed := FlushNext(page, todo, answer);
        if flushed.Failed? { return Failed(flushed.error); }
        todo := todo - {page};
      }
      SyncPager();
      if forall h :: h in guards ==> !guards[h].dirty { AllCleanHere(); }
      return Done(());
    }

    /** The pager's header, once more. */
    method SyncPager()
      requires Valid()
      modifies pager
      ensures Valid() && View() == old(View()) && pager.Disk() == old(pager.Disk())
    {
      hide FramesInv, PagesInv, GuardsInv, LogInv, Contents, replacer.Valid, replacer.Follows, AllPrescribed, replacer.Unpinned;
      ghost var s := View();
      pager.SyncHeader();
      assert View() == s;
    }

    lemma AllCleanHere()
      requires Valid() && Cleaned(View(), {}) && forall h :: h in guards ==> !guards[h].dirty
      ensures pager.Disk() == Contents(View())
    {
      AllClean(View());
    }

    /** Takes a page that nobody has pinned out of the pool and gives it back to the pager. */
    method DeletePage(page: nat) returns (r: PoolResult<()>)
      requires Valid()
      modifies Objects()
      ensures guards == old(guards)
      ensures page !in old(pager.free) ==> Valid()
      ensures page !in old(pager.free) && r.Done? ==> Next(old(View()), Deleted(page), View()) && pager.free == [page] + old(pager.free)
      ensures page in old(pager.free) ==> r == Done(()) && NoList(pager.pages, pager.freeHead)
      ensures r.Failed? ==> View() == old(View())
      ensures r == Failed(PagePinned(page)) <==> GuardsOn(guards, page) != {}
      ensures GuardsOn(guards, page) == {} ==> (r.Done? <==> page in old(pager.Disk()) || page in old(pager.free))
      ensures pager.pageCount == old(pager.pageCount)
      ensures uses == old(uses) + if r.Done? && page in old(pageTable) then [Forgot(old(pageTable)[page])] else []
    {
      hide FramesInv, PagesInv, GuardsInv, LogInv, Contents, pager.Valid, pager.Sized, replacer.Valid, replacer.Follows, AllPrescribed, replacer.Unpinned;
      ghost var s := View();
      MappedIsOnDisk(s);
      if page in pageTable {
        EntryFacts(s, page);
        if frames[pageTable[page]].pins > 0 { return Failed(PagePinned(page)); }
        DeleteKeeps(s, page);
        DiscardFrame(page);
      } else {
        NoGuardsElsewhere(s, page);
        DeleteKeeps(s, page);
      }
      r := FreePage(page);
    }

    method FreePage(page: nat) returns (r: PoolResult<()>)
      requires Sized()
      modifies `recorded, pager
      ensures page !in old(pager.free) ==> Sized() && (r.Done? <==> page in old(pager.Disk()))
      ensures page !in old(pager.free) && r.Done? ==> View() == Release(old(View()), page) && pager.free == [page] + old(pager.free)
      ensures page in old(pager.free) ==> r == Done(()) && NoList(pager.pages, pager.freeHead)
      ensures r.Failed? ==> View() == old(View()) && r.error.PagerFailed?
      ensures pager.pageCount == old(pager.pageCount)
    {
      hide replacer.Valid, replacer.Follows, AllPrescribed, replacer.Unpinned;
      var freed := pager.Free(page);
      if freed.Err? { return Failed(PagerFailed(freed.error)); }
      recorded := recorded - {page};
      return Done(());
    }

    method DiscardFrame(page: nat)
      requires Sized() && page in pageTable && pageTable[page] < |frames| && frames[pageTable[page]].page == Some(page)
      modifies Objects() - {pager}
      ensures Sized() && guards == old(guards) && nextGuard == old(nextGuard)
      ensures var f := old(pageTable)[page];
              View() == PutBack(Detach(old(View()), f, old(frames)[f].(page := None, dirty := false, lsn := 0)), f)
              && uses == old(uses) + [Forgot(f)]
    {
      hide pager.Valid, pager.Sized, replacer.Valid, replacer.Follows, AllPrescribed, replacer.Unpinned;
      var f := pageTable[page];
      pageTable := pageTable - {page};
      frames := frames[f := frames[f].(page := None, dirty := false, lsn := 0)];
      replacer.Remove(f, uses);
      OneMorePrescribed(replacer.Kind(), uses, Forgot(f));
      uses := uses + [Forgot(f)];
      freeList := freeList + [f];
    }

    method RecordWalSync(lsn: nat)
      requires Valid()
      modifies `flushedWalSeq
      ensures Valid() && View() == RecordSync(old(View()), lsn)
    {
      RecordSyncKeeps(View(), lsn);
      flushedWalSeq := PoolModel.Max(flushedWalSeq, lsn);
    }

    method AddGuard(g: Guard)
      requires forall h {:trigger h in guards} :: h in guards ==> h < nextGuard
      modifies `guards, `nextGuard
      ensures guards == old(guards)[old(nextGuard) := g] && nextGuard == old(nextGuard) + 1
      ensures forall h {:trigger h in guards} :: h in guards ==> h < nextGuard
    {
      guards := guards[nextGuard := g];
      nextGuard := nextGuard + 1;
    }
  }

  lemma ListsBounded(s: Pool)
    requires Inv(s, None)
    ensures forall f :: f in s.free ==> f < |s.frames|
    ensures forall f :: f in s.evictable ==> f < |s.frames| && s.frames[f].page.Some?
    ensures forall f :: f in s.evictable && s.frames[f].dirty ==> s.frames[f].page.value in s.recorded
    ensures s.free != [] ==> s.free[|s.free| - 1] < |s.frames|
  {
    forall f | f in s.evictable ensures s.frames[f].page.Some? && s.frames[f].page.value in s.recorded {
      assert ListsOk(s, f, None);
      FrameFacts(s, f);
    }
    if s.free != [] { assert s.free[|s.free| - 1] in s.free; }
  }

  ghost predicate MappedDirty(s: Pool, page: nat) {
    page in s.table && s.table[page] < |s.frames| && s.frames[s.table[page]].dirty
  }

  lemma EntryFacts(s: Pool, p: nat)
    requires Inv(s, None) && p in s.table
    ensures s.table[p] < |s.frames| && s.frames[s.table[p]].page == Some(p) && p in s.disk && p in s.recorded
    ensures s.frames[s.table[p]].pins == |GuardsOn(s.guards, p)|
  {
    assert EntryOk(s, p);
    assert FrameOk(s, s.table[p]);
  }

  /** The pages that are no longer to be flushed are clean, and on disk as they are. */
  ghost predicate Cleaned(s: Pool, todo: set<nat>) {
    forall p {:trigger p in s.table} :: p in s.table && p !in todo ==> s.table[p] < |s.frames| && !s.frames[s.table[p]].dirty
  }

  lemma FlushedMore(s: Pool, s': Pool, todo: set<nat>, page: nat)
    requires Inv(s, None) && Cleaned(s, todo) && page in s.table
    requires s.table[page] < |s.frames| ==> if MappedDirty(s, page) then Next(s, Flushed(s.table[page]), s') else s' == s
    ensures Cleaned(s', todo - {page}) && Contents(s') == Contents(s)
  {
    EntryFacts(s, page);
    if MappedDirty(s, page) { WriteBackKeeps(s, s.table[page]); }
  }

  lemma AllClean(s: Pool)
    requires Inv(s, None) && Cleaned(s, {}) && forall h :: h in s.guards ==> !s.guards[h].dirty
    ensures s.disk == Contents(s)
  {
    forall p | p in s.disk ensures s.disk[p] == Contents(s)[p] {
      if p in s.table { assert EntryOk(s, p) && CleanOk(s, p); }
    }
  }

  lemma EmptyPool(frames: seq<Frame>, free: seq<nat>, disk: map<nat, Bytes>, flushed: nat, recorded: map<nat, nat>)
    requires forall f :: 0 <= f < |frames| ==> frames[f].page == None && frames[f].pins == 0 && !frames[f].dirty
    requires |free| == |frames| && forall i {:trigger free[i]} :: 0 <= i < |free| ==> free[i] == |frames| - 1 - i
    requires recorded.Keys == disk.Keys && forall p :: p in recorded ==> recorded[p] == 0
    ensures Inv(Pool(frames, map[], free, {}, map[], disk, flushed, recorded, []), None)
    ensures Contents(Pool(frames, map[], free, {}, map[], disk, flushed, recorded, [])) == disk
  {
    var s := Pool(frames, map[], free, {}, map[], disk, flushed, recorded, []);
    forall f | 0 <= f < |frames| ensures FrameOk(s, f) && ListsOk(s, f, None) { assert free[|frames| - 1 - f] == f; }
    forall p | p in recorded ensures LsnOk(s, p) { }
  }

  lemma FrameFacts(s: Pool, f: nat)
    requires Inv(s, None) && f < |s.frames| && s.frames[f].page.Some?
    ensures s.frames[f].page.value in s.disk && s.frames[f].page.value in s.table && s.table[s.frames[f].page.value] == f
    ensures f in s.evictable <==> s.frames[f].pins == 0
    ensures s.frames[f].page.value in s.recorded
  {
    assert FrameOk(s, f) && ListsOk(s, f, None);
    assert EntryOk(s, s.frames[f].page.value);
  }
}
