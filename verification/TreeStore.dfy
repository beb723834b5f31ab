/** The pages of a B+tree in the buffer pool: nodes as bytes behind guards, never more than three at a time. */
module TreeStore {
  import opened Wrappers
  import opened Keys
  import opened TreeModel
  import opened TreeSize
  import opened NodeLayout
  import opened InternalLayout
  import opened PageBytes
  import P = Pager
  import M = PoolModel
  import B = BufferPool
  import R = Replacer
  import C = PoolClient

  ghost predicate Holds(page: Bytes, n: Node) {
    if n.Leaf? then HoldsLeaf(page, n) else HoldsInternal(page, n)
  }

  /** The guard of a held page has its lock, and is the only guard of that page. */
  ghost predicate GuardIs(s: M.Pool, guards: map<PageId, nat>, held: map<PageId, bool>, id: PageId)
    requires id in guards && id in held
  {
    && guards[id] in s.guards && s.guards[guards[id]].page == id
    && s.guards[guards[id]].held && s.guards[guards[id]].exclusive == held[id]
  }

  /** The pool's guards are those of the held pages. */
  ghost predicate GuardsOk(s: M.Pool, guards: map<PageId, nat>, held: map<PageId, bool>) {
    && guards.Keys == held.Keys
    && (forall id {:trigger GuardIs(s, guards, held, id)} :: id in guards ==> GuardIs(s, guards, held, id))
    && (forall h {:trigger s.guards[h]} :: h in s.guards ==> s.guards[h].page in guards && guards[s.guards[h].page] == h)
  }

  /** Every live page holds its node, or is none of the tree's and has its bytes. */
  ghost predicate PagesOk(pages: map<nat, Bytes>, nodes: map<PageId, Node>, others: map<nat, Bytes>) {
    && (forall p {:trigger p in pages} :: p in pages <==> p in nodes || p in others)
    && (forall id {:trigger nodes[id]} :: id in nodes ==> id in pages && Holds(pages[id], nodes[id]))
    && (forall p {:trigger others[p]} :: p in others ==> p in pages && p !in nodes && pages[p] == others[p])
  }

  lemma HeldAreGuards(s: M.Pool, guards: map<PageId, nat>, held: map<PageId, bool>)
    requires GuardsOk(s, guards, held)
    ensures |s.guards| <= |held|
  {
    var pages := set h | h in s.guards :: s.guards[h].page;
    assert guards.Keys == held.Keys;
    AtMostOnePerPage(s, guards, s.guards.Keys, guards.Keys);
  }

  lemma {:induction false} AtMostOnePerPage(s: M.Pool, guards: map<PageId, nat>, hs: set<nat>, ids: set<PageId>)
    requires hs <= s.guards.Keys && ids <= guards.Keys
    requires forall h :: h in hs ==> s.guards[h].page in ids && guards[s.guards[h].page] == h
    ensures |hs| <= |ids|
  {
    if hs != {} {
      var h :| h in hs;
      AtMostOnePerPage(s, guards, hs - {h}, ids - {s.guards[h].page});
    }
  }

  lemma GuardTaken(s: M.Pool, s': M.Pool, guards: map<PageId, nat>, held: map<PageId, bool>, id: PageId, h: nat)
    requires GuardsOk(s, guards, held) && id !in held && h in s'.guards && s'.guards - {h} == s.guards && h !in s.guards
    requires s'.guards[h].page == id && s'.guards[h].held
    ensures GuardsOk(s', guards[id := h], held[id := s'.guards[h].exclusive])
  {
    var guards', held' := guards[id := h], held[id := s'.guards[h].exclusive];
    assert forall g :: g in s.guards ==> s'.guards[g] == s.guards[g];
    forall i | i in guards' ensures GuardIs(s', guards', held', i) {
      if i != id { assert GuardIs(s, guards, held, i); }
    }
    forall g | g in s'.guards ensures s'.guards[g].page in guards' && guards'[s'.guards[g].page] == g {
      if g != h { assert s.guards[g].page in guards && s.guards[g] == s'.guards[g]; }
    }
  }

  lemma GuardGone(s: M.Pool, s': M.Pool, guards: map<PageId, nat>, held: map<PageId, bool>, id: PageId)
    requires GuardsOk(s, guards, held) && id in held && s'.guards == s.guards - {guards[id]}
    ensures GuardsOk(s', guards - {id}, held - {id})
  {
    assert GuardIs(s, guards, held, id);
    forall i | i in guards - {id} ensures GuardIs(s', guards - {id}, held - {id}, i) {
      assert GuardIs(s, guards, held, i);
    }
  }

  /** A guard may have become dirty. */
  lemma GuardWrote(s: M.Pool, s': M.Pool, guards: map<PageId, nat>, held: map<PageId, bool>, h: nat)
    requires GuardsOk(s, guards, held) && h in s.guards && s'.guards == s.guards[h := s.guards[h].(dirty := true)]
    ensures GuardsOk(s', guards, held)
  {
    forall i | i in guards ensures GuardIs(s', guards, held, i) { assert GuardIs(s, guards, held, i); }
    forall g | g in s'.guards ensures s'.guards[g].page in guards && guards[s'.guards[g].page] == g {
      assert s.guards[g].page in guards;
    }
  }

  /** The lock of a page that was not held is free. */
  lemma LockIsFree(s: M.Pool, s': M.Pool, guards: map<PageId, nat>, held: map<PageId, bool>, id: PageId, h: nat)
    requires GuardsOk(s, guards, held) && id !in held && h in s'.guards && s'.guards - {h} == s.guards && h !in s.guards
    requires s'.guards[h].page == id && !s'.guards[h].held
    ensures M.CanLock(s', h)
  {
    forall g | g in s'.guards && g != h ensures s'.guards[g].page != id {
      assert g in s.guards && s.guards[g] == s'.guards[g];
    }
  }

  /** The pool serves one client, which holds at most three pages, all of its tree; every live page is in order. */
  ghost predicate Agrees(s: M.Pool, guards: map<PageId, nat>, held: map<PageId, bool>, nodes: map<PageId, Node>, others: map<nat, Bytes>) {
    && M.Inv(s, None) && C.Flushable(s) && |s.frames| >= 3
    && GuardsOk(s, guards, held) && PagesOk(M.Contents(s), nodes, others) && held.Keys <= nodes.Keys && |held| <= 3
  }

  lemma FetchAgrees(s: M.Pool, id: PageId, h: nat, exclusive: bool, s': M.Pool,
                    guards: map<PageId, nat>, held: map<PageId, bool>, nodes: map<PageId, Node>, others: map<nat, Bytes>)
    requires Agrees(s, guards, held, nodes, others) && id in nodes && id !in held && |held| < 3
    requires M.FetchStep(s, id, h, exclusive, s')
    ensures M.CanLock(s', h) && Agrees(M.LockPage(s', h), guards[id := h], held[id := exclusive], nodes, others)
  {
    hide M.Inv, M.Contents, PagesOk, GuardsOk;
    assert h !in s.guards;
    C.Fetched(s, id, h, exclusive, s');
    hide M.FetchStep;
    LockIsFree(s, s', guards, held, id, h);
    LockedAgrees(s, s', id, h, guards, held, nodes, others);
  }

  /** A page read and let go. */
  lemma Looked(s: M.Pool, id: PageId, h: nat, s': M.Pool,
               guards: map<PageId, nat>, held: map<PageId, bool>, nodes: map<PageId, Node>, others: map<nat, Bytes>)
    requires Agrees(s, guards, held, nodes, others) && held == map[] && M.FetchStep(s, id, h, false, s')
    ensures M.CanLock(s', h)
    ensures var t := M.LockPage(s', h);
            && h in t.guards && t.guards[h].page == id && t.guards[h].held && M.Contents(t) == M.Contents(s)
            && id in t.table && t.table[id] < |t.frames| && id in t.disk
            && Agrees(M.Drop(t, h), guards, held, nodes, others)
  {
    hide M.Inv, M.Contents, PagesOk, GuardsOk, C.Flushable;
    C.Fetched(s, id, h, false, s');
    hide M.FetchStep;
    LockIsFree(s, s', guards, held, id, h);
    M.LockKeeps(s', h);
    LockedFlushable(s', h);
    var t := M.LockPage(s', h);
    M.DropKeeps(t, h);
    C.DroppedFlushable(t, h);
    assert t.guards - {h} == s.guards;
    SameGuards(s, M.Drop(t, h), guards, held);
  }

  lemma LockedAgrees(s: M.Pool, s': M.Pool, id: PageId, h: nat,
                     guards: map<PageId, nat>, held: map<PageId, bool>, nodes: map<PageId, Node>, others: map<nat, Bytes>)
    requires GuardsOk(s, guards, held) && held.Keys <= nodes.Keys && |held| < 3 && id in nodes && id !in held && h !in s.guards
    requires M.Inv(s', None) && C.Flushable(s') && |s'.frames| >= 3 && PagesOk(M.Contents(s'), nodes, others) && M.CanLock(s', h)
    requires s'.guards - {h} == s.guards && s'.guards[h].page == id
    ensures Agrees(M.LockPage(s', h), guards[id := h], held[id := s'.guards[h].exclusive], nodes, others)
  {
    hide M.Inv, M.Contents, PagesOk, GuardsOk, C.Flushable;
    var t := M.LockPage(s', h);
    M.LockKeeps(s', h);
    LockedFlushable(s', h);
    assert t.guards - {h} == s'.guards - {h};
    GuardTaken(s, t, guards, held, id, h);
  }

  lemma CreateAgrees(s: M.Pool, p: nat, zeros: Bytes, h: nat, s': M.Pool, data: Bytes, n: Node,
                     guards: map<PageId, nat>, held: map<PageId, bool>, nodes: map<PageId, Node>, others: map<nat, Bytes>)
    requires Agrees(s, guards, held, nodes, others) && |held| < 3 && M.CreateStep(s, p, zeros, h, s') && Holds(data, n)
    requires p < 0x1_0000_0000_0000_0000
    ensures p !in nodes && p !in others && p !in held && M.CanLock(s', h)
    ensures var t := M.LockPage(s', h);
            && M.MayWrite(t, h) && t.guards[h].page == p && p in t.table && t.table[p] < |t.frames|
            && Agrees(M.Write(t, h, data), guards[p := h], held[p := true], nodes[p := n], others)
  {
    hide M.Inv, M.Contents, PagesOk, GuardsOk, Holds, C.Flushable;
    assert p !in s.disk && h !in s.guards;
    NotThere(s, p, guards, held, nodes, others);
    C.Created(s, p, zeros, h, s');
    hide M.CreateStep;
    LockIsFree(s, s', guards, held, p, h);
    WrittenFirst(s, s', p, h, zeros, data, n, guards, held, nodes, others);
  }

  lemma WrittenFirst(s: M.Pool, s': M.Pool, p: PageId, h: nat, zeros: Bytes, data: Bytes, n: Node,
                     guards: map<PageId, nat>, held: map<PageId, bool>, nodes: map<PageId, Node>, others: map<nat, Bytes>)
    requires GuardsOk(s, guards, held) && PagesOk(M.Contents(s), nodes, others) && held.Keys <= nodes.Keys && |held| < 3
    requires p !in held && p !in others && h !in s.guards
    requires M.Inv(s', None) && C.Flushable(s') && |s'.frames| >= 3 && M.Contents(s') == M.Contents(s)[p := zeros]
    requires M.CanLock(s', h) && s'.guards - {h} == s.guards && s'.guards[h].page == p && s'.guards[h].exclusive
    requires Holds(data, n)
    ensures var t := M.LockPage(s', h);
            && M.MayWrite(t, h) && t.guards[h].page == p && p in t.table && t.table[p] < |t.frames|
            && Agrees(M.Write(t, h, data), guards[p := h], held[p := true], nodes[p := n], others)
  {
    hide M.Inv, M.Contents, PagesOk, GuardsOk, Holds, C.Flushable;
    var t := M.LockPage(s', h);
    M.LockKeeps(s', h);
    LockedFlushable(s', h);
    assert t.guards - {h} == s'.guards - {h};
    GuardTaken(s, t, guards, held, p, h);
    M.WriteKeeps(t, h, data);
    C.WrittenFlushable(t, h, data);
    GuardWrote(t, M.Write(t, h, data), guards[p := h], held[p := true], h);
    PageWritten(M.Contents(s), p, data, n, nodes, others);
    assert M.Contents(s)[p := zeros][p := data] == M.Contents(s)[p := data];
  }

  /** The frame found for a page that the pager could not give is free again. */
  lemma EmptiedAgrees(s: M.Pool, f: nat, s': M.Pool,
                      guards: map<PageId, nat>, held: map<PageId, bool>, nodes: map<PageId, Node>, others: map<nat, Bytes>)
    requires Agrees(s, guards, held, nodes, others) && M.Next(s, M.Emptied(f), s')
    ensures Agrees(s', guards, held, nodes, others)
  {
    hide M.Inv, M.Contents, PagesOk, GuardsOk, C.Flushable, M.Obtained;
    M.EmptiedKeeps(s, f, s');
    var s1 :| M.Obtained(s, f, s1) && s' == M.PutBack(s1, f);
    C.ObtainedFlushable(s, f, s1);
    PutBackFlushable(s1, f);
    SameGuards(s, s', guards, held);
  }

  lemma PutBackFlushable(s: M.Pool, f: nat)
    requires C.Flushable(s)
    ensures C.Flushable(M.PutBack(s, f))
  {
  }

  lemma NotThere(s: M.Pool, p: nat, guards: map<PageId, nat>, held: map<PageId, bool>, nodes: map<PageId, Node>, others: map<nat, Bytes>)
    requires Agrees(s, guards, held, nodes, others) && p !in s.disk
    ensures p !in nodes && p !in others && p !in held
  {
    assert p !in M.Contents(s);
  }

  lemma DeleteAgrees(s: M.Pool, id: PageId, guards: map<PageId, nat>, held: map<PageId, bool>, nodes: map<PageId, Node>, others: map<nat, Bytes>)
    requires Agrees(s, guards, held, nodes, others) && id in nodes && id !in held
    ensures M.GuardsOn(s.guards, id) == {} && id in s.disk
    ensures id in s.table ==> s.table[id] < |s.frames| && s.frames[s.table[id]].page == Some(id)
    ensures Agrees(M.Delete(s, id), guards, held, nodes - {id}, others)
  {
    hide M.Contents, C.Flushable, PagesOk, GuardsOk, M.FramesInv, M.PagesInv, M.GuardsInv, M.LogInv;
    NobodyHolds(s, id, guards, held);
    LiveOnDisk(s, id, nodes, others);
    NoPins(s, id);
    M.DeleteKeeps(s, id);
    C.DeletedFlushable(s, id);
    hide M.Inv;
    SameGuards(s, M.Delete(s, id), guards, held);
    PageGone(M.Contents(s), id, nodes, others);
  }

  lemma LiveOnDisk(s: M.Pool, id: PageId, nodes: map<PageId, Node>, others: map<nat, Bytes>)
    requires PagesOk(M.Contents(s), nodes, others) && id in nodes
    ensures id in s.disk
  {
    assert id in M.Contents(s);
  }

  lemma NoPins(s: M.Pool, id: PageId)
    requires M.Inv(s, None) && M.GuardsOn(s.guards, id) == {}
    ensures id in s.table ==> s.table[id] < |s.frames| && s.frames[s.table[id]].pins == 0
  {
    if id in s.table { assert M.EntryOk(s, id) && M.FrameOk(s, s.table[id]); }
  }

  lemma SameGuards(s: M.Pool, t: M.Pool, guards: map<PageId, nat>, held: map<PageId, bool>)
    requires GuardsOk(s, guards, held) && t.guards == s.guards
    ensures GuardsOk(t, guards, held)
  {
    forall i | i in guards ensures GuardIs(t, guards, held, i) { assert GuardIs(s, guards, held, i); }
    forall h | h in t.guards ensures t.guards[h].page in guards && guards[t.guards[h].page] == h {
      assert s.guards[h].page in guards;
    }
  }

  lemma NobodyHolds(s: M.Pool, id: PageId, guards: map<PageId, nat>, held: map<PageId, bool>)
    requires GuardsOk(s, guards, held) && id !in held
    ensures M.GuardsOn(s.guards, id) == {}
  {
    forall h | h in s.guards ensures s.guards[h].page != id { }
  }

  lemma PageGone(pages: map<nat, Bytes>, id: PageId, nodes: map<PageId, Node>, others: map<nat, Bytes>)
    requires PagesOk(pages, nodes, others) && id in nodes
    ensures PagesOk(pages - {id}, nodes - {id}, others)
  {
    hide Holds;
  }

  lemma LockedFlushable(s: M.Pool, h: nat)
    requires C.Flushable(s) && h in s.guards
    ensures C.Flushable(M.LockPage(s, h))
  {
  }

  // ── Counting pages ──

  lemma FreeInFile(pages: seq<Bytes>, free: seq<nat>)
    requires forall i {:trigger P.FreePageOk(pages, free, i)} :: 0 <= i < |free| ==> P.FreePageOk(pages, free, i)
    ensures forall p {:trigger p in free} :: p in free ==> 0 < p < |pages|
  {
    forall p | p in free ensures 0 < p < |pages| {
      var i :| 0 <= i < |free| && free[i] == p;
      assert P.FreePageOk(pages, free, i);
    }
  }

  lemma CountPages(used: set<nat>, free: seq<nat>, count: nat)
    requires forall p {:trigger p in used} :: p in used <==> 0 < p < count && p !in free
    requires forall p {:trigger p in free} :: p in free ==> 0 < p < count
    requires forall i, j :: 0 <= i < j < |free| ==> free[i] != free[j]
    requires count > 0
    ensures |used| + |free| + 1 == count
  {
    var listed := set p | p in free;
    CountListed(free, listed);
    CountRange(count, used + listed);
    assert used !! listed;
  }

  lemma {:induction false} CountListed(free: seq<nat>, listed: set<nat>)
    requires forall p {:trigger p in listed} :: p in listed <==> p in free
    requires forall i, j :: 0 <= i < j < |free| ==> free[i] != free[j]
    ensures |listed| == |free|
  {
    if free == [] {
      assert listed == {};
    } else {
      CountListed(free[1..], listed - {free[0]});
    }
  }

  lemma {:induction false} CountRange(count: nat, all: set<nat>)
    requires count > 0 && forall p {:trigger p in all} :: p in all <==> 0 < p < count
    ensures |all| + 1 == count
  {
    if count == 1 {
      assert all == {};
    } else {
      CountRange(count - 1, all - {count - 1});
    }
  }

  class PageStore {
    const pool: B.BufferPool
    /** The guard of each page that is held. */
    var guards: map<PageId, nat>
    /** The nodes on the pages of the tree, the pages held (true: for writing), and the page numbers the pager has left. */
    ghost var nodes: map<PageId, Node>
    ghost var held: map<PageId, bool>
    ghost var supply: PageSupply
    /** The live pages that are none of the tree's, with their bytes. */
    ghost const others: map<nat, Bytes>

    function PageSize(): nat {
      pool.pager.pageSize
    }

    function PageTotal(): (n: nat)
      requires Valid()
      reads Objects()
      ensures n == supply.count
    {
      pool.pager.pageCount
    }

    function Objects(): set<object> {
      {this} + pool.Objects()
    }

    ghost predicate Valid()
      reads Objects()
    {
      && this !in pool.Objects() && pool.Valid() && Agrees(pool.View(), guards, held, nodes, others)
      && supply == PageSupply(pool.pager.free, pool.pager.pageCount)
    }

    /** A pool whose pages nobody holds. */
    constructor (pool: B.BufferPool, ghost nodes: map<PageId, Node>, ghost others: map<nat, Bytes>)
      requires pool.Valid() && |pool.frames| >= 3 && C.Flushable(pool.View()) && pool.guards == map[]
      requires PagesOk(M.Contents(pool.View()), nodes, others)
      ensures Valid() && this.pool == pool && this.nodes == nodes && this.others == others && held == map[]
      ensures supply == PageSupply(pool.pager.free, pool.pager.pageCount)
    {
      hide M.Inv, M.Contents, PagesOk, C.Flushable, Agrees;
      this.pool := pool;
      guards := map[];
      this.nodes := nodes;
      this.others := others;
      held := map[];
      supply := PageSupply(pool.pager.free, pool.pager.pageCount);
      new;
      StartAgrees(pool.View(), nodes, others);
    }

    lemma StartAgrees(s: M.Pool, nodes: map<PageId, Node>, others: map<nat, Bytes>)
      requires M.Inv(s, None) && C.Flushable(s) && |s.frames| >= 3 && s.guards == map[] && PagesOk(M.Contents(s), nodes, others)
      ensures Agrees(s, map[], map[], nodes, others)
    {
      hide M.Inv, M.Contents, PagesOk, C.Flushable;
    }

    /** With a page still to hold, the pool is not at a loss for a frame. */
    lemma NotBlocked(answer: nat -> bool)
      requires Valid() && |held| < 3
      ensures !pool.Blocked(answer)
    {
      hide PagesOk, M.Contents, Holds;
      var s := pool.View();
      HeldAreGuards(s, guards, held);
      C.SomeFrame(s);
      forall f: nat ensures !pool.Stuck(f, answer) {
        if f < |s.frames| { assert s.frames[f].lsn <= s.flushed; }
      }
    }

    lemma LivePage(id: PageId)
      requires Valid() && id in nodes
      ensures id in pool.pager.Disk() && id < pool.pager.pageCount
      ensures id in M.Contents(pool.View()) && Holds(M.Contents(pool.View())[id], nodes[id])
    {
      assert id in M.Contents(pool.View());
    }

    /** Pins a page and takes its lock: never refused, and never made to wait. */
    method Take(id: PageId, exclusive: bool)
      requires Valid() && id in nodes && id !in held && |held| < 3
      modifies Objects()
      ensures Valid() && held == old(held)[id := exclusive]
      ensures nodes == old(nodes) && supply == old(supply)
    {
      hide pool.Valid, pool.View, pool.Blocked, pool.pager.Disk, M.FetchStep, Agrees, M.Inv, M.Contents, M.LockPage,
           M.CanLock, pool.Sized, GuardsOk, C.Flushable, Holds, PagesOk;
      ghost var s := pool.View();
      NotBlocked(_ => false);
      LivePage(id);
      var pinned := pool.PinPage(id, exclusive, _ => false);
      var h := pinned.value;
      FetchAgrees(s, id, h, exclusive, pool.View(), guards, held, nodes, others);
      ghost var held' := held[id := exclusive];
      pool.LockGuard(h);
      guards := guards[id := h];
      held := held';
    }

    /** The node on a page that is held. */
    method Read(id: PageId) returns (n: Node)
      requires Valid() && id in held
      ensures Valid() && id in nodes && n == nodes[id]
    {
      hide *;
      var data := Raw(id);
      n := Decoded(data, nodes[id]);
    }

    /** Fetches a page and reads the node on it. */
    method Fetch(id: PageId, exclusive: bool) returns (n: Node)
      requires Valid() && id in nodes && id !in held && |held| < 3
      modifies Objects()
      ensures Valid() && held == old(held)[id := exclusive]
      ensures nodes == old(nodes) && supply == old(supply)
      ensures n == old(nodes)[id]
    {
      hide *;
      Take(id, exclusive);
      n := Read(id);
    }

    /** Reads a page of the file, the tree's or not, when no page is held. */
    method Look(id: PageId) returns (data: Bytes)
      requires Valid() && held == map[] && (id in nodes || id in others)
      modifies Objects()
      ensures Valid() && held == map[] && nodes == old(nodes) && supply == old(supply)
      ensures (id in nodes ==> Holds(data, nodes[id])) && (id in others ==> data == others[id])
    {
      hide pool.Valid, pool.View, pool.Blocked, pool.pager.Disk, M.FetchStep, Agrees, M.Inv, M.Contents, M.LockPage,
           M.CanLock, M.Drop, pool.Sized, GuardsOk, C.Flushable, Holds, PagesOk;
      ghost var s := pool.View();
      NotBlocked(_ => false);
      AnyLivePage(id);
      var pinned := pool.PinPage(id, false, _ => false);
      Looked(s, id, pinned.value, pool.View(), guards, held, nodes, others);
      data := ReadOnce(pinned.value, id);
    }

    method ReadOnce(h: nat, id: PageId) returns (data: Bytes)
      requires this !in pool.Objects() && pool.Valid() && M.CanLock(pool.View(), h)
      requires var t := M.LockPage(pool.View(), h);
               t.guards[h].page == id && id in t.table && t.table[id] < |t.frames| && id in t.disk
      modifies pool.Objects() - {pool.pager}
      ensures pool.Valid()
      ensures var t := M.LockPage(old(pool.View()), h);
              pool.View() == M.Drop(t, h) && data == M.Contents(t)[id]
    {
      hide pool.Valid, pool.View, M.Inv, M.Contents, M.CanLock, M.Drop, pool.Sized;
      pool.LockGuard(h);
      pool.ViewParts();
      data := pool.ReadThrough(h);
      pool.DropGuard(h);
    }

    lemma AnyLivePage(id: PageId)
      requires Valid() && (id in nodes || id in others)
      ensures id in pool.pager.Disk() && id < pool.pager.pageCount
      ensures id in M.Contents(pool.View())
      ensures id in nodes ==> Holds(M.Contents(pool.View())[id], nodes[id])
      ensures id in others ==> M.Contents(pool.View())[id] == others[id]
    {
      assert id in M.Contents(pool.View());
    }

    /** The guard goes out of scope. */
    method Release(id: PageId)
      requires Valid() && id in held
      modifies Objects()
      ensures Valid() && held == old(held) - {id}
      ensures nodes == old(nodes) && supply == old(supply)
    {
      hide pool.Valid, pool.View, M.Inv, M.Contents, C.Flushable, M.Drop, PagesOk, Agrees, GuardsOk, M.CanLock,
           HoldsLeaf, HoldsInternal;
      ghost var s := pool.View();
      HeldFacts(s, id, guards, held, nodes, others);
      pool.ViewParts();
      pool.DropGuard(guards[id]);
      DropAgrees(s, id, guards, held, nodes, others);
      guards := guards - {id};
      held := held - {id};
    }

    /** Replaces the bytes of a page held for writing. */
    method Overwrite(id: PageId, data: Bytes, ghost n: Node)
      requires Valid() && id in held && held[id] && |data| == PageSize() && Holds(data, n)
      modifies Objects()
      ensures Valid() && nodes == old(nodes)[id := n]
      ensures held == old(held) && supply == old(supply)
    {
      hide pool.Valid, pool.View, M.Inv, M.Contents, C.Flushable, M.Write, PagesOk, Holds;
      ghost var s := pool.View();
      HeldFacts(s, id, guards, held, nodes, others);
      WriteAgrees(s, id, data, n, guards, held, nodes, others);
      pool.WriteThrough(guards[id], data);
      nodes := nodes[id := n];
    }

    // Buffers are new objects: the store stays as it is.

    method Decoded(data: Bytes, ghost node: Node) returns (n: Node)
      requires Valid() && Holds(data, node)
      ensures Valid() && n == node
    {
      hide M.Inv, M.Contents, C.Flushable, HoldsLeaf, HoldsInternal, Agrees;
      n := DecodeNode(data, node);
    }

    method Encoded(before: Bytes, n: Node) returns (data: Bytes)
      requires Valid() && |before| == PageSize() <= MAX_PAGE && Fits(n, PageSize())
      ensures Valid() && Holds(data, n) && |data| == PageSize()
    {
      hide M.Inv, M.Contents, C.Flushable, HoldsLeaf, HoldsInternal, Agrees;
      data := EncodeNode(before, n);
    }

    method Patched(before: Bytes, ghost n: Node, prev: bool, p: PageId) returns (data: Bytes)
      requires Valid() && |before| == PageSize() <= MAX_PAGE && Holds(before, n) && (prev ==> n.Leaf?)
      ensures Valid() && Holds(data, if prev then WithPrev(n, p) else WithParent(n, p)) && |data| == PageSize()
    {
      hide M.Inv, M.Contents, C.Flushable, HoldsLeaf, HoldsInternal, Agrees;
      if prev { data := PatchPrev(before, n, p); } else { data := PatchParent(before, n, p); }
    }

    /** `rebuild` of a page held for writing. */
    method Rebuild(id: PageId, n: Node)
      requires Valid() && id in held && held[id] && Fits(n, PageSize())
      modifies Objects()
      ensures Valid() && nodes == old(nodes)[id := n]
      ensures held == old(held) && supply == old(supply)
    {
      hide *;
      var page := Raw(id);
      var data := Encoded(page, n);
      Overwrite(id, data, n);
    }

    method Raw(id: PageId) returns (data: Bytes)
      requires Valid() && id in held
      ensures Valid() && id in nodes && |data| == PageSize() <= MAX_PAGE && Holds(data, nodes[id])
    {
      hide pool.View, M.Inv, M.Contents, C.Flushable, Holds, PagesOk, GuardsOk;
      HeldFacts(pool.View(), id, guards, held, nodes, others);
      pool.ViewParts();
      data := pool.ReadThrough(guards[id]);
    }

    /** Sets the parent pointer of a page held for writing, in place. */
    method SetParent(id: PageId, p: PageId)
      requires Valid() && id in held && held[id] && id in nodes
      modifies Objects()
      ensures Valid() && nodes == old(nodes)[id := WithParent(old(nodes)[id], p)]
      ensures held == old(held) && supply == old(supply)
    {
      hide *;
      var before := Raw(id);
      var data := Patched(before, nodes[id], false, p);
      Overwrite(id, data, WithParent(nodes[id], p));
    }

    /** Sets the prev pointer of a leaf held for writing, in place. */
    method SetPrev(id: PageId, p: PageId)
      requires Valid() && id in held && held[id] && id in nodes && nodes[id].Leaf?
      modifies Objects()
      ensures Valid() && nodes == old(nodes)[id := WithPrev(old(nodes)[id], p)]
      ensures held == old(held) && supply == old(supply)
    {
      hide *;
      var before := Raw(id);
      var data := Patched(before, nodes[id], true, p);
      Overwrite(id, data, WithPrev(nodes[id], p));
    }

    /** No page has the next number. */
    lemma NextIsFresh()
      requires Valid()
      ensures NextId(supply) != 0 && NextId(supply) !in nodes && NextId(supply) !in others && supply.count < PAGE_IDS
    {
      hide M.Inv, C.Flushable, Holds, GuardsOk;
      pool.ViewParts();
      if supply.free != [] { assert P.FreePageOk(pool.pager.pages, supply.free, 0); }
      assert NextId(supply) !in pool.pager.Disk();
      assert NextId(supply) !in M.Contents(pool.View());
    }

    /** Every page of the file but the header is a page of the tree, or another live page, or on the free list, and on
        it once. */
    lemma PagesConserved()
      requires Valid()
      ensures nodes.Keys !! others.Keys
      ensures forall p: nat :: p in nodes || p in others <==> 0 < p < supply.count && p !in supply.free
      ensures forall p: nat :: p in supply.free ==> 0 < p < supply.count
      ensures forall i, j :: 0 <= i < j < |supply.free| ==> supply.free[i] != supply.free[j]
      ensures |nodes| + |others| + |supply.free| + 1 == supply.count
    {
      hide M.Inv, C.Flushable, Holds, GuardsOk, M.Contents, P.HeaderPage;
      pool.ViewParts();
      assert M.Contents(pool.View()).Keys == P.LivePages(supply.count, supply.free);
      FreeInFile(pool.pager.pages, supply.free);
      forall p: int ensures p in nodes.Keys + others.Keys <==> 0 < p < supply.count && p !in supply.free {
        if 0 < p < supply.count { assert p in M.Contents(pool.View()) <==> p in nodes || p in others; }
      }
      forall p | p in others ensures p !in nodes { assert others[p] == M.Contents(pool.View())[p]; }
      CountPages(nodes.Keys + others.Keys, supply.free, supply.count);
    }

    /** A new page, held for writing, with a node on it. Refused only when there is no page number left. */
    method New(n: Node) returns (ok: bool, id: PageId)
      requires Valid() && |held| < 3 && Fits(n, PageSize())
      modifies Objects()
      ensures Valid() && (ok <==> old(Spare(supply)) > 0)
      ensures !ok ==> nodes == old(nodes) && held == old(held) && supply == old(supply)
      ensures ok ==> id > 0 && id !in old(nodes) && id !in old(held) && nodes == old(nodes)[id := n] && held == old(held)[id := true]
      ensures ok ==> id == NextId(old(supply)) && supply == AfterNext(old(supply))
    {
      hide pool.Valid, pool.View, pool.Blocked, pool.Sized, M.CreateStep, Agrees, GuardsOk, C.Flushable, M.Inv,
           M.Contents, Holds;
      SizeInRange();
      NextIsFresh();
      var data := Encoded(P.Zeros(PageSize()), n);
      ghost var s := pool.View();
      NotBlocked(_ => false);
      var created := pool.NewPage(_ => false);
      if created.Failed? {
        ghost var f: nat :| M.Next(s, M.Emptied(f), pool.View());
        EmptiedAgrees(s, f, pool.View(), guards, held, nodes, others);
        return false, 0;
      }
      id := Settle(created.value.0, created.value.1, data, n, s);
      ok := true;
    }

    /** The new page is locked and written, all under its first guard. */
    method Settle(page: nat, h: nat, data: Bytes, ghost n: Node, ghost s: M.Pool) returns (id: PageId)
      requires this !in pool.Objects() && pool.Valid() && Agrees(s, guards, held, nodes, others) && |held| < 3
      requires M.CreateStep(s, page, P.Zeros(PageSize()), h, pool.View()) && Holds(data, n) && |data| == PageSize()
      modifies Objects()
      ensures Valid() && id == page && id !in old(nodes) && id !in old(held)
      ensures nodes == old(nodes)[id := n] && held == old(held)[id := true]
      ensures supply == old(PageSupply(pool.pager.free, pool.pager.pageCount))
    {
      hide pool.Valid, pool.View, pool.Sized, Agrees, GuardsOk, C.Flushable, M.Inv, M.Contents, M.LockPage,
           M.CanLock, M.Write, Holds, M.Create, M.Obtained, M.Next;
      ghost var s1 := pool.View();
      PageInRange(s, page, h);
      hide M.CreateStep;
      CreateAgrees(s, page, P.Zeros(PageSize()), h, s1, data, n, guards, held, nodes, others);
      id := page;
      ghost var guards', held', nodes' := guards[id := h], held[id := true], nodes[id := n];
      WriteLocked(h, data);
      guards := guards[id := h];
      held, nodes := held', nodes';
      supply := PageSupply(pool.pager.free, pool.pager.pageCount);
    }

    method WriteLocked(h: nat, data: Bytes)
      requires pool.Valid() && M.CanLock(pool.View(), h) && |data| == PageSize()
      requires M.MayWrite(M.LockPage(pool.View(), h), h)
      modifies pool`guards, pool`frames
      ensures var t := M.LockPage(old(pool.View()), h);
              && pool.Valid() && t.guards[h].page in t.table && t.table[t.guards[h].page] < |t.frames|
              && pool.View() == M.Write(t, h, data)
    {
      hide pool.Valid, pool.View, pool.Sized, M.Inv, M.Contents, M.LockPage, M.Write, M.Next;
      ghost var s := pool.View();
      pool.LockGuard(h);
      pool.WriteThrough(h, data);
      WroteIs(M.LockPage(s, h), h, data, pool.View());
    }

    lemma PageInRange(s: M.Pool, page: nat, h: nat)
      requires pool.Valid() && M.CreateStep(s, page, P.Zeros(PageSize()), h, pool.View())
      ensures page < pool.pager.pageCount <= P.MAX_U64
    {
      pool.ViewParts();
      hide pool.Valid, pool.View, M.Obtained;
      InFile(page);
    }

    lemma InFile(page: nat)
      requires pool.Valid() && page in pool.pager.Disk()
      ensures page < pool.pager.pageCount <= P.MAX_U64
    {
    }

    lemma SizeInRange()
      requires pool.Valid()
      ensures PageSize() <= MAX_PAGE
    {
    }

    /** Gives a page that is not held back to the pager: never refused. */
    method Delete(id: PageId)
      requires Valid() && id in nodes && id !in held
      modifies Objects()
      ensures Valid() && nodes == old(nodes) - {id} && held == old(held)
      ensures supply == GivenBack(old(supply), id)
    {
      hide pool.Valid, pool.View, M.Delete, Agrees, M.Inv, M.Contents;
      ghost var s := pool.View();
      LivePage(id);
      pool.ViewParts();
      DeleteAgrees(s, id, guards, held, nodes, others);
      var deleted := pool.DeletePage(id);
      nodes := nodes - {id};
      supply := PageSupply(pool.pager.free, pool.pager.pageCount);
    }
  }

  /** A pool over a new file. */
  method NewPool(pageSize: nat, capacity: nat) returns (pool: B.BufferPool)
    requires (pageSize == P.PAGE_4K || pageSize == P.PAGE_8K) && capacity >= 3
    ensures fresh(pool.Objects()) && pool.Valid() && |pool.frames| == capacity && pool.guards == map[]
    ensures C.Flushable(pool.View()) && M.Contents(pool.View()) == map[]
    ensures pool.pager.pageSize == pageSize && PageSupply(pool.pager.free, pool.pager.pageCount) == PageSupply([], 1)
  {
    hide M.Inv, M.Contents, P.HeaderPage;
    var pager := new P.Pager.Create(pageSize);
    var clock := new R.ClockReplacer(capacity);
    B.Clock(clock).FollowsNothing();
    pool := new B.BufferPool(pager, B.Clock(clock), capacity, false);
    pool.ViewParts();
  }

  method NewStore(pageSize: nat, capacity: nat) returns (store: PageStore)
    requires (pageSize == P.PAGE_4K || pageSize == P.PAGE_8K) && capacity >= 3
    ensures fresh(store.Objects()) && store.Valid() && store.PageSize() == pageSize
    ensures store.nodes == map[] && store.others == map[] && store.held == map[] && store.supply == PageSupply([], 1)
  {
    hide M.Inv, M.Contents, C.Flushable, B.BufferPool.Valid, Agrees;
    var pool := NewPool(pageSize, capacity);
    store := new PageStore(pool, map[], map[]);
  }

  /** The same pool, idle, for another tree in the file, whose nodes are on pages that are none of this store's. */
  method Beside(store: PageStore, ghost nodes: map<PageId, Node>) returns (beside: PageStore)
    requires store.Valid() && store.held == map[]
    requires forall id {:trigger nodes[id]} :: id in nodes ==> id in store.others && Holds(store.others[id], nodes[id])
    ensures fresh(beside) && beside.Valid() && beside.pool == store.pool && beside.nodes == nodes && beside.held == map[]
    ensures beside.supply == store.supply && store.Valid()
    ensures forall id {:trigger store.nodes[id]} :: id in store.nodes ==>
              id in beside.others && Holds(beside.others[id], store.nodes[id])
    ensures forall p {:trigger store.others[p]} :: p in store.others && p !in nodes ==>
              p in beside.others && beside.others[p] == store.others[p]
  {
    hide M.Inv, C.Flushable, Holds;
    ghost var pages := M.Contents(store.pool.View());
    HeldAreGuards(store.pool.View(), store.guards, store.held);
    RestOfPages(pages, store.nodes, store.others, nodes);
    beside := new PageStore(store.pool, nodes, pages - nodes.Keys);
  }

  lemma RestOfPages(pages: map<nat, Bytes>, a: map<PageId, Node>, others: map<nat, Bytes>, b: map<PageId, Node>)
    requires PagesOk(pages, a, others)
    requires forall id {:trigger b[id]} :: id in b ==> id in others && Holds(others[id], b[id])
    ensures PagesOk(pages, b, pages - b.Keys)
    ensures forall id {:trigger a[id]} :: id in a ==> id in pages - b.Keys && Holds((pages - b.Keys)[id], a[id])
    ensures forall p {:trigger others[p]} :: p in others && p !in b ==> p in pages - b.Keys && (pages - b.Keys)[p] == others[p]
  {
    hide Holds;
  }

  /** `read_all_entries` and the header, by the type of the page. */
  method DecodeNode(data: Bytes, ghost node: Node) returns (n: Node)
    requires Holds(data, node)
    ensures n == node
  {
    if node.Leaf? { LeafRoundTrip(data, node); } else { InternalRoundTrip(data, node); }
    TypeByte(data, node);
    hide HoldsLeaf, HoldsInternal;
    if data[0] == PAGE_TYPE_LEAF {
      var entries := ReadAllLeafEntries(data);
      assert entries == node.entries;
      n := Leaf(U64At(data, 8), U64At(data, 16), U64At(data, 24), entries);
    } else {
      var seps := ReadAllSeps(data);
      assert seps == node.seps;
      n := Internal(U64At(data, 8), U64At(data, 16), seps);
    }
  }

  lemma TypeByte(data: Bytes, node: Node)
    requires Holds(data, node)
    ensures |data| > 0 && (data[0] == PAGE_TYPE_LEAF <==> node.Leaf?) && IsTreePage(data)
  {
  }

  /** The page has the type of a leaf or of an internal page. */
  predicate IsTreePage(data: Bytes) {
    |data| > 0 && (data[0] == PAGE_TYPE_LEAF || data[0] == PAGE_TYPE_INTERNAL)
  }

  /** `rebuild`, in a buffer of the size of a page. */
  method EncodeNode(before: Bytes, n: Node) returns (data: Bytes)
    requires |before| <= MAX_PAGE && Fits(n, |before|)
    ensures Holds(data, n) && |data| == |before|
  {
    hide HoldsLeaf, HoldsInternal;
    var page := new byte[|before|](i requires 0 <= i < |before| => before[i]);
    if n.Leaf? {
      RebuildLeaf(page, n.entries, n.parent, n.prev, n.next);
    } else {
      RebuildInternal(page, n.seps, n.parent, n.first);
    }
    data := page[..];
  }

  method PatchParent(before: Bytes, ghost n: Node, p: PageId) returns (data: Bytes)
    requires |before| <= MAX_PAGE && Holds(before, n)
    ensures Holds(data, WithParent(n, p)) && |data| == |before|
  {
    TypeByte(before, n);
    hide HoldsLeaf, HoldsInternal;
    var page := new byte[|before|](i requires 0 <= i < |before| => before[i]);
    assert page[..] == before;
    if before[0] == PAGE_TYPE_LEAF {
      SetLeafPointer(page, Parent, p, n);
      assert WithPointer(n, Parent, p) == WithParent(n, p);
    } else {
      SetInternalParent(page, p, n);
    }
    data := page[..];
  }

  method PatchPrev(before: Bytes, ghost n: Node, p: PageId) returns (data: Bytes)
    requires |before| <= MAX_PAGE && n.Leaf? && Holds(before, n)
    ensures Holds(data, WithPrev(n, p)) && |data| == |before|
  {
    hide HoldsLeaf, HoldsInternal;
    var page := new byte[|before|](i requires 0 <= i < |before| => before[i]);
    assert page[..] == before;
    SetLeafPointer(page, Prev, p, n);
    assert WithPointer(n, Prev, p) == WithPrev(n, p);
    data := page[..];
  }

  lemma WroteIs(s: M.Pool, h: nat, data: Bytes, s': M.Pool)
    requires M.Next(s, M.Wrote(h, data), s')
    ensures M.MayWrite(s, h) && s.guards[h].page in s.table && s.table[s.guards[h].page] < |s.frames|
    ensures s' == M.Write(s, h, data)
  {
  }

  /** A held page has its guard, and its node is on it. */
  lemma HeldFacts(s: M.Pool, id: PageId, guards: map<PageId, nat>, held: map<PageId, bool>, nodes: map<PageId, Node>, others: map<nat, Bytes>)
    requires Agrees(s, guards, held, nodes, others) && id in held
    ensures id in guards && GuardIs(s, guards, held, id)
    ensures id in s.disk && id in nodes && Holds(M.Contents(s)[id], nodes[id])
    ensures id in s.table && s.table[id] < |s.frames| && (held[id] ==> M.MayWrite(s, guards[id]))
  {
    assert GuardIs(s, guards, held, id);
    assert M.GuardOk(s, guards[id]) && M.EntryOk(s, id);
    assert id in M.Contents(s);
  }

  lemma DropAgrees(s: M.Pool, id: PageId, guards: map<PageId, nat>, held: map<PageId, bool>, nodes: map<PageId, Node>, others: map<nat, Bytes>)
    requires Agrees(s, guards, held, nodes, others) && id in held && id in guards && GuardIs(s, guards, held, id)
    requires id in s.table && s.table[id] < |s.frames|
    ensures Agrees(M.Drop(s, guards[id]), guards - {id}, held - {id}, nodes, others)
  {
    M.DropKeeps(s, guards[id]);
    C.DroppedFlushable(s, guards[id]);
    hide M.Inv, M.Contents, C.Flushable, PagesOk;
    GuardGone(s, M.Drop(s, guards[id]), guards, held, id);
  }

  lemma WriteAgrees(s: M.Pool, id: PageId, data: Bytes, n: Node,
                    guards: map<PageId, nat>, held: map<PageId, bool>, nodes: map<PageId, Node>, others: map<nat, Bytes>)
    requires Agrees(s, guards, held, nodes, others) && id in held && id in guards && GuardIs(s, guards, held, id)
    requires M.MayWrite(s, guards[id]) && id in s.table && s.table[id] < |s.frames| && id in nodes && Holds(data, n)
    ensures Agrees(M.Write(s, guards[id], data), guards, held, nodes[id := n], others)
  {
    var s' := M.Write(s, guards[id], data);
    M.WriteKeeps(s, guards[id], data);
    C.WrittenFlushable(s, guards[id], data);
    hide M.Inv, M.Contents, C.Flushable, Holds;
    GuardWrote(s, s', guards, held, guards[id]);
    PageWritten(M.Contents(s), id, data, n, nodes, others);
  }

  lemma PageWritten(pages: map<nat, Bytes>, id: PageId, data: Bytes, n: Node, nodes: map<PageId, Node>, others: map<nat, Bytes>)
    requires PagesOk(pages, nodes, others) && Holds(data, n) && id !in others
    ensures PagesOk(pages[id := data], nodes[id := n], others)
  {
    hide Holds;
  }
}
