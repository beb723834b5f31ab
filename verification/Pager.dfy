/** Fixed-size pages in a file: the header page, and a free list threaded through the first
    eight bytes of the free pages. The list is a stack: the page freed last is the first to be used again, and its
    head is in the header. Page 0 is the header and is never part of it. */
module Pager {
  import opened Keys
  import opened LittleEndian

  const MAGIC: Bytes := [0x46, 0x45, 0x52, 0x52, 0x49, 0x54, 0x45, 0x00]
  const FORMAT_VERSION: nat := 1
  const PAGE_4K: nat := 4096
  const PAGE_8K: nat := 8192
  const MAX_U64: nat := 0xFFFF_FFFF_FFFF_FFFF
  const MAX_U32: nat := 0xFFFF_FFFF

  datatype PagerError = OutOfRange(page: nat) | Corrupt | InvalidPageSize(size: nat)
  datatype PagerResult<+T> = Ok(value: T) | Err(error: PagerError)

  function Zeros(n: nat): (b: Bytes)
    ensures |b| == n && forall i :: 0 <= i < n ==> b[i] == 0
  {
    seq(n, i => 0)
  }

  // ── The header page ──

  datatype Header = Header(pageSize: nat, pageCount: nat, freeHead: nat, walSeq: nat)

  predicate HeaderInRange(h: Header) {
    (h.pageSize == PAGE_4K || h.pageSize == PAGE_8K) && h.pageCount <= MAX_U64 && h.freeHead <= MAX_U64 && h.walSeq <= MAX_U32
  }

  function HeaderFields(h: Header): (b: Bytes)
    ensures |b| == 36
  {
    MAGIC + ToLE(FORMAT_VERSION, 4) + ToLE(h.pageSize, 4) + ToLE(h.pageCount, 8) + ToLE(h.freeHead, 8) + ToLE(h.walSeq, 4)
  }

  function HeaderPage(h: Header): (b: Bytes)
    requires h.pageSize >= 36
    ensures |b| == h.pageSize
  {
    HeaderFields(h) + Zeros(h.pageSize - 36)
  }

  /** Reading a header page back, with the checks made when a file is opened. */
  function ParseHeader(page: Bytes): PagerResult<Header> {
    if |page| < 36 then Err(Corrupt)
    else if page[..8] != MAGIC then Err(Corrupt)
    else if FromLE(page[8..12]) != FORMAT_VERSION then Err(Corrupt)
    else
      var size := FromLE(page[12..16]);
      if size != PAGE_4K && size != PAGE_8K then Err(InvalidPageSize(size))
      else Ok(Header(size, FromLE(page[16..24]), FromLE(page[24..32]), FromLE(page[32..36])))
  }

  lemma FieldsApart(m: Bytes, v: Bytes, s: Bytes, n: Bytes, f: Bytes, w: Bytes, z: Bytes)
    requires |m| == |n| == |f| == 8 && |v| == |s| == |w| == 4
    ensures var page := m + v + s + n + f + w + z;
            && page[..8] == m && page[8..12] == v && page[12..16] == s
            && page[16..24] == n && page[24..32] == f && page[32..36] == w
  {
  }

  lemma HeaderRoundTrip(h: Header)
    requires HeaderInRange(h)
    ensures ParseHeader(HeaderPage(h)) == Ok(h)
  {
    WidthValues();
    FromToLE(FORMAT_VERSION, 4);
    FromToLE(h.pageSize, 4);
    FromToLE(h.pageCount, 8);
    FromToLE(h.freeHead, 8);
    FromToLE(h.walSeq, 4);
    hide ToLE, FromLE, Pow256;
    FieldsApart(MAGIC, ToLE(FORMAT_VERSION, 4), ToLE(h.pageSize, 4), ToLE(h.pageCount, 8), ToLE(h.freeHead, 8),
                ToLE(h.walSeq, 4), Zeros(h.pageSize - 36));
  }

  /** The header page byte by byte: FERRITE and a zero byte, version 1, the page size, the number of pages, the head of the free
      list and the sequence number, and zeros. */
  lemma HeaderBytes(h: Header)
    requires h.pageSize >= 36
    ensures HeaderPage(h)[..12] == [0x46, 0x45, 0x52, 0x52, 0x49, 0x54, 0x45, 0x00, 1, 0, 0, 0]
    ensures HeaderPage(h)[12..36] == ToLE(h.pageSize, 4) + ToLE(h.pageCount, 8) + ToLE(h.freeHead, 8) + ToLE(h.walSeq, 4)
    ensures forall i :: 36 <= i < h.pageSize ==> HeaderPage(h)[i] == 0
  {
    FourBytes(1);
    hide ToLE, Zeros;
    var front, back := MAGIC + ToLE(1, 4), ToLE(h.pageSize, 4) + ToLE(h.pageCount, 8) + ToLE(h.freeHead, 8) + ToLE(h.walSeq, 4);
    assert HeaderPage(h) == front + back + Zeros(h.pageSize - 36);
    ThreeParts(front, back, Zeros(h.pageSize - 36));
  }

  lemma ThreeParts(a: Bytes, b: Bytes, c: Bytes)
    ensures var s := a + b + c;
            && s[..|a|] == a && s[|a|..|a| + |b|] == b
            && forall i :: 0 <= i < |c| ==> s[|a| + |b| + i] == c[i]
  {
  }

  lemma NumberIs(b: Bytes, n: nat)
    requires n < Pow256(|b|)
    ensures FromLE(b) == n <==> b == ToLE(n, |b|)
  {
    FromToLE(n, |b|);
    if FromLE(b) == n { FromLEInjective(b, ToLE(n, |b|)); }
  }

  /** Which files can be opened by their first page: those that begin with FERRITE, version 1 and a page size of 4096 or 8192.
      The page size decides the error only when everything before it is right. */
  lemma OpensExactly(page: Bytes)
    ensures ParseHeader(page).Ok? <==>
              && |page| >= 36 && page[..12] == [0x46, 0x45, 0x52, 0x52, 0x49, 0x54, 0x45, 0x00, 1, 0, 0, 0]
              && (page[12..16] == [0, 0x10, 0, 0] || page[12..16] == [0, 0x20, 0, 0])
    ensures ParseHeader(page).Err? && ParseHeader(page).error != Corrupt <==>
              && |page| >= 36 && page[..12] == [0x46, 0x45, 0x52, 0x52, 0x49, 0x54, 0x45, 0x00, 1, 0, 0, 0]
              && page[12..16] != [0, 0x10, 0, 0] && page[12..16] != [0, 0x20, 0, 0]
    ensures ParseHeader(page).Ok? ==>
              var h := ParseHeader(page).value;
              page[12..36] == ToLE(h.pageSize, 4) + ToLE(h.pageCount, 8) + ToLE(h.freeHead, 8) + ToLE(h.walSeq, 4)
  {
    if |page| >= 36 {
      hide ToLE, FromLE, Pow256;
      BeginsRight(page);
      SizeRight(page);
      FieldsRight(page);
    }
  }

  lemma BeginsRight(page: Bytes)
    requires |page| >= 36
    ensures page[..12] == [0x46, 0x45, 0x52, 0x52, 0x49, 0x54, 0x45, 0x00, 1, 0, 0, 0] <==>
            page[..8] == MAGIC && FromLE(page[8..12]) == FORMAT_VERSION
  {
    WidthValues();
    FourBytes(1);
    NumberIs(page[8..12], 1);
    hide ToLE, FromLE, Pow256;
    TwoParts(page[..12], MAGIC, [1, 0, 0, 0]);
    assert page[..12][..8] == page[..8] && page[..12][8..] == page[8..12];
    assert MAGIC + [1, 0, 0, 0] == [0x46, 0x45, 0x52, 0x52, 0x49, 0x54, 0x45, 0x00, 1, 0, 0, 0];
  }

  lemma TwoParts(s: Bytes, a: Bytes, b: Bytes)
    requires |s| == |a| + |b|
    ensures s == a + b <==> s[..|a|] == a && s[|a|..] == b
  {
    assert s == s[..|a|] + s[|a|..];
  }

  lemma SizeRight(page: Bytes)
    requires |page| >= 36
    ensures FromLE(page[12..16]) == PAGE_4K <==> page[12..16] == [0, 0x10, 0, 0]
    ensures FromLE(page[12..16]) == PAGE_8K <==> page[12..16] == [0, 0x20, 0, 0]
  {
    WidthValues();
    FourBytes(4096);
    FourBytes(8192);
    NumberIs(page[12..16], 4096);
    NumberIs(page[12..16], 8192);
  }

  lemma FieldsRight(page: Bytes)
    requires |page| >= 36
    ensures page[12..36] == ToLE(FromLE(page[12..16]), 4) + ToLE(FromLE(page[16..24]), 8)
                            + ToLE(FromLE(page[24..32]), 8) + ToLE(FromLE(page[32..36]), 4)
  {
    hide ToLE, FromLE;
    ToFromLE(page[12..16]);
    ToFromLE(page[16..24]);
    ToFromLE(page[24..32]);
    ToFromLE(page[32..36]);
    FieldsJoined(page);
  }

  lemma FieldsJoined(page: Bytes)
    requires |page| >= 36
    ensures page[12..36] == page[12..16] + page[16..24] + page[24..32] + page[32..36]
  {
  }

  // ── The free list ──

  /** The link in the first eight bytes of a free page. */
  function Link(page: Bytes): nat
    requires |page| >= 8
  {
    FromLE(page[..8])
  }

  function WithLink(page: Bytes, next: nat): (b: Bytes)
    requires |page| >= 8
    ensures |b| == |page|
  {
    ToLE(next, 8) + page[8..]
  }

  lemma LinkRoundTrip(page: Bytes, next: nat)
    requires |page| >= 8 && next <= MAX_U64
    ensures Link(WithLink(page, next)) == next
  {
    WidthValues();
    FromToLE(next, 8);
    assert WithLink(page, next)[..8] == ToLE(next, 8);
  }

  function HeadOf(free: seq<nat>): nat {
    if free == [] then 0 else free[0]
  }

  ghost predicate FreePageOk(pages: seq<Bytes>, free: seq<nat>, i: nat)
    requires i < |free|
  {
    && 0 < free[i] < |pages| && |pages[free[i]]| >= 8
    && Link(pages[free[i]]) == HeadOf(free[i + 1..])
  }

  /** The pages of the list, from the head, linked one to the next, without a cycle. */
  ghost predicate FreeChain(pages: seq<Bytes>, head: nat, free: seq<nat>) {
    && head == HeadOf(free)
    && (forall i {:trigger FreePageOk(pages, free, i)} :: 0 <= i < |free| ==> FreePageOk(pages, free, i))
    && (forall i, j :: 0 <= i < j < |free| ==> free[i] != free[j])
  }

  /** A list is determined by its head and the pages. */
  lemma {:induction false} ChainUnique(pages: seq<Bytes>, head: nat, a: seq<nat>, b: seq<nat>)
    requires FreeChain(pages, head, a) && FreeChain(pages, head, b)
    ensures a == b
    decreases |a|
  {
    if b != [] { assert FreePageOk(pages, b, 0); }
    if a != [] {
      assert FreePageOk(pages, a, 0);
      ChainTail(pages, a);
      ChainTail(pages, b);
      ChainUnique(pages, HeadOf(a[1..]), a[1..], b[1..]);
      assert a == [a[0]] + a[1..] && b == [b[0]] + b[1..];
    }
  }

  lemma ChainTail(pages: seq<Bytes>, free: seq<nat>)
    requires FreeChain(pages, HeadOf(free), free) && free != []
    ensures FreeChain(pages, HeadOf(free[1..]), free[1..])
  {
    forall i | 0 <= i < |free| - 1 ensures FreePageOk(pages, free[1..], i) {
      assert FreePageOk(pages, free, i + 1);
      assert free[1..][i + 1..] == free[i + 2..];
    }
  }

  /** Changing a page that is not free changes nothing in the list. */
  lemma ChainElsewhere(pages: seq<Bytes>, pages': seq<Bytes>, head: nat, free: seq<nat>)
    requires FreeChain(pages, head, free) && |pages| <= |pages'|
    requires forall q {:trigger pages'[q]} :: 0 < q < |pages| && q in free ==> pages'[q] == pages[q]
    ensures FreeChain(pages', head, free)
  {
    forall i | 0 <= i < |free| ensures FreePageOk(pages', free, i) { assert FreePageOk(pages, free, i); }
  }

  /** The list lives exactly as long as the links on its pages. */
  lemma OverwrittenChain(pages: seq<Bytes>, pages': seq<Bytes>, head: nat, free: seq<nat>, p: nat)
    requires FreeChain(pages, head, free) && p < |pages| == |pages'| && (p in free ==> |pages[p]| >= 8)
    requires pages' == pages[p := pages'[p]]
    ensures FreeChain(pages', head, free) <==> (p in free ==> |pages'[p]| >= 8 && Link(pages'[p]) == Link(pages[p]))
  {
    hide Link;
    if p in free {
      var k :| 0 <= k < |free| && free[k] == p;
      assert FreePageOk(pages, free, k);
      if FreeChain(pages', head, free) { assert FreePageOk(pages', free, k); }
    }
    if p in free ==> |pages'[p]| >= 8 && Link(pages'[p]) == Link(pages[p]) {
      forall i | 0 <= i < |free| ensures FreePageOk(pages', free, i) { assert FreePageOk(pages, free, i); }
    }
  }

  lemma ChainPush(pages: seq<Bytes>, pages': seq<Bytes>, free: seq<nat>, p: nat)
    requires FreeChain(pages, HeadOf(free), free) && 0 < p < |pages| == |pages'| && p !in free && |pages'[p]| >= 8
    requires Link(pages'[p]) == HeadOf(free)
    requires forall q {:trigger pages'[q]} :: 0 < q < |pages| && q != p ==> pages'[q] == pages[q]
    ensures FreeChain(pages', p, [p] + free)
  {
    var free' := [p] + free;
    assert free'[1..] == free;
    forall i | 0 <= i < |free'| ensures FreePageOk(pages', free', i) {
      if i > 0 {
        assert FreePageOk(pages, free, i - 1);
        assert free'[i + 1..] == free[i..];
      }
    }
  }

  /** The pager does not notice a page freed twice: pushing a page that is already in the list leaves no
      list at all, because following the links never ends. */
  lemma DoubleFreeLosesList(pages: seq<Bytes>, pages': seq<Bytes>, free: seq<nat>, p: nat, free': seq<nat>)
    requires FreeChain(pages, HeadOf(free), free) && p in free && p < |pages| == |pages'|
    requires |pages'[p]| >= 8 && Link(pages'[p]) == HeadOf(free)
    requires forall q {:trigger pages'[q]} :: 0 < q < |pages| && q != p ==> pages'[q] == pages[q]
    ensures !FreeChain(pages', p, free')
  {
    if FreeChain(pages', p, free') {
      var k :| 0 <= k < |free| && free[k] == p;
      assert FreePageOk(pages, free, k);
      assert FreePageOk(pages', free', 0);
      LinksFollow(pages, pages', free, p, free', k);
    }
  }

  /** No list starts at the head. */
  ghost predicate NoList(pages: seq<Bytes>, head: nat) {
    forall list :: !FreeChain(pages, head, list)
  }

  /** Pushing a page does not mend a list that is lost. */
  lemma PushOnNoList(pages: seq<Bytes>, pages': seq<Bytes>, head: nat, p: nat)
    requires NoList(pages, head) && 0 < p < |pages| == |pages'| && |pages'[p]| >= 8 && Link(pages'[p]) == head
    requires forall q {:trigger pages'[q]} :: 0 < q < |pages| && q != p ==> pages'[q] == pages[q]
    ensures NoList(pages', p)
  {
    forall list ensures !FreeChain(pages', p, list) {
      if FreeChain(pages', p, list) { RestOfPushed(pages, pages', head, p, list); }
    }
  }

  lemma RestOfPushed(pages: seq<Bytes>, pages': seq<Bytes>, head: nat, p: nat, list: seq<nat>)
    requires FreeChain(pages', p, list) && 0 < p < |pages| == |pages'| && |pages'[p]| >= 8 && Link(pages'[p]) == head
    requires forall q {:trigger pages'[q]} :: 0 < q < |pages| && q != p ==> pages'[q] == pages[q]
    ensures list != [] && FreeChain(pages, head, list[1..])
  {
    hide Link;
    assert FreePageOk(pages', list, 0);
    ChainTail(pages', list);
    forall i | 0 <= i < |list| - 1 ensures FreePageOk(pages, list[1..], i) { assert FreePageOk(pages', list[1..], i); }
  }

  lemma HeadOfChain(pages: seq<Bytes>, head: nat, free: seq<nat>)
    requires FreeChain(pages, head, free)
    ensures head == HeadOf(free)
  {
  }

  lemma FreeAreInFile(pages: seq<Bytes>, head: nat, free: seq<nat>)
    requires FreeChain(pages, head, free)
    ensures forall p :: p in free ==> 0 < p < |pages|
  {
    forall p | p in free ensures 0 < p < |pages| {
      var k :| 0 <= k < |free| && free[k] == p;
      assert FreePageOk(pages, free, k);
    }
  }

  lemma {:induction false} LinksFollow(pages: seq<Bytes>, pages': seq<Bytes>, free: seq<nat>, p: nat, free': seq<nat>, i: nat)
    requires FreeChain(pages, HeadOf(free), free) && p < |pages| == |pages'|
    requires |pages'[p]| >= 8 && FreeChain(pages', p, free') && free' != [] && Link(pages'[p]) == HeadOf(free)
    requires forall q {:trigger pages'[q]} :: 0 < q < |pages| && q != p ==> pages'[q] == pages[q]
    requires i < |free| && forall j :: 0 <= j < i ==> free[j] != p
    ensures i + 1 < |free'| && free'[i + 1] == free[i]
  {
    assert FreePageOk(pages, free, i);
    if i == 0 {
      assert FreePageOk(pages', free', 0);
    } else {
      LinksFollow(pages, pages', free, p, free', i - 1);
      assert FreePageOk(pages, free, i - 1) && FreePageOk(pages', free', i);
    }
  }

  /** The pages that are neither the header nor free. */
  ghost function LivePages(count: nat, free: seq<nat>): set<nat> {
    set p: nat | 0 < p < count && p !in free
  }

  ghost function LiveContents(pages: seq<Bytes>, free: seq<nat>): (m: map<nat, Bytes>)
    ensures m.Keys == LivePages(|pages|, free)
  {
    map p: nat | 0 < p < |pages| && p !in free :: pages[p]
  }

  lemma LiveContentsGrow(pages: seq<Bytes>, pages': seq<Bytes>, page: Bytes)
    requires 0 < |pages| && |pages'| == |pages| + 1 && pages'[|pages|] == page
    requires forall q {:trigger pages'[q]} :: 0 < q < |pages| ==> pages'[q] == pages[q]
    ensures LiveContents(pages', []) == LiveContents(pages, [])[|pages| := page]
    ensures |pages| !in LiveContents(pages, [])
  {
  }

  class Pager {
    const pageSize: nat
    /** The file, page by page. */
    var pages: seq<Bytes>
    var pageCount: nat
    var freeHead: nat
    var walSeq: nat
    ghost var free: seq<nat>

    ghost predicate Valid(): (v: bool)
      reads this
      ensures v ==> Sized()
    {
      Sized() && FreeChain(pages, freeHead, free)
    }

    /** All but the free list. */
    ghost predicate Sized()
      reads this
    {
      && HeaderInRange(HeaderNow())
      && 0 < pageCount == |pages|
      && (forall p {:trigger pages[p]} :: 0 <= p < |pages| ==> |pages[p]| == pageSize)
      && pages[0] == HeaderPage(HeaderNow())
    }

    function HeaderNow(): Header
      reads this
    {
      Header(pageSize, pageCount, freeHead, walSeq)
    }

    /** The contents of the live pages. */
    ghost function Disk(): map<nat, Bytes>
      reads this
    {
      LiveContents(pages, free)
    }

    constructor Create(pageSize: nat)
      requires pageSize == PAGE_4K || pageSize == PAGE_8K
      ensures Valid() && Disk() == map[] && free == [] && pageCount == 1 && walSeq == 0 && this.pageSize == pageSize
    {
      this.pageSize := pageSize;
      pageCount := 1;
      freeHead := 0;
      walSeq := 0;
      pages := [HeaderPage(Header(pageSize, 1, 0, 0))];
      free := [];
    }

    method WriteHeader()
      requires pages != [] && pageSize >= 36
      modifies `pages
      ensures pages == old(pages)[0 := HeaderPage(HeaderNow())]
    {
      pages := pages[0 := HeaderPage(HeaderNow())];
    }

    /** A page from the free list, last freed first, or one more page at the end of the file. */
    method Alloc() returns (r: PagerResult<nat>)
      requires Valid()
      modifies this
      ensures Valid() && walSeq == old(walSeq)
      ensures r.Ok? <==> old(free) != [] || old(pageCount) < 0xFFFF_FFFF_FFFF_FFFF
      ensures r.Ok? ==> r.value !in old(Disk()) && r.value > 0 && Disk() == old(Disk())[r.value := Zeros(pageSize)]
      ensures r.Ok? ==> r.value < |pages| && |pages[r.value]| == pageSize && forall i :: 0 <= i < pageSize ==> pages[r.value][i] == 0
      ensures r.Ok? && old(free) != [] ==> r.value == old(free)[0] && free == old(free)[1..] && pageCount == old(pageCount)
      ensures r.Ok? && old(free) == [] ==> r.value == old(pageCount) && free == [] && pageCount == old(pageCount) + 1
      ensures r.Err? ==> unchanged(this)
    {
      if free != [] { assert FreePageOk(pages, free, 0); }
      if freeHead != 0 {
        var idx := TakeFree();
        return Ok(idx);
      }
      if pageCount == MAX_U64 { return Err(Corrupt); }
      var idx := Extend();
      return Ok(idx);
    }

    method TakeFree() returns (idx: nat)
      requires Valid() && free != []
      modifies this
      ensures Valid() && walSeq == old(walSeq) && pageCount == old(pageCount)
      ensures idx == old(free)[0] > 0 && free == old(free)[1..] && idx < |pages| && pages[idx] == Zeros(pageSize)
      ensures idx !in old(Disk()) && Disk() == old(Disk())[idx := Zeros(pageSize)]
    {
      ghost var pages0 := pages;
      idx := freeHead;
      assert FreePageOk(pages, free, 0);
      FromLEBound(pages[idx][..8]);
      WidthValues();
      freeHead := Link(pages[idx]);
      ChainTail(pages, free);
      free := free[1..];
      pages := pages[idx := Zeros(pageSize)];
      WriteHeader();
      ChainElsewhere(pages0, pages, freeHead, free);
    }

    method Extend() returns (idx: nat)
      requires Valid() && free == [] && pageCount < MAX_U64
      modifies this
      ensures Valid() && walSeq == old(walSeq) && pageCount == old(pageCount) + 1
      ensures idx == old(pageCount) && free == [] && idx < |pages| && pages[idx] == Zeros(pageSize)
      ensures idx !in old(Disk()) && Disk() == old(Disk())[idx := Zeros(pageSize)]
    {
      ghost var pages0 := pages;
      idx := pageCount;
      pageCount := pageCount + 1;
      pages := pages + [Zeros(pageSize)];
      WriteHeader();
      hide HeaderPage, LiveContents, LivePages, Link;
      LiveContentsGrow(pages0, pages, Zeros(pageSize));
      ChainElsewhere(pages0, pages, freeHead, free);
    }

    /** Puts a page at the head of the free list. If the page is already on it, no list is left, and none comes back. */
    method Free(p: nat) returns (r: PagerResult<()>)
      requires Sized()
      modifies this
      ensures Sized() && walSeq == old(walSeq) && pageCount == old(pageCount)
      ensures r == if p == 0 then Err(Corrupt) else if p >= pageCount then Err(OutOfRange(p)) else Ok(())
      ensures r.Err? ==> unchanged(this)
      ensures r.Ok? ==> pages[p][..8] == ToLE(old(freeHead), 8) && pages[p][8..] == old(pages)[p][8..]
      ensures r.Ok? ==> freeHead == p && forall q {:trigger pages[q]} :: 0 < q < pageCount && q != p ==> pages[q] == old(pages)[q]
      ensures old(Valid()) && p !in old(free) ==> Valid() && (r.Ok? <==> p in old(Disk()))
      ensures old(Valid()) && p !in old(free) && r.Ok? ==> free == [p] + old(free) && Disk() == old(Disk()) - {p}
      ensures old(Valid()) && p in old(free) ==> r.Ok? && NoList(pages, freeHead)
      ensures NoList(old(pages), old(freeHead)) ==> NoList(pages, freeHead)
    {
      if p == 0 || p >= pageCount {
        if Valid() { FreeAreInFile(pages, freeHead, free); }
        return if p == 0 then Err(Corrupt) else Err(OutOfRange(p));
      }
      ghost var pages0, head0, valid := pages, freeHead, Valid();
      pages := pages[p := WithLink(pages[p], freeHead)];
      LinkRoundTrip(pages0[p], freeHead);
      freeHead := p;
      WriteHeader();
      hide HeaderPage, Link, WithLink, FreeChain;
      if NoList(pages0, head0) { PushOnNoList(pages0, pages, head0, p); }
      if valid {
        HeadOfChain(pages0, head0, free);
        if p in free {
          forall list ensures !FreeChain(pages, p, list) { DoubleFreeLosesList(pages0, pages, free, p, list); }
        } else {
          ChainPush(pages0, pages, free, p);
          free := [p] + free;
        }
      }
      return Ok(());
    }

    method Read(p: nat) returns (r: PagerResult<Bytes>)
      requires Valid()
      ensures r == if p >= pageCount then Err(OutOfRange(p)) else Ok(pages[p])
      ensures p in Disk() ==> r == Ok(Disk()[p]) && |Disk()[p]| == pageSize
    {
      if p >= pageCount { return Err(OutOfRange(p)); }
      return Ok(pages[p]);
    }

    /** What overwriting a page must keep: the header of the header page, the link of a free page. */
    ghost predicate KeepsList(p: nat, data: Bytes)
      reads this
      requires p < |pages|
    {
      && (p == 0 ==> pageSize >= 36 && data == HeaderPage(HeaderNow()))
      && (p in free ==> |data| >= 8 && |pages[p]| >= 8 && Link(data) == Link(pages[p]))
    }

    /** Overwrites a page, whichever it is; the pager does not check that it is a live one. */
    method WritePage(p: nat, data: Bytes) returns (r: PagerResult<()>)
      requires Sized()
      modifies `pages
      ensures r == if p >= pageCount then Err(OutOfRange(p)) else if |data| != pageSize then Err(Corrupt) else Ok(())
      ensures r.Err? ==> unchanged(this)
      ensures r.Ok? ==> pages == old(pages)[p := data] && (old(Valid()) ==> (Valid() <==> old(KeepsList(p, data))))
      ensures old(Valid()) && r.Ok? && p > 0 && p !in free ==> Valid() && Disk() == old(Disk())[p := data]
      ensures old(Valid()) && r.Ok? && (p == 0 || p in free) ==> Disk() == old(Disk())
    {
      if p >= pageCount { return Err(OutOfRange(p)); }
      if |data| != pageSize { return Err(Corrupt); }
      ghost var pages0, valid := pages, Valid();
      pages := pages[p := data];
      if valid { OverwrittenChain(pages0, pages, freeHead, free, p); }
      return Ok(());
    }

    method RecordWalCommit(seqNo: nat)
      requires Valid() && seqNo <= MAX_U32
      modifies this
      ensures Valid() && walSeq == seqNo && free == old(free) && pageCount == old(pageCount) && Disk() == old(Disk())
    {
      ghost var pages0 := pages;
      walSeq := seqNo;
      WriteHeader();
      ChainElsewhere(pages0, pages, freeHead, free);
    }

    /** Writes the header page again. */
    method SyncHeader()
      requires Valid()
      modifies `pages
      ensures Valid() && pages == old(pages)
    {
      ghost var pages0 := pages;
      WriteHeader();
      assert pages == pages0;
    }

    /** Opens a file by its header page. */
    method Reopen() returns (r: PagerResult<Header>)
      requires Valid()
      ensures r == Ok(HeaderNow())
    {
      HeaderRoundTrip(HeaderNow());
      r := ParseHeader(pages[0]);
    }
  }

  /** A new file, if the page size is one of the two. */
  method CreateFile(pageSize: nat) returns (r: PagerResult<Pager>)
    ensures r.Ok? <==> pageSize == 4096 || pageSize == 8192
    ensures r.Err? ==> r.error == InvalidPageSize(pageSize)
    ensures r.Ok? ==> fresh(r.value) && r.value.Valid() && r.value.HeaderNow() == Header(pageSize, 1, 0, 0) && r.value.free == []
  {
    if pageSize != PAGE_4K && pageSize != PAGE_8K { return Err(InvalidPageSize(pageSize)); }
    var pager := new Pager.Create(pageSize);
    return Ok(pager);
  }

  /** A file left by any operations, opened again, has the same free list: it is determined by what is on disk. */
  lemma ReopenedList(pages: seq<Bytes>, h: Header, free: seq<nat>, free': seq<nat>)
    requires pages != [] && HeaderInRange(h) && pages[0] == HeaderPage(h)
    requires FreeChain(pages, h.freeHead, free)
    requires ParseHeader(pages[0]).Ok? ==> FreeChain(pages, ParseHeader(pages[0]).value.freeHead, free')
    ensures ParseHeader(pages[0]) == Ok(h) && free' == free
  {
    HeaderRoundTrip(h);
    ChainUnique(pages, h.freeHead, free, free');
  }
}
