/** `struct kl_mm`: the memory manager over all blocks and the shadow. */
module MemoryManager {
  import opened Wrappers
  import opened Bitmaps
  import opened LiveRanges
  import opened Layout
  import opened Memory
  import opened PageTables
  import opened ManagerState
  import opened NullFrees
  import opened Accounting
  import opened Shifts

  /** Block `m` and its tables are the ones with index `i`, and no other's. */
  ghost predicate Homed(m: KlMemory, i: nat, home: map<object, nat>, cells: set<object>) {
    && m in cells && m.pageBitmap in cells && m.freeTable in cells && m.ownerTable in cells
    && m as object in home && m.pageBitmap as object in home
    && m.freeTable as object in home && m.ownerTable as object in home
    && home[m] == home[m.pageBitmap] == home[m.freeTable] == home[m.ownerTable] == i
  }

  ghost function WithBlock(home: map<object, nat>, m: KlMemory, i: nat): map<object, nat> {
    home[m := i][m.pageBitmap := i][m.freeTable := i][m.ownerTable := i]
  }

  /** The blocks of a new manager. */
  method SetupBlocks(infos: seq<MemInfo>)
    returns (ms: seq<KlMemory>, ghost home: map<object, nat>, ghost cells: set<object>)
    ensures fresh(cells) && |ms| == |infos|
    ensures forall j :: 0 <= j < |ms| ==> Homed(ms[j], j, home, cells)
    ensures forall j :: 0 <= j < |ms| ==> ms[j].info == infos[j] && ms[j].Shaped() && !ms[j].locked
    ensures forall j :: 0 <= j < |ms| ==> ms[j].View() == EmptyBlock(infos[j].PageCount())
  {
    ms, home, cells := [], map[], {};
    for i := 0 to |infos|
      invariant fresh(cells) && |ms| == i
      invariant forall j :: 0 <= j < i ==> Homed(ms[j], j, home, cells)
      invariant forall j :: 0 <= j < i ==> ms[j].info == infos[j] && ms[j].Shaped() && !ms[j].locked
      invariant forall j :: 0 <= j < i ==> ms[j].View() == EmptyBlock(infos[j].PageCount())
    {
      var m := new KlMemory(infos[i]);
      ms := ms + [m];
      home := WithBlock(home, m, i);
      cells := cells + m.Cells();
    }
  }

  /** The same with the shadow beside them. */
  method SetupAll(infos: seq<MemInfo>, huge: MemInfo)
    returns (ms: seq<KlMemory>, h: KlMemory, ghost home: map<object, nat>, ghost cells: set<object>)
    ensures fresh(cells) && |ms| == |infos|
    ensures forall j :: 0 <= j < |ms| ==> Homed(ms[j], j, home, cells)
    ensures forall j :: 0 <= j < |ms| ==> ms[j].info == infos[j] && ms[j].Shaped() && !ms[j].locked
    ensures forall j :: 0 <= j < |ms| ==> ms[j].View() == EmptyBlock(infos[j].PageCount())
    ensures h.info == huge && h.Shaped() && Homed(h, |ms|, home, cells)
  {
    ms, home, cells := SetupBlocks(infos);
    h := new KlMemory(huge);
    home := WithBlock(home, h, |ms|);
    cells := cells + h.Cells();
  }

  /** What a successful allocation got. */
  datatype Grant = Grant(loc: Loc, pages: nat, addr: nat, kind: int, pageBits: nat)

  function AllocReport(cb: bool, size: nat, owner: Owner, grant: Grant): seq<Report> {
    if cb then [Report(false, grant.addr, size, grant.kind, owner, grant.pageBits)] else []
  }

  function FreeReport(cb: bool, m: MemInfo, addr: nat, r: Range): seq<Report> {
    if cb then [Report(true, addr, Shl(r.len, m.pageBits), m.kind, r.owner, m.pageBits)] else []
  }

  /** The lowest vacant MAIN range of the pages needed, at its shadow address;
      for a size that wraps when it is rounded up that is no page at all. */
  ghost predicate HugeGrant(ms: seq<MemInfo>, hm: MemInfo, h: Heap, size: nat, grant: Grant)
    requires size > 0
  {
    var n := PagesNeeded(hm, size);
    && LowestVacant(ms, h, Wanted(n), grant.loc.pos)
    && grant == Grant(Loc(0, grant.loc.pos), n, PageIdToAddr(hm, grant.loc.pos), XPU_MEM_MAIN, hm.pageBits)
  }

  /** The lowest run of the first block of the kind that has room. */
  ghost predicate OrdinaryGrant(ms: seq<MemInfo>, bs: seq<Block>, kind: int, size: nat, grant: Grant)
    requires size > 0 && |bs| == |ms|
  {
    var fit := OrdinaryFit(ms, bs, kind, size, 0);
    fit.Some? && var at := fit.value;
    grant == Grant(LocOf(ms, at.block, at.page), PagesNeeded(ms[at.block], size),
                   PageIdToAddr(ms[at.block], at.page), kind, ms[at.block].pageBits)
  }

  /** The address lies in page `p` of block `i`, the first page of a live range of the owner. */
  ghost predicate FirstPageOf(ms: seq<MemInfo>, h: Heap, addr: nat, owner: Owner, i: nat, p: nat) {
    PageAt(ms, addr, i, p) && LocOf(ms, i, p) in h && h[LocOf(ms, i, p)].owner == owner
  }

  /** The callback of a free tells of it. */
  lemma {:induction false} FreeReportTells(ms: seq<MemInfo>, rs: seq<Report>, h: Heap, addr: nat, owner: Owner,
                                           i: nat, p: nat)
    requires Told(ms, rs, h) && FirstPageOf(ms, h, addr, owner, i, p)
    ensures var l := LocOf(ms, i, p); Told(ms, rs + FreeReport(true, ms[i], addr, h[l]), h - {l})
  {
    FreeIsTold(ms, rs, h, FreeReport(true, ms[i], addr, h[LocOf(ms, i, p)])[0], i, p);
  }

  /** The callback of a scan that names no owner in block `i`: for the share there. */
  ghost function ShareReport(cb: bool, ms: seq<MemInfo>, s: Mm, h: Heap, i: nat): seq<Report>
    requires Fits(ms, s) && i < |ms|
  {
    if Continued(SpanOf(ms, i), h) then FreeReport(cb, ms[i], ms[i].base, Range(s.blocks[i].len[0], NULL)) else []
  }

  /** All of them in the blocks below `upto`, by the first addresses of the blocks. */
  ghost function ShareReports(cb: bool, ms: seq<MemInfo>, s: Mm, h: Heap, upto: nat): seq<Report>
    requires Fits(ms, s) && upto <= |ms|
  {
    if upto == 0 then [] else ShareReports(cb, ms, s, h, upto - 1) + ShareReport(cb, ms, s, h, upto - 1)
  }

  /** The two blocks have no address in common. */
  predicate Separate(a: MemInfo, b: MemInfo) {
    a.Limit() <= b.base || b.Limit() <= a.base
  }

  /** What the platform tables guarantee of blocks of every kind. */
  ghost predicate Platform(ms: seq<MemInfo>) {
    && (forall i {:trigger WholePages(ms[i])} :: 0 <= i < |ms| ==> WholePages(ms[i]))
    && (forall i, j {:trigger Separate(ms[i], ms[j])} :: 0 <= i < j < |ms| ==> Separate(ms[i], ms[j]))
  }

  /** The address lies in the first page of block `i`, into which a range from
      an earlier block runs: what a free that names no owner must not be given. */
  ghost predicate NullHead(ms: seq<MemInfo>, h: Heap, addr: nat, i: nat) {
    i < |ms| && ms[i].base <= addr < ms[i].base + ms[i].PageSize() && Continued(SpanOf(ms, i), h)
  }

  lemma {:induction false} NullHeadAt(ms: seq<MemInfo>, h: Heap, addr: nat, i: nat)
    requires i < |ms| && WholePages(ms[i]) && ms[i].base <= addr < ms[i].Limit()
    ensures AddrToPageId(ms[i], addr) == 0 && Continued(SpanOf(ms, i), h) <==> NullHead(ms, h, addr, i)
  {
    AddrInPage(ms[i], addr);
    ShlZero(ms[i].pageBits);
    if addr < ms[i].base + ms[i].PageSize() { AddrToPageIdInverts(ms[i], 0, addr - ms[i].base); }
  }

  /** A free of this address in block `i` names an owner or stays off the share
      that an earlier block's range has there. */
  ghost predicate OffShare(ms: seq<MemInfo>, h: Heap, addr: nat, owner: Owner, i: nat) {
    owner != NULL || !NullHead(ms, h, addr, i)
  }

  ghost predicate OffShares(ms: seq<MemInfo>, h: Heap, addr: nat, owner: Owner) {
    owner != NULL || forall i: nat :: !NullHead(ms, h, addr, i)
  }

  /** What __free_locked finds at the page of the address. */
  lemma {:induction false} TestsFind(ms: seq<MemInfo>, s: Mm, h: Heap, addr: nat, owner: Owner, i: nat, p: nat)
    requires Fits(ms, s) && i < |ms| && WellFormed(h) && Represents(SpanOf(ms, i), s.blocks[i], h)
    requires WholePages(ms[i]) && ms[i].base <= addr < ms[i].Limit() && p == AddrToPageId(ms[i], addr)
    ensures var l := LocOf(ms, i, p);
      && p < ms[i].PageCount()
      && (l in h ==> s.blocks[i].len[p] == h[l].len)
      && if OffShare(ms, h, addr, owner, i) then TestsPass(s, i, p, owner) <==> l in h && h[l].owner == owner
         else p == 0 && TestsPass(s, i, p, owner) && s.blocks[i].len[p] <= ms[i].PageCount() && l !in h
  {
    AddrInPage(ms[i], addr);
    NullHeadAt(ms, h, addr, i);
    EntryOrShare(SpanOf(ms, i), s.blocks[i], h, p, owner);
  }

  /** An owner is named, or no block is one that a range runs into. */
  ghost predicate Named(ms: seq<MemInfo>, h: Heap, o: Owner) {
    forall i {:trigger SpanOf(ms, i)} :: 0 <= i < |ms| ==> NamedIn(SpanOf(ms, i), h, o)
  }

  /** An address in a page is found in its block, and maps to that page. */
  lemma {:induction false} PageIsFound(ms: seq<MemInfo>, i: nat, p: nat, addr: nat, found: Option<nat>)
    requires Platform(ms) && i < |ms| && p < ms[i].PageCount()
    requires PageIdToAddr(ms[i], p) <= addr < PageIdToAddr(ms[i], p) + ms[i].PageSize()
    requires found.Some? ==> found.value < |ms| && ms[found.value].base <= addr < ms[found.value].Limit()
    requires found.None? ==> forall j :: 0 <= j < |ms| ==> !(ms[j].base <= addr < ms[j].Limit())
    ensures found == Some(i) && p == AddrToPageId(ms[i], addr)
  {
    PageInBlock(ms[i], p);
    AddrToPageIdInverts(ms[i], p, addr - PageIdToAddr(ms[i], p));
    if found.Some? {
      var j := found.value;
      assert i < j ==> Separate(ms[i], ms[j]);
      assert j < i ==> Separate(ms[j], ms[i]);
    }
  }

  /** What find_memory_by_addr returns decides the only page that can be meant. */
  lemma {:induction false} FoundPage(ms: seq<MemInfo>, h: Heap, addr: nat, owner: Owner, found: Option<nat>)
    requires Platform(ms)
    requires found.Some? ==> found.value < |ms| && ms[found.value].base <= addr < ms[found.value].Limit()
    requires found.None? ==> forall j :: 0 <= j < |ms| ==> !(ms[j].base <= addr < ms[j].Limit())
    ensures forall i: nat, p: nat :: FirstPageOf(ms, h, addr, owner, i, p) ==>
      found == Some(i) && p == AddrToPageId(ms[i], addr)
    ensures found.Some? ==>
      var p := AddrToPageId(ms[found.value], addr);
      FirstPageOf(ms, h, addr, owner, found.value, p) <==>
      LocOf(ms, found.value, p) in h && h[LocOf(ms, found.value, p)].owner == owner
  {
    forall i: nat, p: nat | FirstPageOf(ms, h, addr, owner, i, p)
      ensures found == Some(i) && p == AddrToPageId(ms[i], addr)
    {
      PageIsFound(ms, i, p, addr, found);
    }
    if found.Some? {
      assert WholePages(ms[found.value]);
      AddrInPage(ms[found.value], addr);
    }
  }

  /** The share a free could take for a range is in the block found. */
  lemma {:induction false} NullHeadIsFound(ms: seq<MemInfo>, h: Heap, addr: nat, owner: Owner, found: Option<nat>)
    requires Platform(ms)
    requires found.Some? ==> found.value < |ms| && ms[found.value].base <= addr < ms[found.value].Limit()
    requires found.None? ==> forall j :: 0 <= j < |ms| ==> !(ms[j].base <= addr < ms[j].Limit())
    ensures OffShares(ms, h, addr, owner) <==> found.None? || OffShare(ms, h, addr, owner, found.value)
    ensures forall i: nat :: NullHead(ms, h, addr, i) ==> found == Some(i) && AddrToPageId(ms[i], addr) == 0
  {
    forall i: nat | NullHead(ms, h, addr, i) ensures found == Some(i) && AddrToPageId(ms[i], addr) == 0 {
      ShlZero(ms[i].pageBits);
      PageIsFound(ms, i, 0, addr, found);
    }
  }

  /** Tables for the map a free leaves are those of its outcome. */
  lemma {:induction false} FreeIsOutcome(ms: seq<MemInfo>, s: Mm, h: Heap, addr: nat, owner: Owner, i: nat,
                                         bs: seq<Block>, h': Heap)
    requires Lockable(ms, s) && Refines(ms, s.blocks, h) && ShadowKnows(ms, h, s.shadow.len)
    requires i < |ms| && WholePages(ms[i]) && ms[i].base <= addr < ms[i].Limit() && OffShare(ms, h, addr, owner, i)
    requires Refines(ms, bs, h')
    requires var l := LocOf(ms, i, AddrToPageId(ms[i], addr));
      h' == if l in h && h[l].owner == owner then h - {l} else h
    ensures AddrToPageId(ms[i], addr) < ms[i].PageCount()
    ensures bs == FreeOutcome(ms, s, i, AddrToPageId(ms[i], addr), owner).blocks
  {
    var p := AddrToPageId(ms[i], addr);
    AddrInPage(ms[i], addr);
    NullHeadAt(ms, h, addr, i);
    FreeRefines(ms, s, h, i, p, owner);
    RefinesUnique(ms, bs, FreeOutcome(ms, s, i, p, owner).blocks, h');
  }

  lemma {:induction false} LockedAndBack(locks: seq<bool>, idx: nat)
    requires idx < |locks| && !locks[idx]
    ensures locks[idx := true][idx := false] == locks
  {
  }

  /** What a scan of all blocks leaves, of the map and of the tables. */
  lemma {:induction false} AllScanned(ms: seq<MemInfo>, s: Mm, h: Heap, owner: Owner, r: Mm, h': Heap)
    requires Fits(ms, s) && Refines(ms, s.blocks, h)
    requires if owner != NULL then Refines(ms, r.blocks, h') && FreedBelow(ms, h, h', owner, |ms|)
             else h' == h && r == NullScanned(ms, s, h, |ms|)
    ensures Named(ms, h, owner) ==> h' == Without(h, owner) && (owner == NULL ==> r == s)
    ensures Named(ms, h, owner) <==> exists h1 :: Refines(ms, r.blocks, h1)
  {
    if owner == NULL {
      NullScanStandsIff(ms, s, h);
      if Named(ms, h, owner) { assert r.blocks == s.blocks; }
    } else {
      FreedAll(ms, h, h', owner);
    }
  }

  /** The callbacks that a scan of the blocks below `idx`, begun with map `h`
      and reports `rs`, has made. */
  ghost predicate ScanReported(ms: seq<MemInfo>, s: Mm, h: Heap, owner: Owner, cb: bool, idx: nat,
                               rs: seq<Report>, now: seq<Report>, h': Heap)
    requires Fits(ms, s)
  {
    && AddsFrees(cb, rs, now, owner)
    && (owner != NULL && cb && Told(ms, rs, h) ==> Told(ms, now, h'))
    && (owner == NULL ==> idx <= |ms| && now == rs + ShareReports(cb, ms, s, h, idx))
  }

  lemma {:induction false} ScanStarts(ms: seq<MemInfo>, s: Mm, h: Heap, owner: Owner, cb: bool, rs: seq<Report>)
    requires Fits(ms, s)
    ensures ScanReported(ms, s, h, owner, cb, 0, rs, rs, h) && NullScanned(ms, s, h, 0) == s
  {
    assert NullScanned(ms, s, h, 0).blocks == s.blocks;
  }

  lemma {:induction false} ScanReportedNext(ms: seq<MemInfo>, s: Mm, h: Heap, owner: Owner, cb: bool, idx: nat,
                                            rs: seq<Report>, was: seq<Report>, g: Heap, now: seq<Report>, h': Heap)
    requires Fits(ms, s) && idx < |ms| && ScanReported(ms, s, h, owner, cb, idx, rs, was, g)
    requires AddsFrees(cb, was, now, owner)
    requires owner != NULL && cb && Told(ms, was, g) ==> Told(ms, now, h')
    requires owner == NULL ==> now == was + ShareReport(cb, ms, s, h, idx)
    ensures ScanReported(ms, s, h, owner, cb, idx + 1, rs, now, h')
  {
    forall j | |rs| <= j < |now| ensures now[j].freed && now[j].owner == owner {
      assert j < |was| ==> now[j] == was[j];
    }
  }

  /** With no share to release no callback is made. */
  lemma {:induction false} NoShareReports(cb: bool, ms: seq<MemInfo>, s: Mm, h: Heap, upto: nat)
    requires Fits(ms, s) && upto <= |ms| && Named(ms, h, NULL)
    ensures ShareReports(cb, ms, s, h, upto) == []
  {
    if upto > 0 {
      NoShareReports(cb, ms, s, h, upto - 1);
      assert NamedIn(SpanOf(ms, upto - 1), h, NULL);
    }
  }

  /** The callbacks once all blocks have been scanned. */
  lemma {:induction false} AllReported(ms: seq<MemInfo>, s: Mm, h: Heap, owner: Owner, cb: bool,
                                       rs: seq<Report>, now: seq<Report>, h': Heap)
    requires Fits(ms, s) && ScanReported(ms, s, h, owner, cb, |ms|, rs, now, h') && (owner == NULL ==> h' == h)
    ensures Named(ms, h, owner) && cb && Told(ms, rs, h) ==> Told(ms, now, h') && |now| - |rs| == |h| - |h'|
  {
    if Named(ms, h, owner) && cb && Told(ms, rs, h) {
      if owner == NULL {
        NoShareReports(cb, ms, s, h, |ms|);
        assert now == rs;
      }
      OneReportEach(ms, rs, now, h, h', owner);
    }
  }

  class KlMm {
    const infos: seq<MemInfo>
    const mem: seq<KlMemory>
    const hugeMem: KlMemory
    /** The callbacks made so far. */
    var reports: seq<Report>
    /** What the tables stand for: every live allocation by its first page. */
    ghost var live: Heap

    /** The blocks and their arrays, and which block each belongs to. */
    ghost const cells: set<object>
    ghost const home: map<object, nat>

    ghost predicate Shape() {
      && |mem| == |infos| && this !in cells
      && hugeMem.Shaped() && hugeMem.info.PageCount() == MainPages(infos) && Homed(hugeMem, |mem|, home, cells)
      && (forall i :: 0 <= i < |mem| ==> mem[i].info == infos[i] && mem[i].Shaped() && Homed(mem[i], i, home, cells))
    }

    /** What kl_mm_init established once and for all about the layout. */
    ghost predicate Geometry() {
      LayoutOk(infos) && Platform(infos) && IsShadow(infos, |infos|, hugeMem.info)
    }

    /** All tables and locks as a value. */
    ghost function State(): (s: Mm)
      requires Shape()
      reads cells
      ensures Fits(infos, s)
    {
      Mm(seq(|mem|, i requires 0 <= i < |mem| reads cells => mem[i].View()),
         seq(|mem|, i requires 0 <= i < |mem| reads cells => mem[i].locked),
         hugeMem.View())
    }

    ghost predicate Valid()
      reads this, cells
    {
      && Shape()
      && Refines(infos, State().blocks, live)
      && ShadowKnows(infos, live, State().shadow.len)
    }

    /** Block `idx` alone is in step with the map. */
    ghost predicate InStep(idx: nat)
      requires Shape() && idx < |mem|
      reads this, cells
    {
      WellFormed(live) && Represents(SpanOf(infos, idx), State().blocks[idx], live)
    }

    /** The last part of kl_mm_init: __setup_kl_memory for every block and for the shadow. */
    constructor (infos: seq<MemInfo>, huge: MemInfo)
      requires huge.PageCount() == MainPages(infos)
      ensures this.infos == infos && hugeMem.info == huge && Shape()
      ensures forall i :: 0 <= i < |infos| ==> State().blocks[i] == EmptyBlock(infos[i].PageCount())
      ensures forall i :: 0 <= i < |infos| ==> !State().locks[i]
      ensures live == map[] && reports == [] && fresh(cells)
    {
      var ms, h, hs, cs := SetupAll(infos, huge);
      this.infos, this.mem, this.hugeMem := infos, ms, h;
      home, cells := hs, cs;
      reports, live := [], map[];
    }

    /** kl_mm_init: refused exactly for a bad layout, every page free otherwise. */
    static method Init(infos: seq<MemInfo>) returns (r: KlMm?)
      requires Platform(infos)
      ensures r != null <==> LayoutOk(infos)
      ensures r != null ==>
        && fresh(r) && fresh(r.cells) && r.infos == infos
        && r.Geometry() && r.Valid() && Unlocked(infos, r.State()) && r.live == map[] && r.reports == []
        && Told(infos, r.reports, r.live)
    {
      var ok, huge := CheckLayout(infos);
      if !ok { return null; }
      ShadowPageCount(infos, huge);
      r := new KlMm(infos, huge);
      EmptyRefines(infos, r.State().blocks);
    }

    /** spin_lock on a block; a lock already held would spin for ever. */
    method Lock(idx: nat)
      requires Shape() && idx < |mem| && !State().locks[idx]
      modifies mem[idx]
      ensures State() == var s := old(State()); s.(locks := s.locks[idx := true])
    {
      mem[idx].Lock();
    }

    /** spin_unlock on a block. */
    method Unlock(idx: nat)
      requires Shape() && idx < |mem| && State().locks[idx]
      modifies mem[idx]
      ensures State() == var s := old(State()); s.(locks := s.locks[idx := false])
    {
      mem[idx].Unlock();
    }

    /** memcpy of a block's bitmap into its region of the shadow, in words. */
    method CopyToShadow(idx: nat, begin: nat)
      requires Shape() && LayoutOk(infos) && idx < |mem| && IsMain(infos, idx)
      requires begin == MainBegin(infos, idx)
      modifies hugeMem.pageBitmap
      ensures begin + |State().blocks[idx].bits| <= MainPages(infos)
      ensures State() == var s := old(State());
        s.(shadow := s.shadow.(bits := Overlay(s.shadow.bits, begin, s.blocks[idx].bits)))
    {
      MainBeginMono(infos, idx, |infos|);
      WordCopyExact(infos, idx);
      CopyBits(hugeMem.pageBitmap, begin / BITS_PER_LONG * BITS_PER_LONG,
               mem[idx].pageBitmap, 0, mem[idx].info.PageCount() / 8 * 8);
      assert hugeMem.pageBitmap[..] == Overlay(old(hugeMem.pageBitmap[..]), begin, mem[idx].pageBitmap[..]);
    }

    /** memcpy of the block's region of the shadow back into its bitmap. */
    method CopyFromShadow(idx: nat, begin: nat)
      requires Shape() && LayoutOk(infos) && idx < |mem| && IsMain(infos, idx)
      requires begin == MainBegin(infos, idx)
      modifies mem[idx].pageBitmap
      ensures State() == var s := old(State());
        s.(blocks := s.blocks[idx := s.blocks[idx].(bits := Region(infos, s.shadow.bits, idx))])
    {
      MainBeginMono(infos, idx, |infos|);
      WordCopyExact(infos, idx);
      CopyBits(mem[idx].pageBitmap, 0, hugeMem.pageBitmap, begin / BITS_PER_LONG * BITS_PER_LONG,
               mem[idx].info.PageCount() / 8 * 8);
      assert mem[idx].pageBitmap[..] == Region(infos, hugeMem.pageBitmap[..], idx);
    }

    /** One turn of its loop on a MAIN block; `s` is the state before the loop. */
    method LockAndCopy(idx: nat, begin: nat, ghost s: Mm)
      requires Shape() && LayoutOk(infos) && IsMain(infos, idx) && begin == MainBegin(infos, idx)
      requires Fits(infos, s) && MainLocks(infos, s, false) && State() == LockUpto(infos, s, idx)
      modifies cells
      ensures State() == LockUpto(infos, s, idx + 1)
    {
      LockUptoSyncs(infos, s, idx);
      Lock(idx);
      CopyToShadow(idx, begin);
    }

    /** lock_and_sync_mem_bitmap: take the MAIN locks in index order and copy
        each block's bitmap into its region of the shadow. */
    method LockAndSync()
      requires Shape() && LayoutOk(infos) && MainLocks(infos, State(), false)
      modifies cells
      ensures State() == LockUpto(infos, old(State()), |mem|)
    {
      var begin := 0;
      for idx := 0 to |mem|
        invariant begin == MainBegin(infos, idx)
        invariant State() == LockUpto(infos, old(State()), idx)
      {
        if mem[idx].info.kind == XPU_MEM_MAIN {
          LockAndCopy(idx, begin, old(State()));
          begin := begin + mem[idx].info.PageCount();
        }
      }
    }

    /** One turn of its loop on a MAIN block; `s` is the state before the loop. */
    method CopyAndUnlock(idx: nat, begin: nat, ghost s: Mm)
      requires Shape() && LayoutOk(infos) && IsMain(infos, idx) && begin == MainBegin(infos, idx)
      requires Fits(infos, s) && MainLocks(infos, s, true) && State() == UnlockUpto(infos, s, idx)
      modifies cells
      ensures State() == UnlockUpto(infos, s, idx + 1)
    {
      UnlockUptoCopies(infos, s, idx);
      CopyFromShadow(idx, begin);
      Unlock(idx);
    }

    /** sync_mem_bitmap_and_unlock: copy each region of the shadow back into
        its block and give the lock up. */
    method SyncAndUnlock()
      requires Shape() && LayoutOk(infos) && MainLocks(infos, State(), true)
      modifies cells
      ensures State() == UnlockUpto(infos, old(State()), |mem|)
    {
      var begin := 0;
      for idx := 0 to |mem|
        invariant begin == MainBegin(infos, idx)
        invariant State() == UnlockUpto(infos, old(State()), idx)
      {
        if mem[idx].info.kind == XPU_MEM_MAIN {
          CopyAndUnlock(idx, begin, old(State()));
          begin := begin + mem[idx].info.PageCount();
        }
      }
    }

    method SetLength(idx: nat, p: nat, len: nat)
      requires Shape() && idx < |mem| && p < infos[idx].PageCount()
      modifies mem[idx].freeTable
      ensures State() == var s := old(State()); var b := s.blocks[idx];
        s.(blocks := s.blocks[idx := b.(len := b.len[p := len])])
    {
      mem[idx].freeTable[p] := len;
      assert mem[idx].freeTable[..] == old(mem[idx].freeTable[..])[p := len];
    }

    method SetOwner(idx: nat, p: nat, o: Owner)
      requires Shape() && idx < |mem| && p < infos[idx].PageCount()
      modifies mem[idx].ownerTable
      ensures State() == var s := old(State()); var b := s.blocks[idx];
        s.(blocks := s.blocks[idx := b.(own := b.own[p := o])])
    {
      mem[idx].ownerTable[p] := o;
      assert mem[idx].ownerTable[..] == old(mem[idx].ownerTable[..])[p := o];
    }

    method AddUsed(idx: nat, share: int)
      requires Shape() && idx < |mem|
      modifies mem[idx]
      ensures State() == var s := old(State()); var b := s.blocks[idx];
        s.(blocks := s.blocks[idx := b.(used := b.used + share)])
    {
      mem[idx].pageUsed := mem[idx].pageUsed + share;
    }

    /** What the two share loops write for one block: the length, the owner
        if this is the first block of the range, and the use count. */
    method WriteShare(idx: nat, p: nat, len: nat, head: bool, o: Owner, share: int)
      requires Shape() && idx < |mem| && p < infos[idx].PageCount()
      modifies cells
      ensures State() == WithShare(old(State()), idx, p, len, head, o, share)
    {
      SetLength(idx, p, len);
      if head { SetOwner(idx, p, o); }
      AddUsed(idx, share);
    }

    /** One turn of the splitting loop of __malloc_huge_mem: the first block
        gets the whole length and the owner, every later one only its own share. */
    method RecordShare(idx: nat, begin: nat, pageId: nat, needed: nat, first: bool, o: Owner)
      returns (pageId': nat, needed': nat, first': bool)
      requires Shape() && idx < |mem| && begin == MainBegin(infos, idx) && o != NULL
      modifies cells
      ensures Cursor(State(), pageId', needed', first')
        == ShareTurn(infos, Cursor(old(State()), pageId, needed, first), idx, o)
    {
      pageId', needed', first' := pageId, needed, first;
      if mem[idx].info.kind == XPU_MEM_MAIN {
        var end := begin + mem[idx].info.PageCount();
        if pageId >= begin && pageId < end && needed > 0 {
          var share := Min(end - pageId, needed);
          WriteShare(idx, pageId - begin, if first then needed else share, first, o, share);
          pageId', needed', first' := end, needed - share, false;
        }
      }
    }

    /** The splitting loop of __malloc_huge_mem. */
    method RecordShares(g: nat, n: nat, o: Owner)
      requires Shape() && o != NULL
      modifies cells
      ensures State() == ShareRun(infos, Cursor(old(State()), g, n, true), o, |mem|).s
    {
      var begin: nat, pageId: nat, needed: nat, first := 0, g, n, true;
      for idx := 0 to |mem|
        invariant begin == MainBegin(infos, idx)
        invariant Cursor(State(), pageId, needed, first) == ShareRun(infos, Cursor(old(State()), g, n, true), o, idx)
      {
        pageId, needed, first := RecordShare(idx, begin, pageId, needed, first, o);
        begin := begin + if mem[idx].info.kind == XPU_MEM_MAIN then mem[idx].info.PageCount() else 0;
      }
    }

    /** One turn of the loop of __free_huge_mem, which recomputes each block's
        share from the length of the whole range. */
    method EraseShare(idx: nat, begin: nat, pageId: nat, left: nat, ghost first: bool)
      returns (pageId': nat, left': nat, ghost first': bool)
      requires Shape() && idx < |mem| && begin == MainBegin(infos, idx)
      modifies cells
      ensures Cursor(State(), pageId', left', first')
        == ShareTurn(infos, Cursor(old(State()), pageId, left, first), idx, NULL)
    {
      pageId', left', first' := pageId, left, first;
      if mem[idx].info.kind == XPU_MEM_MAIN {
        var end := begin + mem[idx].info.PageCount();
        if pageId >= begin && pageId < end && left > 0 {
          var share := Min(end - pageId, left);
          WriteShare(idx, pageId - begin, 0, true, NULL, -share);
          pageId', left', first' := end, left - share, false;
        }
      }
    }

    /** The loop of __free_huge_mem that clears the shares. */
    method EraseShares(g: nat, n: nat)
      requires Shape()
      modifies cells
      ensures State() == ShareRun(infos, Cursor(old(State()), g, n, true), NULL, |mem|).s
    {
      var begin: nat, pageId: nat, left: nat := 0, g, n;
      ghost var first := true;
      for idx := 0 to |mem|
        invariant begin == MainBegin(infos, idx)
        invariant Cursor(State(), pageId, left, first) == ShareRun(infos, Cursor(old(State()), g, n, true), NULL, idx)
      {
        pageId, left, first := EraseShare(idx, begin, pageId, left, first);
        begin := begin + if mem[idx].info.kind == XPU_MEM_MAIN then mem[idx].info.PageCount() else 0;
      }
    }

    method TakeShadow(g: nat, n: nat, o: Owner)
      requires Shape() && g + n <= MainPages(infos) && g < MainPages(infos)
      modifies cells
      ensures State() == var s := old(State()); s.(shadow := Taken(s.shadow, g, n, o))
    {
      hugeMem.TakePages(g, n, o);
    }

    method ReleaseShadow(g: nat, n: nat)
      requires Shape() && n > 0 && g + n <= MainPages(infos)
      modifies cells
      ensures State() == var s := old(State()); s.(shadow := Released(s.shadow, g, n))
    {
      hugeMem.ReleasePages(g, n);
    }

    /** `if (cb) cb(...)` */
    method Callback(cb: bool, r: Report)
      modifies this`reports
      ensures reports == old(reports) + if cb then [r] else []
    {
      if cb { reports := reports + [r]; }
    }

    /** The map of live ranges follows the tables. */
    ghost method SetLive(h: Heap)
      requires Shape() && Refines(infos, State().blocks, h) && ShadowKnows(infos, h, State().shadow.len)
      modifies this`live
      ensures live == h && Valid() && State() == old(State())
    {
      live := h;
    }

    /** The body of __malloc_huge_mem on the tables. */
    method HugeMallocTables(n: nat, owner: Owner) returns (r: Option<nat>)
      requires Shape() && LayoutOk(infos) && Lockable(infos, State()) && owner != NULL
      modifies cells
      ensures r == HugeFit(infos, old(State()), n)
      ensures State() == var s := old(State());
        UnlockUpto(infos, if r.Some? then HugeTaken(infos, s, r.value, n, owner) else LockUpto(infos, s, |mem|), |mem|)
    {
      ghost var s := State();
      LockAndSync();
      r := hugeMem.FindFreePages(n);
      if r.Some? {
        HugeHoldsLocks(infos, s, r.value, n, owner);
        TakeShadow(r.value, n, owner);
        RecordShares(r.value, n, owner);
      } else {
        LockUptoSyncs(infos, s, |mem|);
      }
      SyncAndUnlock();
    }

    /** The tables and the map of live ranges move together. */
    method HugeMallocLive(n: nat, owner: Owner) returns (r: Option<nat>)
      requires LayoutOk(infos) && Valid() && Unlocked(infos, State()) && owner != NULL
      modifies this`live, cells
      ensures Valid() && Unlocked(infos, State())
      ensures r.None? ==> NoneVacant(infos, old(live), Wanted(n)) && live == old(live)
      ensures r.Some? ==>
        && LowestVacant(infos, old(live), Wanted(n), r.value) && Loc(0, r.value) !in old(live)
        && live == Added(old(live), Loc(0, r.value), Range(n, owner))
    {
      ghost var s := State();
      HugeChoice(infos, s, live, n);
      r := HugeMallocTables(n, owner);
      if r.None? {
        LockUnlock(infos, s);
      } else {
        HugeMallocRefines(infos, s, live, r.value, n, owner);
        SetLive(Added(live, Loc(0, r.value), Range(n, owner)));
      }
    }

    /** __malloc_huge_mem: the lowest vacant range of the MAIN lane, whether or
        not it crosses the end of a block. */
    method MallocHuge(size: nat, owner: Owner, cb: bool) returns (r: Option<nat>, ghost grant: Grant)
      requires Geometry() && Valid() && Unlocked(infos, State())
      requires size > 0 && owner != NULL
      modifies this, cells
      ensures Valid() && Unlocked(infos, State())
      ensures r.None? ==>
        && NoneVacant(infos, old(live), Wanted(PagesNeeded(hugeMem.info, size)))
        && live == old(live) && reports == old(reports)
      ensures r.Some? ==>
        && r.value == grant.addr && HugeGrant(infos, hugeMem.info, old(live), size, grant)
        && grant.loc !in old(live) && live == Added(old(live), grant.loc, Range(grant.pages, owner))
        && reports == old(reports) + AllocReport(cb, size, owner, grant)
    {
      var n := PagesNeeded(hugeMem.info, size);
      var found := HugeMallocLive(n, owner);
      if found.None? {
        r, grant := None, Grant(Loc(0, 0), 0, 0, 0, 0);
      } else {
        var g := found.value;
        r := Some(PageIdToAddr(hugeMem.info, g));
        grant := Grant(Loc(0, g), n, r.value, XPU_MEM_MAIN, hugeMem.info.pageBits);
        Callback(cb, Report(false, r.value, size, XPU_MEM_MAIN, owner, hugeMem.info.pageBits));
      }
    }

    method MallocIn(idx: nat, size: nat, owner: Owner) returns (r: Option<nat>)
      requires Shape() && idx < |mem| && State().locks[idx] && size > 0
      requires State().blocks[idx].used == Count(State().blocks[idx].bits)
      modifies cells
      ensures r == FirstFit(old(State()).blocks[idx].bits, 0, Wanted(PagesNeeded(infos[idx], size)))
      ensures State() == if r.None? then old(State())
                         else MallocedIn(old(State()), idx, r.value, PagesNeeded(infos[idx], size), owner)
    {
      r := mem[idx].MallocLocked(size, owner);
    }

    method ReleaseIn(idx: nat, p: nat, n: nat)
      requires Shape() && idx < |mem| && n > 0 && p + n <= infos[idx].PageCount()
      modifies cells
      ensures State() == FreedIn(old(State()), idx, p, n)
    {
      mem[idx].ReleasePages(p, n);
    }

    /** One turn of the loop of kl_mm_malloc. */
    method TryBlock(idx: nat, size: nat, owner: Owner) returns (r: Option<nat>)
      requires Shape() && idx < |mem| && Unlocked(infos, State()) && size > 0
      requires State().blocks[idx].used == Count(State().blocks[idx].bits)
      modifies cells
      ensures r == FirstFit(old(State()).blocks[idx].bits, 0, Wanted(PagesNeeded(infos[idx], size)))
      ensures State() == if r.None? then old(State())
                         else MallocedIn(old(State()), idx, r.value, PagesNeeded(infos[idx], size), owner)
    {
      ghost var s := State();
      Lock(idx);
      r := MallocIn(idx, size, owner);
      Unlock(idx);
      LockedAndBack(s.locks, idx);
    }

    /** The loop of kl_mm_malloc: the first block of the kind that has room. */
    method MallocTables(size: nat, kind: int, owner: Owner) returns (at: Option<Place>)
      requires Shape() && Unlocked(infos, State()) && size > 0
      requires forall i :: 0 <= i < |infos| ==> State().blocks[i].used == Count(State().blocks[i].bits)
      modifies cells
      ensures at == OrdinaryFit(infos, old(State()).blocks, kind, size, 0)
      ensures State() == if at.None? then old(State())
        else MallocedIn(old(State()), at.value.block, at.value.page, PagesNeeded(infos[at.value.block], size), owner)
    {
      for idx := 0 to |mem|
        invariant State() == old(State())
        invariant OrdinaryFit(infos, State().blocks, kind, size, 0)
          == OrdinaryFit(infos, State().blocks, kind, size, idx)
      {
        if mem[idx].info.kind == kind {
          var p := TryBlock(idx, size, owner);
          if p.Some? { return Some(Place(idx, p.value)); }
        }
      }
      at := None;
    }

    /** The tables and the map of live ranges move together, if any page is taken. */
    method OrdinaryMallocLive(size: nat, kind: int, owner: Owner) returns (at: Option<Place>)
      requires Valid() && Unlocked(infos, State()) && size > 0 && owner != NULL
      modifies this`live, cells
      ensures Shape() && Unlocked(infos, State())
      ensures at == OrdinaryFit(infos, old(State()).blocks, kind, size, 0)
      ensures at.None? ==> Valid() && live == old(live) && State() == old(State())
      ensures at.Some? ==>
        var n := PagesNeeded(infos[at.value.block], size);
        var l := LocOf(infos, at.value.block, at.value.page);
        && l !in old(live) && live == Added(old(live), l, Range(n, owner))
        && if n > 0 then Valid() else forall h :: !Refines(infos, State().blocks, h)
    {
      ghost var s := State();
      UsedIsCount(infos, s, live);
      at := MallocTables(size, kind, owner);
      if at.Some? {
        ghost var i, p := at.value.block, at.value.page;
        ghost var n := PagesNeeded(infos[i], size);
        FreeIsVacant(infos, s.blocks, live, i, p, Wanted(n));
        if n > 0 {
          OrdinaryMallocRefines(infos, s, live, i, p, n, owner);
          SetLive(live[LocOf(infos, i, p) := Range(n, owner)]);
        } else {
          NoPagesBreak(infos, s, i, p, owner);
        }
      }
    }

    /** kl_mm_malloc for every kind but the huge one. */
    method MallocOrdinary(size: nat, kind: int, owner: Owner, cb: bool) returns (r: Option<nat>, ghost grant: Grant)
      requires Geometry() && Valid() && Unlocked(infos, State()) && size > 0 && owner != NULL
      modifies this, cells
      ensures Shape() && Unlocked(infos, State())
      ensures r.None? ==>
        && OrdinaryFit(infos, old(State()).blocks, kind, size, 0).None?
        && Valid() && live == old(live) && State() == old(State()) && reports == old(reports)
      ensures r.Some? ==>
        && r.value == grant.addr && OrdinaryGrant(infos, old(State()).blocks, kind, size, grant)
        && grant.loc !in old(live) && live == Added(old(live), grant.loc, Range(grant.pages, owner))
        && reports == old(reports) + AllocReport(cb, size, owner, grant)
        && if grant.pages > 0 then Valid() else forall h :: !Refines(infos, State().blocks, h)
    {
      var found := OrdinaryMallocLive(size, kind, owner);
      if found.None? {
        r, grant := None, Grant(Loc(0, 0), 0, 0, 0, 0);
      } else {
        var i, p := found.value.block, found.value.page;
        r := Some(PageIdToAddr(mem[i].info, p));
        grant := Grant(LocOf(infos, i, p), PagesNeeded(infos[i], size), r.value, kind, infos[i].pageBits);
        Callback(cb, Report(false, r.value, size, kind, owner, mem[i].info.pageBits));
      }
    }

    /** kl_mm_malloc. A size that wraps when it is rounded up succeeds with no
        page reserved; unless the kind is the huge one, the tables then stand
        for no map any more. */
    method Malloc(size: nat, kind: int, owner: Owner, cb: bool)
      returns (status: Status, addr: nat, ghost grant: Grant)
      requires Geometry() && Valid() && Unlocked(infos, State())
      modifies this, cells
      ensures Shape() && Unlocked(infos, State())
      ensures status == InvalidParam <==> size == 0 || owner == NULL
      ensures status != Success ==> Valid() && live == old(live) && reports == old(reports)
      ensures !cb ==> reports == old(reports)
      ensures status == NoMem ==>
        if kind == XPU_MEM_MAIN_KL2_HUGE then NoneVacant(infos, live, Wanted(PagesNeeded(hugeMem.info, size)))
        else OrdinaryFit(infos, old(State()).blocks, kind, size, 0).None?
      ensures status == Success ==>
        && addr == grant.addr
        && (if kind == XPU_MEM_MAIN_KL2_HUGE then HugeGrant(infos, hugeMem.info, old(live), size, grant)
            else OrdinaryGrant(infos, old(State()).blocks, kind, size, grant))
        && grant.loc !in old(live) && live == Added(old(live), grant.loc, Range(grant.pages, owner))
        && reports == old(reports) + AllocReport(cb, size, owner, grant)
        && if grant.pages > 0 || kind == XPU_MEM_MAIN_KL2_HUGE then Valid()
           else forall h :: !Refines(infos, State().blocks, h)
    {
      if size == 0 || owner == NULL { return InvalidParam, 0, Grant(Loc(0, 0), 0, 0, 0, 0); }
      var r;
      if kind == XPU_MEM_MAIN_KL2_HUGE {
        r, grant := MallocHuge(size, owner, cb);
      } else {
        r, grant := MallocOrdinary(size, kind, owner, cb);
      }
      status := if r.None? then NoMem else Success;
      addr := if r.None? then 0 else r.value;
    }

    /** find_memory_by_addr */
    method FindMemoryByAddr(addr: nat) returns (r: Option<nat>)
      requires Shape()
      ensures r.Some? ==> r.value < |mem| && infos[r.value].base <= addr < infos[r.value].Limit()
      ensures r.None? ==> forall i :: 0 <= i < |mem| ==> !(infos[i].base <= addr < infos[i].Limit())
    {
      for idx := 0 to |mem|
        invariant forall i :: 0 <= i < idx ==> !(infos[i].base <= addr < infos[i].Limit())
      {
        if mem[idx].info.base <= addr < mem[idx].info.Limit() { return Some(idx); }
      }
      return None;
    }

    /** The checks of __free_huge_mem. */
    method FreedLength(idx: nat, pageId: nat, pageIdInMem: nat, owner: Owner) returns (n: nat)
      requires Shape() && idx < |mem| && pageId < MainPages(infos) && pageIdInMem < infos[idx].PageCount()
      requires State().shadow.len[pageId] > 0 && State().blocks[idx].own[pageIdInMem] == owner
      ensures n == State().shadow.len[pageId]
    {
      n := hugeMem.freeTable[pageId];
      if n == 0 { assert false; }
      if owner != mem[idx].ownerTable[pageIdInMem] { assert false; }
    }

    /** The body of __free_huge_mem on the tables. Its two early returns would
        leave every MAIN lock held; for a live straddling range they are dead. */
    method HugeFreeTables(idx: nat, addr: nat, owner: Owner) returns (n: nat)
      requires Shape() && LayoutOk(infos) && Lockable(infos, State())
      requires idx < |mem| && infos[idx].base <= addr && hugeMem.info.base <= addr
      requires var p := AddrToPageId(infos[idx], addr);
        p < infos[idx].PageCount() && State().blocks[idx].own[p] == owner
      requires var g := AddrToPageId(hugeMem.info, addr);
        g < MainPages(infos) && 0 < State().shadow.len[g] <= MainPages(infos) - g
      modifies cells
      ensures var s := old(State());
        var g := AddrToPageId(hugeMem.info, addr);
        n == s.shadow.len[g] && State() == UnlockUpto(infos, HugeReleased(infos, s, g, n), |mem|)
    {
      ghost var s := State();
      LockUptoSyncs(infos, s, |mem|);
      LockAndSync();
      var pageId := AddrToPageId(hugeMem.info, addr);
      var pageIdInMem := AddrToPageId(mem[idx].info, addr);
      n := FreedLength(idx, pageId, pageIdInMem, owner);
      HugeHoldsLocks(infos, s, pageId, n, NULL);
      ReleaseShadow(pageId, n);
      EraseShares(pageId, n);
      SyncAndUnlock();
    }

    /** The tables and the map of live ranges move together. */
    method HugeFreeLive(idx: nat, addr: nat, owner: Owner, ghost l: Loc) returns (n: nat)
      requires Shape() && LayoutOk(infos) && Lockable(infos, State())
      requires idx < |mem| && infos[idx].base <= addr && hugeMem.info.base <= addr
      requires var p := AddrToPageId(infos[idx], addr);
        p < infos[idx].PageCount() && State().blocks[idx].own[p] == owner
      requires var g := AddrToPageId(hugeMem.info, addr);
        g < MainPages(infos) && 0 < State().shadow.len[g] <= MainPages(infos) - g
        && HugeFreed(infos, State(), g, State().shadow.len[g], live - {l})
      modifies this`live, cells
      ensures Valid() && State().locks == old(State()).locks
      ensures n == old(State()).shadow.len[AddrToPageId(hugeMem.info, addr)]
      ensures live == old(live) - {l}
    {
      n := HugeFreeTables(idx, addr, owner);
      SetLive(live - {l});
    }

    /** Its tables and the map, with what its callback has to report. */
    method FreeStraddling(idx: nat, addr: nat, owner: Owner, ghost p: nat, ghost r: Range) returns (n: nat)
      requires Geometry() && Valid() && Unlocked(infos, State())
      requires idx < |mem| && infos[idx].base <= addr < infos[idx].Limit()
      requires p == AddrToPageId(infos[idx], addr) && LocOf(infos, idx, p) in live
      requires live[LocOf(infos, idx, p)] == r && r.owner == owner && p + r.len > infos[idx].PageCount()
      modifies this`live, cells
      ensures Valid() && Unlocked(infos, State())
      ensures live == old(live) - {LocOf(infos, idx, p)}
      ensures n == r.len && hugeMem.info.pageBits == infos[idx].pageBits && infos[idx].kind == XPU_MEM_MAIN
    {
      assert WholePages(infos[idx]);
      HugeFreeSound(infos, hugeMem.info, State(), live, idx, addr, p, r);
      n := HugeFreeLive(idx, addr, owner, LocOf(infos, idx, p));
    }

    /** __free_huge_mem on the first page of a live straddling range. */
    method FreeHuge(idx: nat, addr: nat, owner: Owner, cb: bool, ghost p: nat, ghost r: Range)
      requires Geometry() && Valid() && Unlocked(infos, State())
      requires idx < |mem| && infos[idx].base <= addr < infos[idx].Limit()
      requires p == AddrToPageId(infos[idx], addr) && LocOf(infos, idx, p) in live
      requires live[LocOf(infos, idx, p)] == r && r.owner == owner && p + r.len > infos[idx].PageCount()
      modifies this, cells
      ensures Valid() && Unlocked(infos, State())
      ensures live == old(live) - {LocOf(infos, idx, p)}
      ensures reports == old(reports) + FreeReport(cb, infos[idx], addr, r)
    {
      var n := FreeStraddling(idx, addr, owner, p, r);
      Callback(cb, Report(true, addr, Shl(n, hugeMem.info.pageBits), XPU_MEM_MAIN, owner, hugeMem.info.pageBits));
    }

    /** The tables and, if the range is in it, the map of live ranges. */
    method OrdinaryFreeLive(idx: nat, p: nat, n: nat)
      requires Shape() && idx < |mem| && n > 0 && p + n <= infos[idx].PageCount()
      requires LocOf(infos, idx, p) in live ==> Valid() && live[LocOf(infos, idx, p)].len == n
      modifies this`live, cells
      ensures Shape() && State() == FreedIn(old(State()), idx, p, n)
      ensures live == old(live) - {LocOf(infos, idx, p)}
      ensures LocOf(infos, idx, p) in old(live) ==> Valid()
    {
      ghost var l := LocOf(infos, idx, p);
      if l in live { OrdinaryFreeRefines(infos, State(), live, idx, p); }
      ReleaseIn(idx, p, n);
      if l in live { SetLive(live - {l}); } else { assert live - {l} == live; }
    }

    /** The last part of __free_locked: a range inside the block. */
    method FreeInBlock(idx: nat, addr: nat, p: nat, n: nat, owner: Owner, cb: bool)
      requires Shape() && idx < |mem| && n > 0 && p + n <= infos[idx].PageCount()
      requires LocOf(infos, idx, p) in live ==> Valid() && live[LocOf(infos, idx, p)].len == n
      modifies this, cells
      ensures Shape() && State() == FreedIn(old(State()), idx, p, n)
      ensures live == old(live) - {LocOf(infos, idx, p)}
      ensures LocOf(infos, idx, p) in old(live) ==> Valid()
      ensures reports == old(reports) + FreeReport(cb, infos[idx], addr, Range(n, owner))
    {
      OrdinaryFreeLive(idx, p, n);
      var info := mem[idx].info;
      Callback(cb, Report(true, addr, Shl(n, info.pageBits), info.kind, owner, info.pageBits));
    }

    /** The huge path, for which the block's lock is dropped and then taken again. */
    method FreeUnlocked(idx: nat, addr: nat, owner: Owner, cb: bool, ghost p: nat, ghost r: Range)
      requires Geometry() && Valid() && OnlyLock(infos, State(), idx)
      requires idx < |mem| && infos[idx].base <= addr < infos[idx].Limit()
      requires p == AddrToPageId(infos[idx], addr) && LocOf(infos, idx, p) in live
      requires live[LocOf(infos, idx, p)] == r && r.owner == owner && p + r.len > infos[idx].PageCount()
      modifies this, cells
      ensures Valid() && OnlyLock(infos, State(), idx)
      ensures live == old(live) - {LocOf(infos, idx, p)}
      ensures reports == old(reports) + FreeReport(cb, infos[idx], addr, r)
    {
      Unlock(idx);
      FreeHuge(idx, addr, owner, cb, p, r);
      Lock(idx);
    }

    /** __free_locked: the block's lock is held; for a straddling range it is
        dropped while all MAIN locks are taken, and held again at the end. Without
        an owner it takes a share for a range of its own. */
    method FreeLocked(idx: nat, addr: nat, owner: Owner, cb: bool) returns (status: Status)
      requires Shape() && Geometry() && OnlyLock(infos, State(), idx)
      requires if owner == NULL then idx < |mem| && InStep(idx) else Valid()
      requires idx < |mem| && infos[idx].base <= addr < infos[idx].Limit()
      modifies this, cells
      ensures Shape() && OnlyLock(infos, State(), idx)
      ensures OffShare(infos, old(live), addr, owner, idx) ==>
        var l := LocOf(infos, idx, AddrToPageId(infos[idx], addr));
        && (owner != NULL ==> Valid())
        && if l in old(live) && old(live)[l].owner == owner then
             status == Success && live == old(live) - {l}
             && reports == old(reports) + FreeReport(cb, infos[idx], addr, old(live)[l])
           else
             status == InvalidParam && live == old(live) && State() == old(State()) && reports == old(reports)
      ensures !OffShare(infos, old(live), addr, owner, idx) ==>
        var n := old(State()).blocks[idx].len[0];
        && 0 < n <= infos[idx].PageCount() && State() == FreedIn(old(State()), idx, 0, n)
        && status == Success && live == old(live)
        && reports == old(reports) + FreeReport(cb, infos[idx], addr, Range(n, NULL))
    {
      var pageId := AddrToPageId(mem[idx].info, addr);
      assert Represents(SpanOf(infos, idx), State().blocks[idx], live);
      TestsFind(infos, State(), live, addr, owner, idx, pageId);
      ghost var l := LocOf(infos, idx, pageId);
      var n := mem[idx].freeTable[pageId];
      if n == 0 { return InvalidParam; }
      if owner != mem[idx].ownerTable[pageId] { return InvalidParam; }
      if pageId + n > mem[idx].info.PageCount() {
        FreeUnlocked(idx, addr, owner, cb, pageId, live[l]);
        return Success;
      }
      FreeInBlock(idx, addr, pageId, n, owner, cb);
      return Success;
    }

    /** The locked part of kl_mm_free: its outcome on the tables, for any caller. */
    method LockAndFree(idx: nat, addr: nat, owner: Owner, cb: bool) returns (status: Status)
      requires Geometry() && Valid() && Unlocked(infos, State())
      requires idx < |mem| && infos[idx].base <= addr < infos[idx].Limit()
      modifies this, cells
      ensures Shape() && Unlocked(infos, State())
      ensures OffShare(infos, old(live), addr, owner, idx) ==>
        var l := LocOf(infos, idx, AddrToPageId(infos[idx], addr));
        && Valid()
        && if l in old(live) && old(live)[l].owner == owner then
             status == Success && live == old(live) - {l}
             && reports == old(reports) + FreeReport(cb, infos[idx], addr, old(live)[l])
           else
             status == InvalidParam && live == old(live) && State() == old(State()) && reports == old(reports)
      ensures !OffShare(infos, old(live), addr, owner, idx) ==>
        var n := old(State()).blocks[idx].len[0];
        && 0 < n <= infos[idx].PageCount() && State() == FreedIn(old(State()), idx, 0, n)
        && status == Success && live == old(live)
        && reports == old(reports) + FreeReport(cb, infos[idx], addr, Range(n, NULL))
      ensures AddrToPageId(infos[idx], addr) < infos[idx].PageCount()
      ensures State().blocks
        == FreeOutcome(infos, old(State()), idx, AddrToPageId(infos[idx], addr), owner).blocks
    {
      ghost var s, h := State(), live;
      assert Represents(SpanOf(infos, idx), s.blocks[idx], h);
      TestsFind(infos, s, h, addr, owner, idx, AddrToPageId(infos[idx], addr));
      Lock(idx);
      status := FreeLocked(idx, addr, owner, cb);
      Unlock(idx);
      LockedAndBack(s.locks, idx);
      if OffShare(infos, h, addr, owner, idx) {
        FreeIsOutcome(infos, s, h, addr, owner, idx, State().blocks, live);
      }
    }

    /** kl_mm_free: succeeds exactly when the address lies in the first page of
        a live range of this owner; anything else is refused untouched. The one
        exception has no owner: afterwards the tables stand for no map at all. */
    method Free(addr: nat, owner: Owner, cb: bool) returns (status: Status)
      requires Geometry() && Valid() && Unlocked(infos, State())
      modifies this, cells
      ensures Shape() && Unlocked(infos, State())
      ensures status == Success || status == InvalidParam
      ensures OffShares(infos, old(live), addr, owner) ==>
        && Valid()
        && (status == Success <==> exists i: nat, p: nat :: FirstPageOf(infos, old(live), addr, owner, i, p))
        && (forall i: nat, p: nat :: FirstPageOf(infos, old(live), addr, owner, i, p) ==>
              live == old(live) - {LocOf(infos, i, p)}
              && reports == old(reports) + FreeReport(cb, infos[i], addr, old(live)[LocOf(infos, i, p)]))
        && (status != Success ==> live == old(live) && State() == old(State()) && reports == old(reports))
      ensures !cb ==> reports == old(reports)
      ensures OffShares(infos, old(live), addr, owner) ==>
        cb && Told(infos, old(reports), old(live)) ==> Told(infos, reports, live)
      ensures forall i: nat :: owner == NULL && NullHead(infos, old(live), addr, i) ==>
        && status == Success && State().blocks == FreeOutcome(infos, old(State()), i, 0, NULL).blocks
        && reports == old(reports) + FreeReport(cb, infos[i], addr, Range(old(State()).blocks[i].len[0], NULL))
      ensures OffShares(infos, old(live), addr, owner) <==> exists h :: Refines(infos, State().blocks, h)
    {
      var found := FindMemoryByAddr(addr);
      FoundPage(infos, live, addr, owner, found);
      NullHeadIsFound(infos, live, addr, owner, found);
      if found.None? { return InvalidParam; }
      ghost var s, h, rs, i := State(), live, reports, found.value;
      ghost var p := AddrToPageId(infos[i], addr);
      status := LockAndFree(found.value, addr, owner, cb);
      if !OffShare(infos, h, addr, owner, i) {
        NullFreeBreaks(infos, s, h, i);
      } else if cb && Told(infos, rs, h) && FirstPageOf(infos, h, addr, owner, i, p) {
        FreeReportTells(infos, rs, h, addr, owner, i, p);
      }
    }

    /** The call of __free_locked in the scan: on the first page of a range of
        the owner or, with no owner, on the share at the start of the block. */
    method FreeHead(idx: nat, blk: nat, owner: Owner, cb: bool)
      requires Shape() && Geometry() && idx < |mem| && OnlyLock(infos, State(), idx)
      requires blk < infos[idx].PageCount()
      requires owner != NULL ==>
        Valid() && LocOf(infos, idx, blk) in live && live[LocOf(infos, idx, blk)].owner == owner
      requires owner == NULL ==> blk == 0 && InStep(idx) && Continued(SpanOf(infos, idx), live)
      modifies this, cells
      ensures Shape() && OnlyLock(infos, State(), idx)
      ensures owner != NULL ==>
        && Valid() && live == old(live) - {LocOf(infos, idx, blk)}
        && (cb && Told(infos, old(reports), old(live)) ==> Told(infos, reports, live))
      ensures owner == NULL ==>
        var n := old(State()).blocks[idx].len[0];
        && 0 < n <= infos[idx].PageCount() && State() == FreedIn(old(State()), idx, 0, n) && live == old(live)
        && reports == old(reports) + ShareReport(cb, infos, old(State()), live, idx)
      ensures AddsFrees(cb, old(reports), reports, owner)
    {
      ghost var l := LocOf(infos, idx, blk);
      ghost var h, rs := live, reports;
      PageInBlock(infos[idx], blk);
      ShlMono(0, 1, infos[idx].pageBits);
      ShlZero(infos[idx].pageBits);
      AddrToPageIdInverts(infos[idx], blk, 0);
      var addr := PageIdToAddr(mem[idx].info, blk);
      NullHeadAt(infos, live, addr, idx);
      assert l == LocOf(infos, idx, AddrToPageId(infos[idx], addr));
      assert OffShare(infos, h, addr, owner, idx) <==> owner != NULL;
      var status := FreeLocked(idx, addr, owner, cb);
      if owner != NULL && cb && Told(infos, rs, h) { FreeReportTells(infos, rs, h, addr, owner, idx, blk); }
    }

    /** Where the scan lands next, and what the tables say there; `h` is the map
        this block stands for. */
    method Land(idx: nat, p: nat, owner: Owner, ghost h0: Heap, ghost h: Heap)
      returns (blk: nat, size: nat, mine: bool)
      requires Shape() && idx < |mem| && WellFormed(h) && Represents(SpanOf(infos, idx), State().blocks[idx], h)
      requires NamedIn(SpanOf(infos, idx), h, owner) || p == 0
      requires ScanAt(SpanOf(infos, idx), h0, h, owner, p)
      ensures blk >= infos[idx].PageCount() ==>
        NamedIn(SpanOf(infos, idx), h, owner) && NoneBelow(SpanOf(infos, idx), h, owner, infos[idx].PageCount())
      ensures blk < infos[idx].PageCount() ==>
        p < blk + size && Landed(SpanOf(infos, idx), State().blocks[idx], h0, h, owner, blk, size, mine)
    {
      var count := mem[idx].info.PageCount();
      blk := FindNext(mem[idx].pageBitmap, count, p, true);
      size, mine := 0, false;
      ghost var sp, b := SpanOf(infos, idx), State().blocks[idx];
      if blk >= count {
        if !NamedIn(sp, h, owner) { ShareEntry(sp, b, h, 0); }
        ScanEnd(sp, b, h, owner, p);
        return;
      }
      LandsOn(sp, b, h0, h, owner, p, blk);
      size, mine := mem[idx].freeTable[blk], mem[idx].ownerTable[blk] == owner;
    }

    /** The free in the scan; `h` again is the map the block stands for. */
    method FreeLanded(idx: nat, blk: nat, size: nat, owner: Owner, cb: bool, ghost h0: Heap, ghost h: Heap)
      returns (ghost h': Heap)
      requires Shape() && Geometry() && idx < |mem| && OnlyLock(infos, State(), idx)
      requires h == live && if owner == NULL then InStep(idx) && !NamedIn(SpanOf(infos, idx), h, owner) else Valid()
      requires blk < infos[idx].PageCount()
      requires Landed(SpanOf(infos, idx), State().blocks[idx], h0, h, owner, blk, size, true)
      modifies this, cells
      ensures Shape() && OnlyLock(infos, State(), idx)
      ensures var sp := SpanOf(infos, idx);
        && WellFormed(h') && Represents(sp, State().blocks[idx], h')
        && NamedIn(sp, h', owner) && AtBoundary(sp, h', blk + size)
      ensures owner != NULL ==>
        && Valid() && h' == live && ScanAt(SpanOf(infos, idx), h0, live, owner, blk + size)
        && (cb && Told(infos, old(reports), old(live)) ==> Told(infos, reports, live))
      ensures owner == NULL ==>
        && live == old(live) && ShareGone(infos, old(State()), State(), live, idx)
        && reports == old(reports) + ShareReport(cb, infos, old(State()), live, idx)
      ensures AddsFrees(cb, old(reports), reports, owner)
    {
      ghost var sp, s := SpanOf(infos, idx), State();
      FreeHead(idx, blk, owner, cb);
      h' := live;
      if owner == NULL {
        ghost var k := ShareReleased(sp, s.blocks[idx], h);
        h' := h - {k};
      }
    }

    /** A scan that began in state `s`, with the map `h0`, stands at page `p`;
        `h` is the map this block stands for. */
    ghost predicate Scanned(idx: nat, p: nat, owner: Owner, h0: Heap, s: Mm, h: Heap)
      requires Shape() && idx < |mem| && Fits(infos, s)
      reads this, cells
    {
      var sp := SpanOf(infos, idx);
      && WellFormed(h) && Represents(sp, State().blocks[idx], h) && AtBoundary(sp, h, p)
      && (NamedIn(sp, h, owner) || p == 0)
      && if owner != NULL then Valid() && h == live && ScanAt(sp, h0, live, owner, p)
         else live == h0 && if p == 0 then h == live && State() == s else ShareGone(infos, s, State(), h0, idx)
    }

    /** What the scan has done when it is through. */
    ghost predicate ScanDone(idx: nat, owner: Owner, h0: Heap, s: Mm)
      requires Shape() && idx < |mem| && Fits(infos, s)
      reads this, cells
    {
      if owner != NULL then
        && Valid() && Pruned(h0, live, owner)
        && NoneBelow(SpanOf(infos, idx), live, owner, infos[idx].PageCount())
      else
        live == h0 && ShareGone(infos, s, State(), h0, idx)
    }

    /** One turn of the scan: it lands on the next set bit, jumps to the end of
        the range or share that starts there, and frees it if it is the owner's. */
    method ScanTurn(idx: nat, p: nat, owner: Owner, cb: bool, ghost h0: Heap, ghost s: Mm, ghost h: Heap)
      returns (more: bool, p': nat, ghost h': Heap)
      requires Shape() && Geometry() && idx < |mem| && OnlyLock(infos, State(), idx)
      requires Fits(infos, s) && Scanned(idx, p, owner, h0, s, h)
      modifies this, cells
      ensures Shape() && OnlyLock(infos, State(), idx)
      ensures if more then p < p' && Scanned(idx, p', owner, h0, s, h') else ScanDone(idx, owner, h0, s)
      ensures owner != NULL && cb && Told(infos, old(reports), old(live)) ==> Told(infos, reports, live)
      ensures owner == NULL ==>
        && reports == old(reports) + ShareReport(cb, infos, old(State()), h, idx)
        && (Continued(SpanOf(infos, idx), h) ==> more) && !Continued(SpanOf(infos, idx), h')
      ensures AddsFrees(cb, old(reports), reports, owner)
    {
      more, h' := true, h;
      var blk, size, mine := Land(idx, p, owner, if owner == NULL then h else h0, h);
      p' := blk + size;
      if blk >= mem[idx].info.PageCount() { more := false; return; }
      if mine { h' := FreeLanded(idx, blk, size, owner, cb, if owner == NULL then h else h0, h); }
    }

    /** __free_by_owner_locked: the scan of the block from its first page. With
        no owner it releases the share that an earlier block's range has here,
        and nothing else. */
    method FreeByOwnerLocked(idx: nat, owner: Owner, cb: bool)
      requires Shape() && Geometry() && idx < |mem| && OnlyLock(infos, State(), idx)
      requires if owner == NULL then InStep(idx) else Valid()
      modifies this, cells
      ensures Shape() && OnlyLock(infos, State(), idx) && ScanDone(idx, owner, old(live), old(State()))
      ensures owner != NULL && cb && Told(infos, old(reports), old(live)) ==> Told(infos, reports, live)
      ensures owner == NULL ==> reports == old(reports) + ShareReport(cb, infos, old(State()), old(live), idx)
      ensures AddsFrees(cb, old(reports), reports, owner)
    {
      ghost var h, s := live, State();
      var count := mem[idx].info.PageCount();
      var p := 0;
      while p < count
        invariant Shape() && OnlyLock(infos, State(), idx)
        invariant Scanned(idx, p, owner, old(live), s, h)
        invariant owner != NULL && cb && Told(infos, old(reports), old(live)) ==> Told(infos, reports, live)
        invariant owner == NULL ==>
          var made := if Continued(SpanOf(infos, idx), h) then [] else ShareReport(cb, infos, s, old(live), idx);
          reports == old(reports) + made
        invariant AddsFrees(cb, old(reports), reports, owner)
        decreases if p < count then count - p else 0
      {
        var more, next;
        more, next, h := ScanTurn(idx, p, owner, cb, old(live), s, h);
        if !more { return; }
        p := next;
      }
    }

    /** The blocks below `idx` have been scanned since state `s` with map `h0`. */
    ghost predicate ScannedBelow(idx: nat, owner: Owner, h0: Heap, s: Mm)
      requires Shape() && Fits(infos, s)
      reads this, cells
    {
      if owner != NULL then Valid() && FreedBelow(infos, h0, live, owner, idx)
      else live == h0 && State() == NullScanned(infos, s, h0, idx)
    }

    /** The locked part of one turn of kl_mm_free_by_owner. */
    method LockAndScan(idx: nat, owner: Owner, cb: bool, ghost h0: Heap, ghost s: Mm)
      requires Shape() && Geometry() && idx < |mem| && Unlocked(infos, State())
      requires Fits(infos, s) && Refines(infos, s.blocks, h0) && ScannedBelow(idx, owner, h0, s)
      modifies this, cells
      ensures Shape() && Unlocked(infos, State()) && ScannedBelow(idx + 1, owner, h0, s)
      ensures owner != NULL && cb && Told(infos, old(reports), old(live)) ==> Told(infos, reports, live)
      ensures owner == NULL ==> reports == old(reports) + ShareReport(cb, infos, s, h0, idx)
      ensures AddsFrees(cb, old(reports), reports, owner)
    {
      ghost var h, t := live, State();
      assert Represents(SpanOf(infos, idx), s.blocks[idx], h0);
      Lock(idx);
      assert owner == NULL ==> State().blocks[idx] == s.blocks[idx];
      FreeByOwnerLocked(idx, owner, cb);
      if owner != NULL { FreedNext(infos, h0, h, live, owner, idx); }
      Unlock(idx);
      LockedAndBack(t.locks, idx);
      if owner == NULL { NullScannedNext(infos, s, State(), h0, idx); }
    }

    /** One turn of kl_mm_free_by_owner. */
    method FreeByOwnerIn(idx: nat, owner: Owner, cb: bool, ghost h0: Heap, ghost s: Mm, ghost rs: seq<Report>)
      requires Shape() && Geometry() && idx < |mem| && Unlocked(infos, State())
      requires Fits(infos, s) && Refines(infos, s.blocks, h0) && ScannedBelow(idx, owner, h0, s)
      requires ScanReported(infos, s, h0, owner, cb, idx, rs, reports, live)
      modifies this, cells
      ensures Shape() && Unlocked(infos, State()) && ScannedBelow(idx + 1, owner, h0, s)
      ensures ScanReported(infos, s, h0, owner, cb, idx + 1, rs, reports, live)
    {
      ghost var was, h := reports, live;
      LockAndScan(idx, owner, cb, h0, s);
      ScanReportedNext(infos, s, h0, owner, cb, idx, rs, was, h, reports, live);
    }

    /** The loop of kl_mm_free_by_owner. */
    method ScanBlocks(owner: Owner, cb: bool)
      requires Geometry() && Valid() && Unlocked(infos, State())
      modifies this, cells
      ensures Shape() && Unlocked(infos, State()) && ScannedBelow(|mem|, owner, old(live), old(State()))
      ensures ScanReported(infos, old(State()), old(live), owner, cb, |mem|, old(reports), reports, live)
    {
      ghost var s, h, rs := State(), live, reports;
      ScanStarts(infos, s, h, owner, cb, rs);
      for idx := 0 to |mem|
        invariant Shape() && Unlocked(infos, State()) && ScannedBelow(idx, owner, h, s)
        invariant ScanReported(infos, s, h, owner, cb, idx, rs, reports, live)
      {
        FreeByOwnerIn(idx, owner, cb, h, s, rs);
      }
    }

    /** kl_mm_free_by_owner: afterwards the owner has nothing left in any block
        and every other owner has exactly what it had. With no owner it releases
        every share of a straddling range, and no map fits if there was one. */
    method FreeByOwner(owner: Owner, cb: bool)
      requires Geometry() && Valid() && Unlocked(infos, State())
      modifies this, cells
      ensures Shape() && Unlocked(infos, State())
      ensures Named(infos, old(live), owner) ==> Valid() && live == Without(old(live), owner)
      ensures Named(infos, old(live), owner) && cb && Told(infos, old(reports), old(live)) ==>
        Told(infos, reports, live) && |reports| - |old(reports)| == |old(live)| - |live|
      ensures owner == NULL ==>
        && State() == NullScanned(infos, old(State()), old(live), |mem|)
        && reports == old(reports) + ShareReports(cb, infos, old(State()), old(live), |mem|)
      ensures AddsFrees(cb, old(reports), reports, owner)
      ensures Named(infos, old(live), owner) <==> exists h :: Refines(infos, State().blocks, h)
    {
      ghost var s, h, rs := State(), live, reports;
      ScanBlocks(owner, cb);
      AllScanned(infos, s, h, owner, State(), live);
      AllReported(infos, s, h, owner, cb, rs, reports, live);
    }
  }
}
