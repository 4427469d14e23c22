/** Whole runs of the memory manager against a machine whose only state is the
    map of live allocations. */
module Runs {
  import opened Wrappers
  import opened Bitmaps
  import opened LiveRanges
  import opened Layout
  import opened Memory
  import opened PageTables
  import opened ManagerState
  import opened Accounting
  import opened MemoryManager
  import opened Shifts

  datatype Request =
    | Alloc(size: nat, kind: int, owner: Owner)
    | Free(addr: nat, owner: Owner)
    | FreeAll(owner: Owner)

  // ----- the machine on maps -----

  /** Page `p` of block `i` starts enough vacant pages of that block. */
  ghost predicate MapRoom(ms: seq<MemInfo>, h: Heap, kind: int, sz: nat, i: nat, p: nat)
    requires sz > 0
  {
    && i < |ms| && ms[i].kind == kind
    && p + Wanted(PagesNeeded(ms[i], sz)) <= ms[i].PageCount()
    && Vacant(h, LocOf(ms, i, p), Wanted(PagesNeeded(ms[i], sz)))
  }

  /** The lowest such page of the first such block. */
  ghost predicate FirstRoom(ms: seq<MemInfo>, h: Heap, kind: int, sz: nat, i: nat, p: nat)
    requires sz > 0
  {
    && MapRoom(ms, h, kind, sz, i, p)
    && forall j: nat, q: nat :: MapRoom(ms, h, kind, sz, j, q) ==> i < j || (i == j && p <= q)
  }

  /** What an allocation must pick; `hm` describes the shadow. */
  ghost predicate Chosen(ms: seq<MemInfo>, hm: MemInfo, h: Heap, kind: int, sz: nat, l: Loc, n: nat)
    requires sz > 0
  {
    if kind == XPU_MEM_MAIN_KL2_HUGE then
      n == PagesNeeded(hm, sz) && l.lane == 0 && LowestVacant(ms, h, Wanted(n), l.pos)
    else
      exists i: nat, p: nat :: FirstRoom(ms, h, kind, sz, i, p) && l == LocOf(ms, i, p) && n == PagesNeeded(ms[i], sz)
  }

  ghost predicate NoRoom(ms: seq<MemInfo>, hm: MemInfo, h: Heap, kind: int, sz: nat)
    requires sz > 0
  {
    if kind == XPU_MEM_MAIN_KL2_HUGE then NoneVacant(ms, h, Wanted(PagesNeeded(hm, sz)))
    else forall i: nat, p: nat :: !MapRoom(ms, h, kind, sz, i, p)
  }

  /** One request on the map alone. */
  ghost predicate MapStep(ms: seq<MemInfo>, hm: MemInfo, h: Heap, h': Heap, req: Request) {
    match req
    case Alloc(size, kind, owner) =>
      if size == 0 || owner == NULL || NoRoom(ms, hm, h, kind, size) then h' == h
      else exists l, n :: Chosen(ms, hm, h, kind, size, l, n) && h' == Added(h, l, Range(n, owner))
    case Free(addr, owner) =>
      && (forall i: nat, p: nat :: FirstPageOf(ms, h, addr, owner, i, p) ==> h' == h - {LocOf(ms, i, p)})
      && ((forall i: nat, p: nat :: !FirstPageOf(ms, h, addr, owner, i, p)) ==> h' == h)
    case FreeAll(owner) => h' == Without(h, owner)
  }

  /** The requests after which the tables still stand for a map: no ordinary
      allocation whose size wraps when it is rounded up to pages of the block
      it gets, and no free without an owner where a range runs into a block. */
  ghost predicate Harmless(ms: seq<MemInfo>, hm: MemInfo, h: Heap, req: Request) {
    match req
    case Alloc(size, kind, owner) =>
      size == 0 || owner == NULL || kind == XPU_MEM_MAIN_KL2_HUGE || forall l :: !Chosen(ms, hm, h, kind, size, l, 0)
    case Free(addr, owner) => OffShares(ms, h, addr, owner)
    case FreeAll(owner) => Named(ms, h, owner)
  }

  /** The size can be rounded up to pages of every memory it may come from. */
  ghost predicate Rounds(ms: seq<MemInfo>, hm: MemInfo, req: Request) {
    req.Alloc? ==>
      RoundableFor(ms, req.kind, req.size) && (req.kind == XPU_MEM_MAIN_KL2_HUGE ==> Roundable(hm, req.size))
  }

  // ----- the tables choose what the map says -----

  lemma {:induction false} RoomIffVacant(ms: seq<MemInfo>, bs: seq<Block>, h: Heap, kind: int, sz: nat, i: nat, p: nat)
    requires Refines(ms, bs, h) && i < |ms| && sz > 0
    ensures HasRoom(ms[i], bs[i], kind, sz, p) <==> MapRoom(ms, h, kind, sz, i, p)
  {
    if ms[i].kind == kind {
      var n := Wanted(PagesNeeded(ms[i], sz));
      assert Represents(SpanOf(ms, i), bs[i], h);
      if p + n <= ms[i].PageCount() { ClearIffVacant(SpanOf(ms, i), bs[i], h, p, n); }
    }
  }

  /** First fit over the blocks is the first room in the map. */
  lemma {:induction false} OrdinaryChoice(ms: seq<MemInfo>, bs: seq<Block>, h: Heap, kind: int, sz: nat)
    requires Refines(ms, bs, h) && sz > 0
    ensures match OrdinaryFit(ms, bs, kind, sz, 0) {
      case None => forall i: nat, p: nat :: !MapRoom(ms, h, kind, sz, i, p)
      case Some(at) => FirstRoom(ms, h, kind, sz, at.block, at.page)
    }
  {
    OrdinaryFitComplete(ms, bs, kind, sz);
    forall i: nat, p: nat | i < |ms| ensures HasRoom(ms[i], bs[i], kind, sz, p) <==> MapRoom(ms, h, kind, sz, i, p) {
      RoomIffVacant(ms, bs, h, kind, sz, i, p);
    }
    var fit := OrdinaryFit(ms, bs, kind, sz, 0);
    if fit.Some? { assert HasRoom(ms[fit.value.block], bs[fit.value.block], kind, sz, fit.value.page); }
  }

  /** A size that can be rounded up everywhere is harmless. */
  lemma {:induction false} RoundsIsHarmless(ms: seq<MemInfo>, hm: MemInfo, h: Heap, req: Request)
    requires req.Alloc? && Rounds(ms, hm, req)
    ensures Harmless(ms, hm, h, req)
  {
    if req.size > 0 && req.kind != XPU_MEM_MAIN_KL2_HUGE {
      forall l ensures !Chosen(ms, hm, h, req.kind, req.size, l, 0) {
        forall i: nat | i < |ms| && ms[i].kind == req.kind ensures PagesNeeded(ms[i], req.size) > 0 {
          PagesNeededPositive(ms[i], req.size);
        }
      }
    }
  }

  /** What Malloc promises of the range it granted. */
  ghost predicate Granted(ms: seq<MemInfo>, hm: MemInfo, bs: seq<Block>, h: Heap, size: nat, kind: int, grant: Grant) {
    && |bs| == |ms| && size > 0
    && if kind == XPU_MEM_MAIN_KL2_HUGE then HugeGrant(ms, hm, h, size, grant)
       else Refines(ms, bs, h) && OrdinaryGrant(ms, bs, kind, size, grant)
  }

  /** A granted range starts a page of a block at the address handed out, so
      that address names it when it is freed. */
  lemma {:induction false} GrantIsFirstPage(ms: seq<MemInfo>, hm: MemInfo, bs: seq<Block>, h: Heap,
                                            size: nat, kind: int, owner: Owner, grant: Grant)
    returns (i: nat, p: nat)
    requires LayoutOk(ms) && IsShadow(ms, |ms|, hm) && Granted(ms, hm, bs, h, size, kind, grant)
    ensures PageAt(ms, grant.addr, i, p) && LocOf(ms, i, p) == grant.loc && PageIdToAddr(ms[i], p) == grant.addr
    ensures grant.kind == ms[i].kind && grant.pageBits == ms[i].pageBits && grant.pages == PagesNeeded(ms[i], size)
    ensures FirstPageOf(ms, h[grant.loc := Range(grant.pages, owner)], grant.addr, owner, i, p)
  {
    if kind == XPU_MEM_MAIN_KL2_HUGE {
      i, p := Locate(ms, |ms|, grant.loc.pos);
      ShadowAddress(ms, hm, i, p);
    } else {
      OrdinaryChoice(ms, bs, h, kind, size);
      var at := OrdinaryFit(ms, bs, kind, size, 0).value;
      i, p := at.block, at.page;
    }
    ShlMono(0, 1, ms[i].pageBits);
  }

  // ----- one request and many -----

  lemma {:induction false} GrantIsChosen(ms: seq<MemInfo>, hm: MemInfo, bs: seq<Block>, h: Heap, size: nat, kind: int,
                                         grant: Grant)
    requires Granted(ms, hm, bs, h, size, kind, grant)
    ensures Chosen(ms, hm, h, kind, size, grant.loc, grant.pages) && !NoRoom(ms, hm, h, kind, size)
  {
    if kind != XPU_MEM_MAIN_KL2_HUGE { OrdinaryChoice(ms, bs, h, kind, size); }
  }

  /** The first room there is, and with it the number of pages, is determined. */
  lemma {:induction false} ChosenOnce(ms: seq<MemInfo>, hm: MemInfo, h: Heap, kind: int, sz: nat,
                                      l: Loc, n: nat, l': Loc, n': nat)
    requires sz > 0 && Chosen(ms, hm, h, kind, sz, l, n) && Chosen(ms, hm, h, kind, sz, l', n')
    ensures n == n'
  {
    if kind != XPU_MEM_MAIN_KL2_HUGE {
      var i: nat, p: nat :| FirstRoom(ms, h, kind, sz, i, p) && l == LocOf(ms, i, p) && n == PagesNeeded(ms[i], sz);
      var i': nat, p': nat :|
        FirstRoom(ms, h, kind, sz, i', p') && l' == LocOf(ms, i', p') && n' == PagesNeeded(ms[i'], sz);
      assert MapRoom(ms, h, kind, sz, i, p) && MapRoom(ms, h, kind, sz, i', p');
    }
  }

  /** An ordinary allocation is harmless exactly when it takes pages. */
  lemma {:induction false} HarmlessIffPages(ms: seq<MemInfo>, hm: MemInfo, bs: seq<Block>, h: Heap, size: nat,
                                            kind: int, owner: Owner, grant: Grant)
    requires Granted(ms, hm, bs, h, size, kind, grant) && owner != NULL
    ensures Harmless(ms, hm, h, Alloc(size, kind, owner)) <==> kind == XPU_MEM_MAIN_KL2_HUGE || grant.pages > 0
  {
    GrantIsChosen(ms, hm, bs, h, size, kind, grant);
    forall l | Chosen(ms, hm, h, kind, size, l, 0) ensures grant.pages == 0 {
      ChosenOnce(ms, hm, h, kind, size, l, 0, grant.loc, grant.pages);
    }
  }

  /** The callback of an allocation tells of it, though it gives the size asked for. */
  lemma {:induction false} GrantIsTold(ms: seq<MemInfo>, hm: MemInfo, bs: seq<Block>, rs: seq<Report>, h: Heap,
                                       size: nat, kind: int, owner: Owner, grant: Grant)
    requires LayoutOk(ms) && IsShadow(ms, |ms|, hm) && Granted(ms, hm, bs, h, size, kind, grant)
    requires Told(ms, rs, h) && grant.loc !in h && Rounds(ms, hm, Alloc(size, kind, owner))
    ensures Told(ms, rs + AllocReport(true, size, owner, grant), Added(h, grant.loc, Range(grant.pages, owner)))
  {
    var i, p := GrantIsFirstPage(ms, hm, bs, h, size, kind, owner, grant);
    PagesNeededPositive(ms[i], size);
    AllocIsTold(ms, rs, h, AllocReport(true, size, owner, grant)[0], i, p);
  }

  /** No room in the tables is no room in the map. */
  lemma {:induction false} RefusedIsHarmless(ms: seq<MemInfo>, hm: MemInfo, bs: seq<Block>, h: Heap, size: nat,
                                             kind: int, owner: Owner)
    requires Refines(ms, bs, h) && size > 0
    requires if kind == XPU_MEM_MAIN_KL2_HUGE then NoneVacant(ms, h, Wanted(PagesNeeded(hm, size)))
             else OrdinaryFit(ms, bs, kind, size, 0).None?
    ensures NoRoom(ms, hm, h, kind, size) && Harmless(ms, hm, h, Alloc(size, kind, owner))
  {
    if kind != XPU_MEM_MAIN_KL2_HUGE { OrdinaryChoice(ms, bs, h, kind, size); }
  }

  /** After the request the tables stand for some map exactly when it was
      harmless, and then for the one the map machine goes to. */
  ghost predicate Served(ms: seq<MemInfo>, hm: MemInfo, h: Heap, mm: KlMm, req: Request)
    requires mm.Shape()
    reads mm, mm.cells
  {
    && (Harmless(ms, hm, h, req) <==> exists h' :: Refines(mm.infos, mm.State().blocks, h'))
    && (Harmless(ms, hm, h, req) ==> mm.Valid() && MapStep(ms, hm, h, mm.live, req))
  }

  /** An allocation, whatever its size, leaves tables that stand for a map
      exactly when it is harmless; then it is one step of the map machine, and
      with callbacks keeps the reports in balance. */
  method AllocStep(mm: KlMm, size: nat, kind: int, owner: Owner)
    requires mm.Geometry() && mm.Valid() && Unlocked(mm.infos, mm.State())
    modifies mm, mm.cells
    ensures mm.Shape() && Unlocked(mm.infos, mm.State())
    ensures Served(mm.infos, mm.hugeMem.info, old(mm.live), mm, Alloc(size, kind, owner))
    ensures Rounds(mm.infos, mm.hugeMem.info, Alloc(size, kind, owner)) ==>
      Told(mm.infos, old(mm.reports), old(mm.live)) ==> Told(mm.infos, mm.reports, mm.live)
  {
    ghost var s, h, rs := mm.State(), mm.live, mm.reports;
    ghost var ms, hm, req := mm.infos, mm.hugeMem.info, Alloc(size, kind, owner);
    var status, addr;
    ghost var grant;
    status, addr, grant := mm.Malloc(size, kind, owner, true);
    if status == Success {
      GrantIsChosen(ms, hm, s.blocks, h, size, kind, grant);
      HarmlessIffPages(ms, hm, s.blocks, h, size, kind, owner, grant);
      if Told(ms, rs, h) && Rounds(ms, hm, req) {
        GrantIsTold(ms, hm, s.blocks, rs, h, size, kind, owner, grant);
      }
    } else if status == NoMem {
      RefusedIsHarmless(ms, hm, s.blocks, h, size, kind, owner);
    }
  }

  /** So does a free. */
  method FreeStep(mm: KlMm, addr: nat, owner: Owner)
    requires mm.Geometry() && mm.Valid() && Unlocked(mm.infos, mm.State())
    modifies mm, mm.cells
    ensures mm.Shape() && Unlocked(mm.infos, mm.State())
    ensures Served(mm.infos, mm.hugeMem.info, old(mm.live), mm, Free(addr, owner))
    ensures OffShares(mm.infos, old(mm.live), addr, owner) ==>
      Told(mm.infos, old(mm.reports), old(mm.live)) ==> Told(mm.infos, mm.reports, mm.live)
  {
    var _ := mm.Free(addr, owner, true);
  }

  /** Any request at all. */
  method Serve(mm: KlMm, req: Request)
    requires mm.Geometry() && mm.Valid() && Unlocked(mm.infos, mm.State())
    modifies mm, mm.cells
    ensures mm.Shape() && Unlocked(mm.infos, mm.State())
    ensures Served(mm.infos, mm.hugeMem.info, old(mm.live), mm, req)
    ensures Harmless(mm.infos, mm.hugeMem.info, old(mm.live), req) && Rounds(mm.infos, mm.hugeMem.info, req) ==>
      Told(mm.infos, old(mm.reports), old(mm.live)) ==> Told(mm.infos, mm.reports, mm.live)
  {
    match req
    case Alloc(size, kind, owner) => AllocStep(mm, size, kind, owner);
    case Free(addr, owner) => FreeStep(mm, addr, owner);
    case FreeAll(owner) => mm.FreeByOwner(owner, true);
  }

  /** The maps are a run of the map machine on the requests. */
  ghost predicate MapRun(ms: seq<MemInfo>, hm: MemInfo, hs: seq<Heap>, reqs: seq<Request>) {
    && |hs| == |reqs| + 1
    && forall i :: 0 <= i < |reqs| ==> MapStep(ms, hm, hs[i], hs[i + 1], reqs[i])
  }

  lemma {:induction false} MapRunExtends(ms: seq<MemInfo>, hm: MemInfo, hs: seq<Heap>, reqs: seq<Request>,
                                         i: nat, h': Heap)
    requires i < |reqs| && MapRun(ms, hm, hs, reqs[..i]) && MapStep(ms, hm, hs[i], h', reqs[i])
    ensures MapRun(ms, hm, hs + [h'], reqs[..i + 1])
  {
  }

  /** The owners are distinct and every live range has one of them. */
  ghost predicate Lists(os: seq<Owner>, h: Heap) {
    && (forall i, j :: 0 <= i < j < |os| ==> os[i] != os[j])
    && (forall k :: k in h ==> h[k].owner in os)
  }

  /** What the receiver of the callbacks has booked: under each owner and kind
      the pages the owner holds there, and over all owners those in use. */
  ghost predicate Booked(ms: seq<MemInfo>, bs: seq<Block>, h: Heap, rs: seq<Report>)
    requires |bs| == |ms|
  {
    && Balanced(ms, rs, h)
    && forall os: seq<Owner>, kind :: Lists(os, h) ==> SumOver(rs, os, kind) == SumUsed(ms, bs, kind, |ms|)
  }

  lemma {:induction false} ToldIsBooked(ms: seq<MemInfo>, bs: seq<Block>, h: Heap, rs: seq<Report>)
    requires Refines(ms, bs, h) && Told(ms, rs, h)
    ensures Booked(ms, bs, h, rs)
  {
    ToldIsBalanced(ms, rs, h);
    forall os: seq<Owner>, kind | Lists(os, h) ensures SumOver(rs, os, kind) == SumUsed(ms, bs, kind, |ms|) {
      ReportsAddUp(ms, bs, h, rs, os, kind);
    }
  }

  /** An address lies in one page of one block. */
  lemma {:induction false} PageAtOnce(ms: seq<MemInfo>, addr: nat, i: nat, p: nat, j: nat, q: nat)
    requires Platform(ms) && PageAt(ms, addr, i, p) && PageAt(ms, addr, j, q)
    ensures i == j && p == q
  {
    PageInBlock(ms[i], p);
    PageIsFound(ms, j, q, addr, Some(i));
    PageIsFound(ms, i, p, addr, Some(i));
  }

  /** The reports alone say what is live: no two maps go with them. */
  lemma {:induction false} ToldOnce(ms: seq<MemInfo>, rs: seq<Report>, h: Heap, h': Heap)
    requires Platform(ms) && Told(ms, rs, h) && Told(ms, rs, h')
    ensures h == h'
    decreases |rs|
  {
    if |rs| > 0 {
      var r := rs[|rs| - 1];
      var g :| Told(ms, rs[..|rs| - 1], g) && Tells(ms, g, h, r);
      var g' :| Told(ms, rs[..|rs| - 1], g') && Tells(ms, g', h', r);
      ToldOnce(ms, rs[..|rs| - 1], g, g');
      var i: nat, p: nat :| TellsAt(ms, g, h, r, i, p);
      var j: nat, q: nat :| TellsAt(ms, g', h', r, j, q);
      PageAtOnce(ms, r.addr, i, p, j, q);
    }
  }

  /** The requests are harmless whatever run of the map machine they go with. */
  ghost predicate HarmlessRun(ms: seq<MemInfo>, hm: MemInfo, h: Heap, reqs: seq<Request>) {
    && (forall i :: 0 <= i < |reqs| ==> Rounds(ms, hm, reqs[i]))
    && (forall i, hs :: 0 <= i < |reqs| && MapRun(ms, hm, hs, reqs[..i]) && hs[0] == h ==>
          Harmless(ms, hm, hs[i], reqs[i]))
  }

  /** The next request of a run. */
  method ServeNext(mm: KlMm, reqs: seq<Request>, i: nat, ghost h: Heap, ghost hs: seq<Heap>)
    returns (ghost hs': seq<Heap>)
    requires mm.Geometry() && mm.Valid() && Unlocked(mm.infos, mm.State()) && Told(mm.infos, mm.reports, mm.live)
    requires HarmlessRun(mm.infos, mm.hugeMem.info, h, reqs) && i < |reqs|
    requires MapRun(mm.infos, mm.hugeMem.info, hs, reqs[..i]) && hs[0] == h && hs[i] == mm.live
    modifies mm, mm.cells
    ensures mm.Valid() && Unlocked(mm.infos, mm.State()) && Told(mm.infos, mm.reports, mm.live)
    ensures MapRun(mm.infos, mm.hugeMem.info, hs', reqs[..i + 1]) && hs'[0] == h && hs'[i + 1] == mm.live
  {
    Serve(mm, reqs[i]);
    MapRunExtends(mm.infos, mm.hugeMem.info, hs, reqs, i, mm.live);
    hs' := hs + [mm.live];
  }

  /** One request after another. */
  method ServeAll(mm: KlMm, reqs: seq<Request>) returns (ghost hs: seq<Heap>)
    requires mm.Geometry() && mm.Valid() && Unlocked(mm.infos, mm.State()) && Told(mm.infos, mm.reports, mm.live)
    requires HarmlessRun(mm.infos, mm.hugeMem.info, mm.live, reqs)
    modifies mm, mm.cells
    ensures mm.Valid() && Unlocked(mm.infos, mm.State()) && Told(mm.infos, mm.reports, mm.live)
    ensures MapRun(mm.infos, mm.hugeMem.info, hs, reqs) && hs[0] == old(mm.live) && hs[|reqs|] == mm.live
  {
    hs := [mm.live];
    for i := 0 to |reqs|
      invariant mm.Valid() && Unlocked(mm.infos, mm.State()) && Told(mm.infos, mm.reports, mm.live)
      invariant MapRun(mm.infos, mm.hugeMem.info, hs, reqs[..i]) && hs[0] == old(mm.live) && hs[i] == mm.live
    {
      hs := ServeNext(mm, reqs, i, old(mm.live), hs);
    }
    assert reqs[..|reqs|] == reqs;
  }

  /** Every run refines a run of the map machine. In every state the tables
      hold exactly the live ranges; the callbacks made tell of them, and what
      their receiver has booked is what is held and in use. Init starts such a run. */
  method Run(mm: KlMm, reqs: seq<Request>) returns (ghost hs: seq<Heap>)
    requires mm.Geometry() && mm.Valid() && Unlocked(mm.infos, mm.State()) && Told(mm.infos, mm.reports, mm.live)
    requires HarmlessRun(mm.infos, mm.hugeMem.info, mm.live, reqs)
    modifies mm, mm.cells
    ensures mm.Valid() && Unlocked(mm.infos, mm.State())
    ensures MapRun(mm.infos, mm.hugeMem.info, hs, reqs) && hs[0] == old(mm.live) && hs[|reqs|] == mm.live
    ensures Told(mm.infos, mm.reports, mm.live) && Booked(mm.infos, mm.State().blocks, mm.live, mm.reports)
  {
    hs := ServeAll(mm, reqs);
    ToldIsBooked(mm.infos, mm.State().blocks, mm.live, mm.reports);
  }

  /** An address names no range but the one that starts at its page. */
  lemma {:induction false} OnlyFirstPage(ms: seq<MemInfo>, h: Heap, addr: nat, owner: Owner, i: nat, p: nat)
    requires Platform(ms) && PageAt(ms, addr, i, p)
    ensures forall j: nat, q: nat :: FirstPageOf(ms, h, addr, owner, j, q) ==> j == i && q == p
  {
    forall j: nat, q: nat | FirstPageOf(ms, h, addr, owner, j, q) ensures j == i && q == p {
      PageAtOnce(ms, addr, i, p, j, q);
    }
  }

  /** Freeing an address in page `p` of block `i`, where a range of the owner
      may start. */
  method FreeRange(mm: KlMm, addr: nat, owner: Owner, cb: bool, ghost i: nat, ghost p: nat) returns (status: Status)
    requires mm.Geometry() && mm.Valid() && Unlocked(mm.infos, mm.State()) && owner != NULL
    requires PageAt(mm.infos, addr, i, p)
    requires var l := LocOf(mm.infos, i, p); l in mm.live ==> mm.live[l].owner == owner
    modifies mm, mm.cells
    ensures mm.Valid() && Unlocked(mm.infos, mm.State())
    ensures var l := LocOf(mm.infos, i, p);
      (status == Success <==> l in old(mm.live)) && mm.live == old(mm.live) - {l}
  {
    ghost var h, l := mm.live, LocOf(mm.infos, i, p);
    OnlyFirstPage(mm.infos, h, addr, owner, i, p);
    assert FirstPageOf(mm.infos, h, addr, owner, i, p) <==> l in h;
    status := mm.Free(addr, owner, cb);
    if l !in h { assert h - {l} == h; }
  }

  /** Taking out of the map what was put in gives the tables back. */
  lemma {:induction false} Restored(ms: seq<MemInfo>, bs: seq<Block>, bs': seq<Block>, h: Heap, h': Heap,
                                    l: Loc, r: Range)
    requires Refines(ms, bs, h) && Refines(ms, bs', h') && l !in h && h' == Added(h, l, r) - {l}
    ensures h' == h && bs' == bs
  {
    assert Added(h, l, r) - {l} == h;
    RefinesUnique(ms, bs, bs', h);
  }

  /** An allocation, and the range it took. */
  method AllocRange(mm: KlMm, size: nat, kind: int, owner: Owner, cb: bool)
    returns (status: Status, addr: nat, ghost i: nat, ghost p: nat, ghost r: Range)
    requires mm.Geometry() && mm.Valid() && Unlocked(mm.infos, mm.State())
    requires Harmless(mm.infos, mm.hugeMem.info, mm.live, Alloc(size, kind, owner))
    modifies mm, mm.cells
    ensures mm.Valid() && Unlocked(mm.infos, mm.State())
    ensures status != Success ==> mm.live == old(mm.live)
    ensures status == Success ==>
      && size > 0 && owner != NULL && r.owner == owner && PageAt(mm.infos, addr, i, p)
      && (if kind == XPU_MEM_MAIN_KL2_HUGE then r.len == PagesNeeded(mm.hugeMem.info, size) else r.len > 0)
      && var l := LocOf(mm.infos, i, p);
         l !in old(mm.live) && mm.live == Added(old(mm.live), l, r)
  {
    ghost var bs, h := mm.State().blocks, mm.live;
    ghost var grant;
    status, addr, grant := mm.Malloc(size, kind, owner, cb);
    i, p, r := 0, 0, Range(grant.pages, owner);
    if status == Success {
      HarmlessIffPages(mm.infos, mm.hugeMem.info, bs, h, size, kind, owner, grant);
      i, p := GrantIsFirstPage(mm.infos, mm.hugeMem.info, bs, h, size, kind, owner, grant);
    }
  }

  /** An allocation followed by the free of the address it returned restores
      every table of every block, whichever path each of the two takes. The
      free succeeds unless the size had wrapped and no page was taken. */
  method AllocThenFree(mm: KlMm, size: nat, kind: int, owner: Owner, cb: bool) returns (got: Status, freed: Status)
    requires mm.Geometry() && mm.Valid() && Unlocked(mm.infos, mm.State())
    requires Harmless(mm.infos, mm.hugeMem.info, mm.live, Alloc(size, kind, owner))
    modifies mm, mm.cells
    ensures mm.Valid() && Unlocked(mm.infos, mm.State())
    ensures got == Success ==> size > 0
    ensures got == Success ==>
      (freed == Success <==> kind != XPU_MEM_MAIN_KL2_HUGE || PagesNeeded(mm.hugeMem.info, size) > 0)
    ensures mm.live == old(mm.live) && mm.State().blocks == old(mm.State()).blocks
  {
    ghost var bs, h := mm.State().blocks, mm.live;
    var addr;
    ghost var i, p, r;
    got, addr, i, p, r := AllocRange(mm, size, kind, owner, cb);
    freed := got;
    if got == Success {
      freed := FreeRange(mm, addr, owner, cb, i, p);
      Restored(mm.infos, bs, mm.State().blocks, h, mm.live, LocOf(mm.infos, i, p), r);
    } else {
      RefinesUnique(mm.infos, bs, mm.State().blocks, h);
    }
  }
}
