/** What the callbacks report, against what the owners hold. */
module Accounting {
  import opened Bitmaps
  import opened LiveRanges
  import opened Layout
  import opened PageTables
  import opened Shifts

  /** One call of the caller's `kl_mm_cb_t`; `pageBits` is that of the memory it names. */
  datatype Report = Report(freed: bool, addr: nat, size: nat, kind: int, owner: Owner, pageBits: nat)

  /** What the receiver books under: a kind of memory for one owner. */
  datatype Account = Account(kind: int, owner: Owner)

  /** The kind of the memory a range lies in. */
  function KindAt(ms: seq<MemInfo>, l: Loc): int {
    if 0 < l.lane <= |ms| then ms[l.lane - 1].kind else XPU_MEM_MAIN
  }

  lemma {:induction false} KindOfPage(ms: seq<MemInfo>, i: nat, p: nat)
    requires i < |ms|
    ensures KindAt(ms, LocOf(ms, i, p)) == ms[i].kind
  {
  }

  function AccountOf(ms: seq<MemInfo>, l: Loc, r: Range): Account {
    Account(KindAt(ms, l), r.owner)
  }

  /** The pages of the live ranges whose account is one of these. */
  ghost function Held(ms: seq<MemInfo>, h: Heap, accounts: iset<Account>): nat {
    if h == map[] then 0
    else
      var k :| k in h;
      (if AccountOf(ms, k, h[k]) in accounts then h[k].len else 0) + Held(ms, h - {k}, accounts)
  }

  /** Any live range can be taken out of the sum. */
  lemma {:induction false} HeldRemove(ms: seq<MemInfo>, h: Heap, k: Loc, accounts: iset<Account>)
    requires k in h
    ensures Held(ms, h, accounts)
      == Held(ms, h - {k}, accounts) + if AccountOf(ms, k, h[k]) in accounts then h[k].len else 0
    decreases |h|
  {
    var k' :| k' in h && Held(ms, h, accounts)
      == (if AccountOf(ms, k', h[k']) in accounts then h[k'].len else 0) + Held(ms, h - {k'}, accounts);
    if k' != k {
      HeldRemove(ms, h - {k'}, k, accounts);
      HeldRemove(ms, h - {k}, k', accounts);
      assert h - {k'} - {k} == h - {k} - {k'};
    }
  }

  lemma {:induction false} HeldAdd(ms: seq<MemInfo>, h: Heap, k: Loc, r: Range, accounts: iset<Account>)
    requires k !in h
    ensures Held(ms, h[k := r], accounts)
      == Held(ms, h, accounts) + if AccountOf(ms, k, r) in accounts then r.len else 0
  {
    HeldRemove(ms, h[k := r], k, accounts);
    assert h[k := r] - {k} == h;
  }

  /** The pages a callback's receiver counts: its size rounded up to pages. */
  function ReportedPages(r: Report): nat {
    ShlMono(0, 1, r.pageBits);
    Shr(r.size + Shl(1, r.pageBits) - 1, r.pageBits)
  }

  /** Pages reported allocated less pages reported freed, under one account. */
  function Net(rs: seq<Report>, a: Account): int {
    if |rs| == 0 then 0
    else
      var r := rs[|rs| - 1];
      var n: int := if Account(r.kind, r.owner) == a then ReportedPages(r) else 0;
      Net(rs[..|rs| - 1], a) + if r.freed then -n else n
  }

  /** Every owner's reports of every kind add up to the pages it holds there. */
  ghost predicate Balanced(ms: seq<MemInfo>, rs: seq<Report>, h: Heap) {
    forall a :: Net(rs, a) == Held(ms, h, iset{a})
  }

  // ----- replaying the reports -----

  /** The address lies in page `p` of block `i`. */
  predicate PageAt(ms: seq<MemInfo>, addr: nat, i: nat, p: nat) {
    && i < |ms| && p < ms[i].PageCount()
    && PageIdToAddr(ms[i], p) <= addr < PageIdToAddr(ms[i], p) + ms[i].PageSize()
  }

  /** The report names the memory of block `i`, and its page `p` by any address
      in that page for a free, by its first address for an allocation. */
  predicate NamesPage(ms: seq<MemInfo>, r: Report, i: nat, p: nat) {
    && PageAt(ms, r.addr, i, p) && (!r.freed ==> r.addr == PageIdToAddr(ms[i], p))
    && r.kind == ms[i].kind && r.pageBits == ms[i].pageBits
  }

  /** From map `h` to `h'` the owner's range of the pages reported, at that
      page, was added or taken away. */
  ghost predicate TellsAt(ms: seq<MemInfo>, h: Heap, h': Heap, r: Report, i: nat, p: nat) {
    && NamesPage(ms, r, i, p)
    && var l, range := LocOf(ms, i, p), Range(ReportedPages(r), r.owner);
       if r.freed then l in h && h[l] == range && h' == h - {l} else l !in h && h' == h[l := range]
  }

  ghost predicate Tells(ms: seq<MemInfo>, h: Heap, h': Heap, r: Report) {
    exists i: nat, p: nat :: TellsAt(ms, h, h', r, i, p)
  }

  /** Replaying the reports from the start ends with the live map. */
  ghost predicate Told(ms: seq<MemInfo>, rs: seq<Report>, h: Heap) {
    if |rs| == 0 then h == map[]
    else
      var r := rs[|rs| - 1];
      exists g :: Tells(ms, g, h, r) && Told(ms, rs[..|rs| - 1], g)
  }

  lemma {:induction false} ToldNext(ms: seq<MemInfo>, rs: seq<Report>, h: Heap, h': Heap, r: Report)
    requires Told(ms, rs, h) && Tells(ms, h, h', r)
    ensures Told(ms, rs + [r], h')
  {
    var all := rs + [r];
    assert all[..|all| - 1] == rs && all[|all| - 1] == r;
    assert Tells(ms, h, h', r) && Told(ms, all[..|all| - 1], h);
  }

  /** A free reports whole pages, so rounding up gives exactly the pages freed. */
  lemma {:induction false} WholePagesRoundTrip(n: nat, bits: nat)
    ensures Shl(1, bits) > 0 && Shr(Shl(n, bits) + Shl(1, bits) - 1, bits) == n
  {
    ShlMono(0, 1, bits);
    ShrUnique(Shl(n, bits) + Shl(1, bits) - 1, bits, n);
  }

  /** An allocation that reports the raw request tells of the pages it took. */
  lemma {:induction false} AllocIsTold(ms: seq<MemInfo>, rs: seq<Report>, h: Heap, r: Report, i: nat, p: nat)
    requires Told(ms, rs, h) && NamesPage(ms, r, i, p) && LocOf(ms, i, p) !in h
    requires !r.freed && r.size > 0 && Roundable(ms[i], r.size)
    ensures Told(ms, rs + [r], h[LocOf(ms, i, p) := Range(PagesNeeded(ms[i], r.size), r.owner)])
  {
    var h' := h[LocOf(ms, i, p) := Range(PagesNeeded(ms[i], r.size), r.owner)];
    ShlMono(0, 1, r.pageBits);
    assert TellsAt(ms, h, h', r, i, p);
    ToldNext(ms, rs, h, h', r);
  }

  /** A free that reports whole pages tells of the range it took off. */
  lemma {:induction false} FreeIsTold(ms: seq<MemInfo>, rs: seq<Report>, h: Heap, r: Report, i: nat, p: nat)
    requires Told(ms, rs, h) && NamesPage(ms, r, i, p) && LocOf(ms, i, p) in h
    requires var range := h[LocOf(ms, i, p)]; r.freed && r.owner == range.owner && r.size == Shl(range.len, r.pageBits)
    ensures Told(ms, rs + [r], h - {LocOf(ms, i, p)})
  {
    var l := LocOf(ms, i, p);
    WholePagesRoundTrip(h[l].len, r.pageBits);
    assert TellsAt(ms, h, h - {l}, r, i, p);
    ToldNext(ms, rs, h, h - {l}, r);
  }

  lemma {:induction false} TellsBalance(ms: seq<MemInfo>, rs: seq<Report>, h: Heap, h': Heap, r: Report, a: Account)
    requires Tells(ms, h, h', r) && Net(rs, a) == Held(ms, h, iset{a})
    ensures Net(rs + [r], a) == Held(ms, h', iset{a})
  {
    var i: nat, p: nat :| TellsAt(ms, h, h', r, i, p);
    var l := LocOf(ms, i, p);
    KindOfPage(ms, i, p);
    assert (rs + [r])[..|rs + [r]| - 1] == rs;
    if r.freed { HeldRemove(ms, h, l, iset{a}); } else { HeldAdd(ms, h, l, h'[l], iset{a}); }
  }

  /** Reports that can be replayed balance under every account. */
  lemma {:induction false} ToldIsBalanced(ms: seq<MemInfo>, rs: seq<Report>, h: Heap)
    requires Told(ms, rs, h)
    ensures Balanced(ms, rs, h)
    decreases |rs|
  {
    if |rs| > 0 {
      var r := rs[|rs| - 1];
      var g :| Told(ms, rs[..|rs| - 1], g) && Tells(ms, g, h, r);
      ToldIsBalanced(ms, rs[..|rs| - 1], g);
      assert rs[..|rs| - 1] + [r] == rs;
      forall a ensures Net(rs, a) == Held(ms, h, iset{a}) { TellsBalance(ms, rs[..|rs| - 1], g, h, r, a); }
    }
  }

  /** Ranges reported allocated less ranges reported freed. */
  function RangesTold(rs: seq<Report>): int {
    if |rs| == 0 then 0 else RangesTold(rs[..|rs| - 1]) + if rs[|rs| - 1].freed then -1 else 1
  }

  lemma {:induction false} ToldAreLive(ms: seq<MemInfo>, rs: seq<Report>, h: Heap)
    requires Told(ms, rs, h)
    ensures RangesTold(rs) == |h|
    decreases |rs|
  {
    if |rs| > 0 {
      var r := rs[|rs| - 1];
      var g :| Told(ms, rs[..|rs| - 1], g) && Tells(ms, g, h, r);
      ToldAreLive(ms, rs[..|rs| - 1], g);
      var i: nat, p: nat :| TellsAt(ms, g, h, r, i, p);
    }
  }

  /** What frees for one owner add to the reports, with a callback or without. */
  ghost predicate AddsFrees(cb: bool, was: seq<Report>, now: seq<Report>, owner: Owner) {
    && was <= now && (!cb ==> now == was)
    && forall j :: |was| <= j < |now| ==> now[j].freed && now[j].owner == owner
  }

  lemma {:induction false} FreesTold(was: seq<Report>, now: seq<Report>, owner: Owner)
    requires AddsFrees(true, was, now, owner)
    ensures RangesTold(now) == RangesTold(was) - (|now| - |was|)
    decreases |now|
  {
    if |now| > |was| {
      FreesTold(was, now[..|now| - 1], owner);
    } else {
      assert now == was;
    }
  }

  /** Each range taken away was reported once. */
  lemma {:induction false} OneReportEach(ms: seq<MemInfo>, was: seq<Report>, now: seq<Report>, h: Heap, h': Heap,
                                         o: Owner)
    requires Told(ms, was, h) && Told(ms, now, h') && AddsFrees(true, was, now, o)
    ensures |now| - |was| == |h| - |h'|
  {
    ToldAreLive(ms, was, h);
    ToldAreLive(ms, now, h');
    FreesTold(was, now, o);
  }

  // ----- the use counts -----

  /** `page_used` summed over the blocks of a kind below `upto`. */
  function SumUsed(ms: seq<MemInfo>, bs: seq<Block>, kind: int, upto: nat): int
    requires upto <= |bs| == |ms|
  {
    if upto == 0 then 0
    else SumUsed(ms, bs, kind, upto - 1) + if ms[upto - 1].kind == kind then bs[upto - 1].used else 0
  }

  lemma {:induction false} SumUsedUnmark(ms: seq<MemInfo>, bs: seq<Block>, l: Loc, n: nat, kind: int, upto: nat)
    requires AllSized(ms, bs) && upto <= |ms|
    ensures SumUsed(ms, UnmarkAll(ms, bs, l, n), kind, upto)
      == SumUsed(ms, bs, kind, upto) - if KindAt(ms, l) == kind then SharesBelow(ms, upto, l, n) else 0
  {
    if upto > 0 { SumUsedUnmark(ms, bs, l, n, kind, upto - 1); }
  }

  lemma {:induction false} EmptyUsesNothing(ms: seq<MemInfo>, bs: seq<Block>, kind: int, upto: nat)
    requires Refines(ms, bs, map[]) && upto <= |ms|
    ensures SumUsed(ms, bs, kind, upto) == 0
  {
    if upto > 0 {
      EmptyUsesNothing(ms, bs, kind, upto - 1);
      var b := bs[upto - 1];
      assert Represents(SpanOf(ms, upto - 1), b, map[]);
      forall q | 0 <= q < |b.bits| ensures !b.bits[q] {
        assert PageOk(SpanOf(ms, upto - 1), b, map[], q);
      }
      CountUniform(b.bits, false);
    }
  }

  /** All accounts of a kind. */
  ghost function OfKind(kind: int): iset<Account> { iset a: Account | a.kind == kind }

  /** The use counts of the blocks of a kind add up to the pages of the live
      ranges there, however the ranges are split over the blocks. */
  lemma {:induction false} UsedIsHeld(ms: seq<MemInfo>, bs: seq<Block>, h: Heap, kind: int)
    requires Refines(ms, bs, h)
    ensures SumUsed(ms, bs, kind, |ms|) == Held(ms, h, OfKind(kind))
    decreases |h|
  {
    if h == map[] {
      EmptyUsesNothing(ms, bs, kind, |ms|);
    } else {
      var k :| k in h;
      UnmarkAllRefines(ms, bs, h, k);
      UsedIsHeld(ms, UnmarkAll(ms, bs, k, h[k].len), h - {k}, kind);
      SumUsedUnmark(ms, bs, k, h[k].len, kind, |ms|);
      SharesSum(ms, k, h[k].len);
      HeldRemove(ms, h, k, OfKind(kind));
    }
  }

  function SumOver(rs: seq<Report>, os: seq<Owner>, kind: int): int {
    if |os| == 0 then 0 else SumOver(rs, os[1..], kind) + Net(rs, Account(kind, os[0]))
  }

  lemma {:induction false} HeldUnion(ms: seq<MemInfo>, h: Heap, a: iset<Account>, b: iset<Account>)
    requires a !! b
    ensures Held(ms, h, a + b) == Held(ms, h, a) + Held(ms, h, b)
    decreases |h|
  {
    if h != map[] {
      var k :| k in h;
      HeldRemove(ms, h, k, a);
      HeldRemove(ms, h, k, b);
      HeldRemove(ms, h, k, a + b);
      HeldUnion(ms, h - {k}, a, b);
    }
  }

  lemma {:induction false} HeldNone(ms: seq<MemInfo>, h: Heap, accounts: iset<Account>)
    requires forall k :: k in h ==> AccountOf(ms, k, h[k]) !in accounts
    ensures Held(ms, h, accounts) == 0
    decreases |h|
  {
    if h != map[] {
      var k :| k in h;
      HeldRemove(ms, h, k, accounts);
      HeldNone(ms, h - {k}, accounts);
    }
  }

  ghost function OfOwners(os: seq<Owner>, kind: int): iset<Account> {
    iset a: Account | a.kind == kind && a.owner in os
  }

  lemma {:induction false} HeldByAll(ms: seq<MemInfo>, rs: seq<Report>, h: Heap, os: seq<Owner>, kind: int)
    requires Balanced(ms, rs, h)
    requires forall i, j :: 0 <= i < j < |os| ==> os[i] != os[j]
    ensures SumOver(rs, os, kind) == Held(ms, h, OfOwners(os, kind))
  {
    if |os| == 0 {
      HeldNone(ms, h, OfOwners(os, kind));
    } else {
      HeldByAll(ms, rs, h, os[1..], kind);
      var a := Account(kind, os[0]);
      HeldUnion(ms, h, OfOwners(os[1..], kind), iset{a});
      assert OfOwners(os[1..], kind) + iset{a} == OfOwners(os, kind);
    }
  }

  lemma {:induction false} HeldByListed(ms: seq<MemInfo>, h: Heap, os: seq<Owner>, kind: int)
    requires forall k :: k in h ==> h[k].owner in os
    ensures Held(ms, h, OfOwners(os, kind)) == Held(ms, h, OfKind(kind))
    decreases |h|
  {
    if h != map[] {
      var k :| k in h;
      HeldRemove(ms, h, k, OfOwners(os, kind));
      HeldRemove(ms, h, k, OfKind(kind));
      HeldByListed(ms, h - {k}, os, kind);
    }
  }

  /** Conservation: for every kind, over all owners, pages reported allocated
      less pages reported freed are the pages the blocks of it count as used. */
  lemma {:induction false} ReportsAddUp(ms: seq<MemInfo>, bs: seq<Block>, h: Heap, rs: seq<Report>, os: seq<Owner>,
                                        kind: int)
    requires Refines(ms, bs, h) && Balanced(ms, rs, h)
    requires forall i, j :: 0 <= i < j < |os| ==> os[i] != os[j]
    requires forall k :: k in h ==> h[k].owner in os
    ensures SumOver(rs, os, kind) == SumUsed(ms, bs, kind, |ms|)
  {
    HeldByAll(ms, rs, h, os, kind);
    HeldByListed(ms, h, os, kind);
    UsedIsHeld(ms, bs, h, kind);
  }
}
