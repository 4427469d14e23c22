/** The memory layout: which pages each block has, where they lie in the
    shadow of all XPU_MEM_MAIN blocks, and which layouts kl_mm_init takes. */
module Layout {
  import opened LiveRanges
  import opened Shifts

  const XPU_MEM_MAIN: int := 0
  const XPU_MEM_L3: int := 1
  const XPU_MEM_MAIN_KL2_HUGE: int := 17
  const BITS_PER_LONG: nat := 64
  const TWO_TO_THE_64: nat := 0x1_0000_0000_0000_0000

  /** `struct kl_memory_info`. */
  datatype MemInfo = MemInfo(base: nat, size: nat, pageBits: nat, kind: int) {
    function PageSize(): nat { Shl(1, pageBits) }
    function PageCount(): nat { Shr(size, pageBits) }
    function Limit(): nat { base + size }
  }

  function PageIdToAddr(m: MemInfo, page: nat): nat {
    m.base + Shl(page, m.pageBits)
  }

  function AddrToPageId(m: MemInfo, addr: nat): nat
    requires m.base <= addr
  {
    Shr(addr - m.base, m.pageBits)
  }

  /** `(sz + page_size - 1) >> page_bits` on 64-bit words. */
  function PagesNeeded(m: MemInfo, sz: nat): nat
    requires sz > 0
  {
    Shr((sz + m.PageSize() - 1) % TWO_TO_THE_64, m.pageBits)
  }

  /** The request can be rounded up to whole pages within 64 bits. */
  predicate Roundable(m: MemInfo, sz: nat) {
    sz + m.PageSize() - 1 < TWO_TO_THE_64
  }

  /** `n` pages are the fewest that hold `sz` bytes. */
  predicate Holds(m: MemInfo, n: nat, sz: nat) {
    n > 0 && Shl(n - 1, m.pageBits) < sz <= Shl(n, m.pageBits)
  }

  /** The computed page count is the least that holds the request exactly when
      the 64-bit sum does not wrap; when it does, the count is zero. */
  lemma {:induction false} PagesNeededExact(m: MemInfo, sz: nat)
    requires 0 < sz < TWO_TO_THE_64 && m.PageSize() <= TWO_TO_THE_64
    ensures Roundable(m, sz) <==> Holds(m, PagesNeeded(m, sz), sz)
    ensures !Roundable(m, sz) <==> PagesNeeded(m, sz) == 0
  {
    var ps := m.PageSize();
    var n := PagesNeeded(m, sz);
    ShlMono(0, 1, m.pageBits);
    ShrShl((sz + ps - 1) % TWO_TO_THE_64, m.pageBits);
    ShlMono(0, n, m.pageBits);
    if n > 0 { ShlAdd(n - 1, 1, m.pageBits); }
    ShlZero(m.pageBits);
    if !Roundable(m, sz) { ShrUnique(sz + ps - 1 - TWO_TO_THE_64, m.pageBits, 0); }
  }

  lemma {:induction false} PagesNeededPositive(m: MemInfo, sz: nat)
    requires sz > 0 && Roundable(m, sz)
    ensures PagesNeeded(m, sz) > 0 && Holds(m, PagesNeeded(m, sz), sz)
  {
    ShlMono(0, 1, m.pageBits);
    PagesNeededExact(m, sz);
  }

  // ----- the shadow of the MAIN blocks -----

  predicate IsMain(ms: seq<MemInfo>, i: nat) {
    i < |ms| && ms[i].kind == XPU_MEM_MAIN
  }

  /** The first shadow page of block `i`: `page_id_begin` in the source. */
  function MainBegin(ms: seq<MemInfo>, i: nat): nat
    requires i <= |ms|
  {
    if i == 0 then 0
    else MainBegin(ms, i - 1) + if IsMain(ms, i - 1) then ms[i - 1].PageCount() else 0
  }

  function MainPages(ms: seq<MemInfo>): nat { MainBegin(ms, |ms|) }

  /** The same in bytes. */
  function ByteBegin(ms: seq<MemInfo>, i: nat): nat
    requires i <= |ms|
  {
    if i == 0 then 0
    else ByteBegin(ms, i - 1) + if IsMain(ms, i - 1) then ms[i - 1].size else 0
  }

  /** Where the pages of block `i` lie: MAIN blocks share lane 0. */
  function SpanOf(ms: seq<MemInfo>, i: nat): Span
    requires i < |ms|
  {
    if IsMain(ms, i) then Span(0, MainBegin(ms, i), ms[i].PageCount())
    else Span(i + 1, 0, ms[i].PageCount())
  }

  function LocOf(ms: seq<MemInfo>, i: nat, page: nat): Loc
    requires i < |ms|
  {
    Loc(SpanOf(ms, i).lane, SpanOf(ms, i).begin + page)
  }

  lemma {:induction false} MainBeginMono(ms: seq<MemInfo>, i: nat, j: nat)
    requires i <= j <= |ms|
    ensures MainBegin(ms, i) <= MainBegin(ms, j)
    ensures i < j && IsMain(ms, i) ==> MainBegin(ms, i) + ms[i].PageCount() <= MainBegin(ms, j)
    decreases j
  {
    if i < j { MainBeginMono(ms, i, j - 1); }
  }

  /** Every shadow page belongs to a MAIN block... */
  lemma {:induction false} Locate(ms: seq<MemInfo>, upto: nat, g: nat) returns (i: nat, p: nat)
    requires upto <= |ms| && g < MainBegin(ms, upto)
    ensures i < upto && IsMain(ms, i) && p < ms[i].PageCount() && MainBegin(ms, i) + p == g
    decreases upto
  {
    if g < MainBegin(ms, upto - 1) {
      i, p := Locate(ms, upto - 1, g);
    } else {
      i, p := upto - 1, g - MainBegin(ms, upto - 1);
    }
  }

  /** ...and to one page of one block only, of whatever kind. */
  lemma {:induction false} LocIsUnique(ms: seq<MemInfo>, i: nat, p: nat, j: nat, q: nat)
    requires i < |ms| && p < ms[i].PageCount() && j < |ms| && q < ms[j].PageCount()
    requires LocOf(ms, i, p) == LocOf(ms, j, q)
    ensures i == j && p == q
  {
    if i < j { MainBeginMono(ms, i, j); }
    if j < i { MainBeginMono(ms, j, i); }
  }

  // ----- what kl_mm_init checks -----

  predicate MainAligned(m: MemInfo) {
    LowBits(m.base, m.pageBits) == 0 && LowBits(m.size, m.pageBits) == 0 && m.PageCount() % BITS_PER_LONG == 0
  }

  /** MAIN block `i` continues the non-empty MAIN block `j`: the same page
      size, and exactly the MAIN bytes in between lie between their bases. */
  predicate Continues(ms: seq<MemInfo>, j: nat, i: nat)
    requires j <= i < |ms|
  {
    && ms[i].pageBits == ms[j].pageBits
    && ms[i].base + ByteBegin(ms, j) == ms[j].base + ByteBegin(ms, i)
  }

  ghost predicate LayoutOk(ms: seq<MemInfo>) {
    && (forall i {:trigger MainAligned(ms[i])} :: 0 <= i < |ms| && IsMain(ms, i) ==> MainAligned(ms[i]))
    && (forall j, i {:trigger Continues(ms, j, i)} ::
          0 <= j < i < |ms| && IsMain(ms, j) && ms[j].size > 0 && IsMain(ms, i) ==> Continues(ms, j, i))
  }

  /** Block `i` has the shadow's page size and starts the MAIN bytes before it
      above the shadow's base. */
  predicate Placed(ms: seq<MemInfo>, hm: MemInfo, i: nat)
    requires i < |ms|
  {
    ms[i].pageBits == hm.pageBits && ms[i].base == hm.base + ByteBegin(ms, i)
  }

  /** `hm` describes the shadow: non-empty MAIN blocks share its page size and
      follow one another from its base. */
  ghost predicate IsShadow(ms: seq<MemInfo>, upto: nat, hm: MemInfo)
    requires upto <= |ms|
  {
    && hm.kind == XPU_MEM_MAIN && hm.size == ByteBegin(ms, upto)
    && (forall i {:trigger Placed(ms, hm, i)} ::
          0 <= i < upto && IsMain(ms, i) && ms[i].size > 0 ==> Placed(ms, hm, i))
  }

  lemma {:induction false} ByteBeginMono(ms: seq<MemInfo>, i: nat, j: nat)
    requires i <= j <= |ms|
    ensures ByteBegin(ms, i) <= ByteBegin(ms, j)
    ensures i < j && IsMain(ms, i) ==> ByteBegin(ms, i) + ms[i].size <= ByteBegin(ms, j)
    decreases j
  {
    if i < j { ByteBeginMono(ms, i, j - 1); }
  }

  /** The checking loop of kl_mm_init accepts exactly the layouts whose MAIN
      blocks are aligned and follow one another without a gap. */
  method CheckLayout(ms: seq<MemInfo>) returns (ok: bool, huge: MemInfo)
    ensures ok <==> LayoutOk(ms)
    ensures ok ==> IsShadow(ms, |ms|, huge)
  {
    huge := MemInfo(TWO_TO_THE_64 - 1, 0, 0, XPU_MEM_MAIN);
    var lastLimit := 0;
    ghost var first: nat := 0;
    for idx := 0 to |ms|
      invariant IsShadow(ms, idx, huge)
      invariant forall i :: 0 <= i < idx && IsMain(ms, i) ==> MainAligned(ms[i])
      invariant forall j, i {:trigger Continues(ms, j, i)} ::
        0 <= j < i < idx && IsMain(ms, j) && ms[j].size > 0 && IsMain(ms, i) ==> Continues(ms, j, i)
      invariant huge.size > 0 ==>
        && first < idx && IsMain(ms, first) && ms[first].size > 0 && ByteBegin(ms, first) == 0
        && Placed(ms, huge, first) && lastLimit == huge.base + huge.size
    {
      var info := ms[idx];
      if info.kind == XPU_MEM_MAIN {
        assert IsMain(ms, idx) && ms[idx] == info;
        if LowBits(info.base, info.pageBits) != 0 || LowBits(info.size, info.pageBits) != 0
           || info.PageCount() % BITS_PER_LONG != 0 {
          assert !MainAligned(ms[idx]);
          return false, huge;
        }
        if huge.size > 0 {
          if huge.pageBits != info.pageBits || lastLimit != info.base {
            assert IsMain(ms, idx) && !Continues(ms, first, idx);
            return false, huge;
          }
        } else {
          huge := huge.(base := info.base, pageBits := info.pageBits);
          first := idx;
          forall j | 0 <= j < idx && IsMain(ms, j) ensures ms[j].size == 0 {
            ByteBeginMono(ms, j, idx);
          }
        }
        ghost var before := huge;
        huge := huge.(size := huge.size + info.size);
        forall i | 0 <= i <= idx && IsMain(ms, i) && ms[i].size > 0 ensures Placed(ms, huge, i) {
          assert i < idx ==> Placed(ms, before, i);
        }
        lastLimit := info.base + info.size;
      }
    }
    ok := true;
  }

  /** Shadow regions start on whole words, so word copies hit them exactly. */
  lemma {:induction false} MainBeginAligned(ms: seq<MemInfo>, i: nat)
    requires i <= |ms| && LayoutOk(ms)
    ensures MainBegin(ms, i) % BITS_PER_LONG == 0
    ensures IsMain(ms, i) ==> ms[i].PageCount() % BITS_PER_LONG == 0
  {
    assert IsMain(ms, i) ==> MainAligned(ms[i]);
    if i > 0 { MainBeginAligned(ms, i - 1); }
  }

  lemma {:induction false} WholeWords(x: nat)
    requires x % BITS_PER_LONG == 0
    ensures x / BITS_PER_LONG * BITS_PER_LONG == x && x / 8 * 8 == x
  {
    var k := x / 64;
    assert x == 64 * k + x % 64;
    assert x / 8 == 8 * k;
  }

  lemma {:induction false} WordCopyExact(ms: seq<MemInfo>, i: nat)
    requires LayoutOk(ms) && IsMain(ms, i)
    ensures MainBegin(ms, i) / BITS_PER_LONG * BITS_PER_LONG == MainBegin(ms, i)
    ensures ms[i].PageCount() / 8 * 8 == ms[i].PageCount()
  {
    MainBeginAligned(ms, i);
    WholeWords(MainBegin(ms, i));
    WholeWords(ms[i].PageCount());
  }

  /** An aligned block is as many bytes as pages, at the common page size. */
  lemma {:induction false} SizeIsPages(m: MemInfo, bits: nat)
    requires MainAligned(m) && (m.size > 0 ==> m.pageBits == bits)
    ensures m.size == Shl(m.PageCount(), bits)
  {
    if m.size == 0 {
      ShrZero(m.pageBits);
      ShlZero(bits);
    }
  }

  /** In bytes a non-empty MAIN block starts where its shadow pages do. */
  lemma {:induction false} BytesArePages(ms: seq<MemInfo>, i: nat, bits: nat)
    requires i <= |ms| && LayoutOk(ms)
    requires forall j :: 0 <= j < i && IsMain(ms, j) && ms[j].size > 0 ==> ms[j].pageBits == bits
    ensures ByteBegin(ms, i) == Shl(MainBegin(ms, i), bits)
  {
    if i == 0 {
      ShlZero(bits);
    } else {
      BytesArePages(ms, i - 1, bits);
      if IsMain(ms, i - 1) {
        assert MainAligned(ms[i - 1]);
        SizeIsPages(ms[i - 1], bits);
        ShlAdd(MainBegin(ms, i - 1), ms[i - 1].PageCount(), bits);
      }
    }
  }

  /** A page has the same address in its block and in the shadow. */
  lemma {:induction false} ShadowAddress(ms: seq<MemInfo>, hm: MemInfo, i: nat, p: nat)
    requires LayoutOk(ms) && IsShadow(ms, |ms|, hm)
    requires IsMain(ms, i) && p < ms[i].PageCount()
    ensures MainBegin(ms, i) + p < MainPages(ms)
    ensures ms[i].pageBits == hm.pageBits
    ensures PageIdToAddr(hm, MainBegin(ms, i) + p) == PageIdToAddr(ms[i], p)
  {
    if ms[i].size == 0 { ShrZero(ms[i].pageBits); }
    MainBeginMono(ms, i, |ms|);
    assert ms[i].size > 0 ==> Placed(ms, hm, i);
    forall j | 0 <= j < i && IsMain(ms, j) && ms[j].size > 0 ensures ms[j].pageBits == hm.pageBits {
      assert Placed(ms, hm, j);
    }
    BytesArePages(ms, i, hm.pageBits);
    ShlAdd(MainBegin(ms, i), p, hm.pageBits);
  }

  /** The block is a whole number of pages long. */
  predicate WholePages(m: MemInfo) { LowBits(m.size, m.pageBits) == 0 }

  /** An address inside a block of whole pages lies in the page it maps to. */
  lemma {:induction false} AddrInPage(m: MemInfo, addr: nat)
    requires WholePages(m) && m.base <= addr < m.Limit()
    ensures AddrToPageId(m, addr) < m.PageCount()
    ensures PageIdToAddr(m, AddrToPageId(m, addr)) <= addr
    ensures addr < PageIdToAddr(m, AddrToPageId(m, addr)) + m.PageSize()
  {
    ShrShl(addr - m.base, m.pageBits);
    ShlMono(m.PageCount(), AddrToPageId(m, addr), m.pageBits);
  }

  /** An address in a MAIN block maps to the same page through the shadow. */
  lemma {:induction false} SameShadowPage(ms: seq<MemInfo>, hm: MemInfo, i: nat, addr: nat)
    requires LayoutOk(ms) && IsShadow(ms, |ms|, hm)
    requires IsMain(ms, i) && ms[i].base <= addr < ms[i].Limit()
    ensures hm.base <= addr
    ensures AddrToPageId(hm, addr) == MainBegin(ms, i) + AddrToPageId(ms[i], addr)
  {
    var p := AddrToPageId(ms[i], addr);
    assert MainAligned(ms[i]);
    AddrInPage(ms[i], addr);
    ShadowAddress(ms, hm, i, p);
    ShrUnique(addr - hm.base, hm.pageBits, MainBegin(ms, i) + p);
  }

  /** Every page of an accepted MAIN block starts at a multiple of its size, as
      the block itself does, and so does the address the shadow gives it. */
  lemma {:induction false} PagesAligned(ms: seq<MemInfo>, i: nat, p: nat)
    requires LayoutOk(ms) && IsMain(ms, i)
    ensures exists k: nat :: PageIdToAddr(ms[i], p) == k * ms[i].PageSize()
  {
    assert MainAligned(ms[i]);
    var b := Shr(ms[i].base, ms[i].pageBits);
    ShlAdd(b, p, ms[i].pageBits);
    ShlTimes(b + p, ms[i].pageBits);
    assert PageIdToAddr(ms[i], p) == (b + p) * ms[i].PageSize();
  }

  /** The shadow has exactly the pages of the MAIN blocks. */
  lemma {:induction false} ShadowPageCount(ms: seq<MemInfo>, hm: MemInfo)
    requires LayoutOk(ms) && IsShadow(ms, |ms|, hm)
    ensures hm.PageCount() == MainPages(ms)
  {
    forall j | 0 <= j < |ms| && IsMain(ms, j) && ms[j].size > 0 ensures ms[j].pageBits == hm.pageBits {
      assert Placed(ms, hm, j);
    }
    BytesArePages(ms, |ms|, hm.pageBits);
    ShlMono(0, 1, hm.pageBits);
    ShrUnique(hm.size, hm.pageBits, MainPages(ms));
  }

  /** addr_to_pageid inverts pageid_to_addr, also inside the page. */
  lemma {:induction false} AddrToPageIdInverts(m: MemInfo, p: nat, off: nat)
    requires off < m.PageSize()
    ensures AddrToPageId(m, PageIdToAddr(m, p) + off) == p
  {
    ShrUnique(Shl(p, m.pageBits) + off, m.pageBits, p);
  }

  /** A page of a block lies inside the block. */
  lemma {:induction false} PageInBlock(m: MemInfo, p: nat)
    requires p < m.PageCount()
    ensures m.base <= PageIdToAddr(m, p) && PageIdToAddr(m, p) + m.PageSize() <= m.Limit()
  {
    ShrShl(m.size, m.pageBits);
    ShlMono(p, m.PageCount(), m.pageBits);
  }
}
