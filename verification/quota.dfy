/** Quota accounting of the cxpu: the books as a value, what each call does to
    them, and the 8/7 rounding between shown and actual pages. */
module Quota {
  import opened Wrappers
  import opened LiveRanges
  import opened Layout
  import opened Shifts

  const MEM_UNLIMIT: nat := TWO_TO_THE_64 - 1
  const INSTANCE_ID_LEN: nat := 12
  const INSTANCE_MAX: nat := 12

  const XPU_MEM_CODE: int := 2
  const XPU_MEM_PARAM: int := 3
  const XPU_MEM_PRINTF: int := 4
  const XPU_MEM_RESERVED: int := 5

  datatype Errno = OK | EINVAL | ENOMEM | EEXIST | EBUSY

  // ----- pages of the memory manager, by kind -----

  ghost predicate IsFirstOf(ms: seq<MemInfo>, kind: int, i: nat) {
    i < |ms| && ms[i].kind == kind && forall j :: 0 <= j < i ==> ms[j].kind != kind
  }

  /** The first block of the kind: __mk2md. */
  function FirstOf(ms: seq<MemInfo>, kind: int): (r: Option<MemInfo>)
    ensures r.Some? ==> exists i: nat :: IsFirstOf(ms, kind, i) && r.value == ms[i]
    ensures r.None? ==> forall i :: 0 <= i < |ms| ==> ms[i].kind != kind
  {
    if |ms| == 0 then None
    else if ms[0].kind == kind then
      assert IsFirstOf(ms, kind, 0);
      Some(ms[0])
    else
      var r := FirstOf(ms[1..], kind);
      assert r.Some? ==> exists i: nat :: IsFirstOf(ms, kind, i) && r.value == ms[i] by {
        if r.Some? {
          var i: nat :| IsFirstOf(ms[1..], kind, i) && r.value == ms[1..][i];
          assert IsFirstOf(ms, kind, i + 1) && r.value == ms[i + 1];
        }
      }
      r
  }

  function BytesAll(ms: seq<MemInfo>, kind: int): nat {
    if |ms| == 0 then 0
    else BytesAll(ms[..|ms| - 1], kind) + if ms[|ms| - 1].kind == kind then ms[|ms| - 1].size else 0
  }

  function PagesAll(ms: seq<MemInfo>, kind: int): nat {
    if |ms| == 0 then 0
    else PagesAll(ms[..|ms| - 1], kind) + if ms[|ms| - 1].kind == kind then ms[|ms| - 1].PageCount() else 0
  }

  /** kl_cxpu_get_mainmem_cnt_all: everything but L3, in MAIN pages. */
  function MainPagesAll(ms: seq<MemInfo>): nat
    requires FirstOf(ms, XPU_MEM_MAIN).Some?
  {
    Shr(BytesAll(ms, XPU_MEM_MAIN) + BytesAll(ms, XPU_MEM_CODE) + BytesAll(ms, XPU_MEM_PARAM)
        + BytesAll(ms, XPU_MEM_PRINTF) + BytesAll(ms, XPU_MEM_RESERVED),
        FirstOf(ms, XPU_MEM_MAIN).value.pageBits)
  }

  // ----- what the totals count -----

  function Total(ms: seq<MemInfo>, kind: int): nat
    requires FirstOf(ms, XPU_MEM_MAIN).Some?
  {
    if kind == XPU_MEM_MAIN then MainPagesAll(ms) else PagesAll(ms, XPU_MEM_L3)
  }

  /** The places of `n` pages in a row. */
  function Row(lane: nat, begin: nat, n: nat): (r: set<Loc>)
    ensures |r| == n && forall l :: l in r <==> l.lane == lane && begin <= l.pos < begin + n
  {
    if n == 0 then {} else Row(lane, begin, n - 1) + {Loc(lane, begin + n - 1)}
  }

  ghost predicate PageOf(ms: seq<MemInfo>, kind: int, i: nat, p: nat, l: Loc) {
    i < |ms| && ms[i].kind == kind && p < ms[i].PageCount() && l == LocOf(ms, i, p)
  }

  /** The place is that of a page of the kind, in a block below `upto`. */
  ghost predicate IsPage(ms: seq<MemInfo>, kind: int, upto: nat, l: Loc) {
    exists i: nat, p: nat :: i < upto && PageOf(ms, kind, i, p, l)
  }

  /** The places of the pages of block `i`, if it has the kind. */
  ghost function RowOf(ms: seq<MemInfo>, kind: int, i: nat): (r: set<Loc>)
    requires i < |ms|
    ensures forall l :: l in r <==> exists p: nat :: PageOf(ms, kind, i, p, l)
    ensures |r| == if ms[i].kind == kind then ms[i].PageCount() else 0
  {
    if ms[i].kind != kind then {}
    else
      var sp := SpanOf(ms, i);
      var r := Row(sp.lane, sp.begin, sp.count);
      assert forall l :: l in r ==> PageOf(ms, kind, i, l.pos - sp.begin, l);
      r
  }

  lemma {:induction false} RowsApart(ms: seq<MemInfo>, kind: int, upto: nat, l: Loc)
    requires upto < |ms| && IsPage(ms, kind, upto, l)
    ensures l !in RowOf(ms, kind, upto)
  {
    var j: nat, q: nat :| j < upto && PageOf(ms, kind, j, q, l);
    if p: nat :| PageOf(ms, kind, upto, p, l) { LocIsUnique(ms, upto, p, j, q); }
  }

  lemma {:induction false} IsPageNext(ms: seq<MemInfo>, kind: int, upto: nat, l: Loc)
    requires upto < |ms|
    ensures IsPage(ms, kind, upto + 1, l) <==> IsPage(ms, kind, upto, l) || l in RowOf(ms, kind, upto)
  {
    if IsPage(ms, kind, upto, l) { var i: nat, p: nat :| i < upto && PageOf(ms, kind, i, p, l); }
    if IsPage(ms, kind, upto + 1, l) { var i: nat, p: nat :| i < upto + 1 && PageOf(ms, kind, i, p, l); }
  }

  /** The places of the pages of a kind are as many as are counted. */
  lemma {:induction false} PagesCounted(ms: seq<MemInfo>, kind: int, upto: nat) returns (r: set<Loc>)
    requires upto <= |ms|
    ensures |r| == PagesAll(ms[..upto], kind) && forall l :: l in r <==> IsPage(ms, kind, upto, l)
  {
    if upto == 0 {
      r := {};
    } else {
      var i := upto - 1;
      var below := PagesCounted(ms, kind, i);
      assert ms[..upto][..i] == ms[..i];
      forall l ensures l in below ==> l !in RowOf(ms, kind, i) {
        if l in below { RowsApart(ms, kind, i, l); }
      }
      r := below + RowOf(ms, kind, i);
      forall l ensures l in r <==> IsPage(ms, kind, upto, l) { IsPageNext(ms, kind, i, l); }
    }
  }

  /** The L3 total is the number of L3 pages there are to allocate. */
  lemma {:induction false} L3TotalCounts(ms: seq<MemInfo>) returns (r: set<Loc>)
    requires FirstOf(ms, XPU_MEM_MAIN).Some?
    ensures |r| == Total(ms, XPU_MEM_L3) && forall l :: l in r <==> IsPage(ms, XPU_MEM_L3, |ms|, l)
  {
    r := PagesCounted(ms, XPU_MEM_L3, |ms|);
    assert ms[..|ms|] == ms;
  }

  /** The bytes of all blocks of some kinds. */
  function BytesOf(ms: seq<MemInfo>, kinds: set<int>): nat {
    if |ms| == 0 then 0
    else BytesOf(ms[..|ms| - 1], kinds) + if ms[|ms| - 1].kind in kinds then ms[|ms| - 1].size else 0
  }

  lemma {:induction false} BytesAdd(ms: seq<MemInfo>, kinds: set<int>, kind: int)
    requires kind !in kinds
    ensures BytesOf(ms, kinds + {kind}) == BytesOf(ms, kinds) + BytesAll(ms, kind)
  {
    if |ms| > 0 { BytesAdd(ms[..|ms| - 1], kinds, kind); }
  }

  lemma {:induction false} BytesOfNone(ms: seq<MemInfo>)
    ensures BytesOf(ms, {}) == 0
  {
    if |ms| > 0 { BytesOfNone(ms[..|ms| - 1]); }
  }

  const OTHER_KINDS: set<int> := {XPU_MEM_CODE, XPU_MEM_PARAM, XPU_MEM_PRINTF, XPU_MEM_RESERVED}

  lemma {:induction false} OtherBytes(ms: seq<MemInfo>)
    ensures BytesOf(ms, OTHER_KINDS) == BytesAll(ms, XPU_MEM_CODE) + BytesAll(ms, XPU_MEM_PARAM)
                                        + BytesAll(ms, XPU_MEM_PRINTF) + BytesAll(ms, XPU_MEM_RESERVED)
  {
    BytesOfNone(ms);
    BytesAdd(ms, {}, XPU_MEM_CODE);
    BytesAdd(ms, {XPU_MEM_CODE}, XPU_MEM_PARAM);
    BytesAdd(ms, {XPU_MEM_CODE, XPU_MEM_PARAM}, XPU_MEM_PRINTF);
    BytesAdd(ms, {XPU_MEM_CODE, XPU_MEM_PARAM, XPU_MEM_PRINTF}, XPU_MEM_RESERVED);
    assert {} + {XPU_MEM_CODE} == {XPU_MEM_CODE};
    assert {XPU_MEM_CODE} + {XPU_MEM_PARAM} == {XPU_MEM_CODE, XPU_MEM_PARAM};
    assert {XPU_MEM_CODE, XPU_MEM_PARAM} + {XPU_MEM_PRINTF} == {XPU_MEM_CODE, XPU_MEM_PARAM, XPU_MEM_PRINTF};
    assert {XPU_MEM_CODE, XPU_MEM_PARAM, XPU_MEM_PRINTF} + {XPU_MEM_RESERVED} == OTHER_KINDS;
  }

  /** The main total is as many whole main pages as the blocks of the five kinds
      have bytes for. */
  lemma {:induction false} MainTotalCounts(ms: seq<MemInfo>)
    requires FirstOf(ms, XPU_MEM_MAIN).Some?
    ensures var bits := FirstOf(ms, XPU_MEM_MAIN).value.pageBits;
      var n := Total(ms, XPU_MEM_MAIN);
      Shl(n, bits) <= BytesOf(ms, OTHER_KINDS + {XPU_MEM_MAIN}) < Shl(n + 1, bits)
  {
    OtherBytes(ms);
    BytesAdd(ms, OTHER_KINDS, XPU_MEM_MAIN);
    var m := FirstOf(ms, XPU_MEM_MAIN).value;
    ShrShl(BytesOf(ms, OTHER_KINDS + {XPU_MEM_MAIN}), m.pageBits);
    ShlAdd(Total(ms, XPU_MEM_MAIN), 1, m.pageBits);
  }

  lemma {:induction false} MainBytes(ms: seq<MemInfo>, upto: nat)
    requires upto <= |ms|
    ensures BytesAll(ms[..upto], XPU_MEM_MAIN) == ByteBegin(ms, upto)
  {
    if upto > 0 {
      assert ms[..upto][..upto - 1] == ms[..upto - 1];
      MainBytes(ms, upto - 1);
    }
  }

  /** It is the pages of the shadow and the pages that the other kinds fill. */
  lemma {:induction false} MainTotalIsShadow(ms: seq<MemInfo>, hm: MemInfo)
    requires LayoutOk(ms) && IsShadow(ms, |ms|, hm)
    requires FirstOf(ms, XPU_MEM_MAIN).Some? && FirstOf(ms, XPU_MEM_MAIN).value.pageBits == hm.pageBits
    ensures Total(ms, XPU_MEM_MAIN) == hm.PageCount() + Shr(BytesOf(ms, OTHER_KINDS), hm.pageBits)
  {
    OtherBytes(ms);
    MainBytes(ms, |ms|);
    assert ms[..|ms|] == ms;
    ShadowPageCount(ms, hm);
    forall j | 0 <= j < |ms| && IsMain(ms, j) && ms[j].size > 0 ensures ms[j].pageBits == hm.pageBits {
      assert Placed(ms, hm, j);
    }
    BytesArePages(ms, |ms|, hm.pageBits);
    ShrShlAdd(MainPages(ms), BytesOf(ms, OTHER_KINDS), hm.pageBits);
  }

  // ----- shown and actual pages -----

  /** __actmem_to_showmem on 64-bit words. */
  function Shown(ecc: bool, kind: int, act: nat): nat {
    if ecc && kind == XPU_MEM_MAIN then act * 8 % TWO_TO_THE_64 / 7 else act
  }

  /** __showmem_to_actmem: DIV_ROUND_UP(show * 7, 8) on 64-bit words. */
  function Actual(ecc: bool, kind: int, show: nat): nat {
    if ecc && kind == XPU_MEM_MAIN then (show * 7 % TWO_TO_THE_64 + 7) % TWO_TO_THE_64 / 8 else show
  }

  lemma {:induction false} DivBy7(q: nat, r: nat)
    requires r < 7
    ensures (7 * q + r) / 7 == q
  {
  }

  lemma {:induction false} DivBy8(q: nat, r: nat)
    requires r < 8
    ensures (8 * q + r) / 8 == q
  {
  }

  lemma {:induction false} Split(x: nat, d: nat) returns (q: nat, r: nat)
    requires d == 7 || d == 8
    ensures x == d * q + r && r < d && r == x % d
  {
    q, r := x / d, x % d;
  }

  /** Under ECC, when nothing wraps, 7 * q + r actual pages show as 8 * q + r. */
  lemma {:induction false} ShownIs(q: nat, r: nat)
    requires r < 7 && (7 * q + r) * 8 < TWO_TO_THE_64
    ensures Shown(true, XPU_MEM_MAIN, 7 * q + r) == 8 * q + r
  {
    var x := (7 * q + r) * 8;
    assert x == 7 * (8 * q + r) + r;
    assert x % TWO_TO_THE_64 == x;
    DivBy7(8 * q + r, r);
  }

  /** And 8 * q + r shown pages take 7 * q + r actual ones. */
  lemma {:induction false} ActualIs(q: nat, r: nat)
    requires r < 8 && (8 * q + r) * 7 + 7 < TWO_TO_THE_64
    ensures Actual(true, XPU_MEM_MAIN, 8 * q + r) == 7 * q + r
  {
    var x := (8 * q + r) * 7;
    assert x % TWO_TO_THE_64 == x && (x + 7) % TWO_TO_THE_64 == x + 7;
    assert x + 7 == 8 * (7 * q + r) + (7 - r);
    DivBy8(7 * q + r, 7 - r);
  }

  lemma {:induction false} ActualAtMost(q: nat, w: nat)
    requires 7 * q <= w <= TWO_TO_THE_64 - 8
    ensures Actual(true, XPU_MEM_MAIN, q) * 8 <= w + 7
  {
    var a, b := Split(7 * q + 7, 8);
    DivBy8(a, b);
  }

  lemma {:induction false} WordsOfEight(act: nat)
    requires act < TWO_TO_THE_64 <= act * 8
    ensures act * 8 % TWO_TO_THE_64 <= TWO_TO_THE_64 - 8
    ensures act * 8 % TWO_TO_THE_64 + TWO_TO_THE_64 <= act * 8
  {
    var k := act * 8 / TWO_TO_THE_64;
    assert act * 8 == TWO_TO_THE_64 * k + act * 8 % TWO_TO_THE_64;
  }

  lemma {:induction false} WrapLoses(act: nat)
    requires act < TWO_TO_THE_64 <= act * 8
    ensures Actual(true, XPU_MEM_MAIN, Shown(true, XPU_MEM_MAIN, act)) < act
  {
    var w := act * 8 % TWO_TO_THE_64;
    WordsOfEight(act);
    var q, r := Split(w, 7);
    DivBy7(q, r);
    ActualAtMost(q, w);
  }

  /** Nothing is lost from actual to shown pages and back, as long as eight
      times the count fits into 64 bits; under ECC no other count comes back. */
  lemma {:induction false} ActualOfShown(ecc: bool, kind: int, act: nat)
    requires act < TWO_TO_THE_64
    ensures Actual(ecc, kind, Shown(ecc, kind, act)) == act
      <==> act * 8 < TWO_TO_THE_64 || !(ecc && kind == XPU_MEM_MAIN)
  {
    if ecc && kind == XPU_MEM_MAIN {
      if act * 8 < TWO_TO_THE_64 {
        var q, r := Split(act, 7);
        ShownIs(q, r);
        ActualIs(q, r);
      } else {
        WrapLoses(act);
      }
    }
  }

  /** What is left of a product that passes 64 bits. */
  lemma {:induction false} WrapsLow(x: nat)
    requires TWO_TO_THE_64 <= x < 7 * TWO_TO_THE_64
    ensures x % TWO_TO_THE_64 + TWO_TO_THE_64 <= x
  {
    var k := x / TWO_TO_THE_64;
    assert x == TWO_TO_THE_64 * k + x % TWO_TO_THE_64;
  }

  lemma {:induction false} ShownAtMost(a: nat, w: nat)
    requires a * 8 <= w
    ensures Shown(true, XPU_MEM_MAIN, a) * 7 <= w
  {
    var x := a * 8 % TWO_TO_THE_64;
    assert x <= a * 8;
    var q, r := Split(x, 7);
    DivBy7(q, r);
  }

  lemma {:induction false} ActualAtMostWord(show: nat, x: nat)
    requires x == show * 7 % TWO_TO_THE_64
    ensures Actual(true, XPU_MEM_MAIN, show) * 8 <= x + 7
  {
    var y := (x + 7) % TWO_TO_THE_64;
    assert y <= x + 7;
    var a, b := Split(y, 8);
    DivBy8(a, b);
  }

  /** Where the scaled count wraps, far too little is read back. */
  lemma {:induction false} WrapReadsLess(show: nat)
    requires show < TWO_TO_THE_64 <= show * 7 + 7
    ensures Shown(true, XPU_MEM_MAIN, Actual(true, XPU_MEM_MAIN, show)) < show
  {
    var x := show * 7 % TWO_TO_THE_64;
    if show * 7 < TWO_TO_THE_64 {
      assert x == show * 7 && (x + 7) % TWO_TO_THE_64 == x + 7 - TWO_TO_THE_64 < 7;
      assert Actual(true, XPU_MEM_MAIN, show) == 0;
    } else {
      WrapsLow(show * 7);
      ActualAtMostWord(show, x);
      ShownAtMost(Actual(true, XPU_MEM_MAIN, show), x + 7);
    }
  }

  /** Whether a count of s pages reads back as s, or as s + 1 when s leaves the
      remainder 7 by 8 under ECC. */
  predicate ReadsBack(ecc: bool, kind: int, show: nat) {
    Shown(ecc, kind, Actual(ecc, kind, show))
    == if ecc && kind == XPU_MEM_MAIN && show % 8 == 7 then show + 1 else show
  }

  /** It does exactly when ECC scaling is off or does not pass 64 bits. */
  lemma {:induction false} ShownOfActual(ecc: bool, kind: int, show: nat)
    requires show < TWO_TO_THE_64
    ensures ReadsBack(ecc, kind, show) <==> !(ecc && kind == XPU_MEM_MAIN) || show * 7 + 7 < TWO_TO_THE_64
  {
    if ecc && kind == XPU_MEM_MAIN {
      if show * 7 + 7 < TWO_TO_THE_64 {
        var q, r := Split(show, 8);
        ActualIs(q, r);
        if r == 7 { ShownIs(q + 1, 0); } else { ShownIs(q, r); }
      } else {
        WrapReadsLess(show);
      }
    }
  }

  /** An unlimited instance reads back as unlimited exactly when no ECC scaling
      applies: scaled, the all-ones word wraps to something else. */
  lemma {:induction false} UnlimitedReadBack(ecc: bool, kind: int)
    ensures Shown(ecc, kind, MEM_UNLIMIT) == MEM_UNLIMIT <==> !(ecc && kind == XPU_MEM_MAIN)
  {
  }

  /** __bytes2pgcnt; an overflow gives the all-ones word. */
  function BytesToPages(m: MemInfo, bytes: nat): nat
    requires bytes < TWO_TO_THE_64
  {
    if (bytes + TWO_TO_THE_64 - 1 + m.PageSize()) % TWO_TO_THE_64 < bytes then MEM_UNLIMIT
    else
      ShlMono(0, 1, m.pageBits);
      Shr((bytes + m.PageSize() - 1) % TWO_TO_THE_64, m.pageBits)
  }

  lemma {:induction false} ShrSmaller(x: nat, n: nat)
    requires n > 0
    ensures Shr(x, n) <= x / 2
  {
    if n > 1 { ShrSmaller(x, n - 1); }
  }

  /** The conversion refuses exactly the byte counts that cannot be rounded up
      within 64 bits (and, with pages of one byte, the one that is the mark for
      unlimited), and otherwise gives the fewest pages that hold them. */
  lemma {:induction false} BytesToPagesExact(m: MemInfo, bytes: nat)
    requires bytes < TWO_TO_THE_64 && m.PageSize() < TWO_TO_THE_64
    ensures BytesToPages(m, bytes) == MEM_UNLIMIT
      <==> bytes > 0 && (!Roundable(m, bytes) || (m.pageBits == 0 && bytes == MEM_UNLIMIT))
    ensures bytes > 0 && Roundable(m, bytes) ==> Holds(m, BytesToPages(m, bytes), bytes)
    ensures bytes == 0 ==> BytesToPages(m, bytes) == 0
  {
    var ps := m.PageSize();
    ShlMono(0, 1, m.pageBits);
    if bytes == 0 {
      ShlZero(m.pageBits);
      ShrUnique(ps - 1, m.pageBits, 0);
    } else if Roundable(m, bytes) {
      PagesNeededPositive(m, bytes);
      if m.pageBits > 0 { ShrSmaller(bytes + ps - 1, m.pageBits); }
    }
  }

  lemma {:induction false} ShrEighth(x: nat, n: nat)
    requires n >= 3
    ensures 8 * Shr(x, n) <= x
  {
    if n > 3 {
      ShrEighth(x, n - 1);
    } else {
      assert Shr(x, 1) == x / 2 && Shr(x, 2) == x / 2 / 2;
    }
  }

  // ----- the books -----

  /** One listed instance. */
  datatype Entry = Entry(id: string, token: nat, refs: nat, main: nat, l3: nat)

  datatype Books = Books(entries: seq<Entry>, mainUsed: int, l3Used: int)

  function Limit(e: Entry, kind: int): nat {
    if kind == XPU_MEM_MAIN then e.main else e.l3
  }

  function Used(b: Books, kind: int): int {
    if kind == XPU_MEM_MAIN then b.mainUsed else b.l3Used
  }

  /** What a limit counts for in the totals. */
  function Finite(limit: nat): nat { if limit == MEM_UNLIMIT then 0 else limit }

  /** The finite limits of all listed instances. */
  function SumLimits(es: seq<Entry>, kind: int): nat {
    if |es| == 0 then 0 else Finite(Limit(es[0], kind)) + SumLimits(es[1..], kind)
  }

  /** The totals are the sums of the finite limits and within the memory. */
  ghost predicate InBalance(ms: seq<MemInfo>, b: Books, kind: int)
    requires FirstOf(ms, XPU_MEM_MAIN).Some?
  {
    0 <= Used(b, kind) == SumLimits(b.entries, kind) <= Total(ms, kind)
  }

  function Clip(s: string, n: nat): string {
    if |s| <= n then s else s[..n]
  }

  /** What `strncpy` keeps of a name. */
  function Key(id: string): string { Clip(id, INSTANCE_ID_LEN) }

  /** `strncmp(a, b, n) == 0` for names without a NUL. */
  predicate SameUpTo(a: string, b: string, n: nat) {
    if n == 0 then true
    else if |a| == 0 || |b| == 0 then |a| == |b|
    else a[0] == b[0] && SameUpTo(a[1..], b[1..], n - 1)
  }

  lemma {:induction false} ClipCons(s: string, n: nat)
    requires |s| > 0 && n > 0
    ensures Clip(s, n) == [s[0]] + Clip(s[1..], n - 1)
  {
  }

  lemma {:induction false} ConsEqual(c: char, s: string, d: char, t: string)
    ensures [c] + s == [d] + t <==> c == d && s == t
  {
    assert ([c] + s)[0] == c && ([d] + t)[0] == d;
    assert ([c] + s)[1..] == s && ([d] + t)[1..] == t;
  }

  lemma {:induction false} SameIffClipped(a: string, b: string, n: nat)
    ensures SameUpTo(a, b, n) <==> Clip(a, n) == Clip(b, n)
    decreases n
  {
    if n > 0 && |a| > 0 && |b| > 0 {
      SameIffClipped(a[1..], b[1..], n - 1);
      ClipCons(a, n);
      ClipCons(b, n);
      ConsEqual(a[0], Clip(a[1..], n - 1), b[0], Clip(b[1..], n - 1));
    }
  }

  /** A listed name compares equal to another exactly when both are kept alike. */
  lemma {:induction false} KeyCompares(listed: string, id: string)
    ensures SameUpTo(Key(listed), id, INSTANCE_ID_LEN) <==> Key(listed) == Key(id)
  {
    SameIffClipped(Key(listed), id, INSTANCE_ID_LEN);
  }

  ghost predicate BooksOk(ms: seq<MemInfo>, b: Books)
    requires FirstOf(ms, XPU_MEM_MAIN).Some?
  {
    && InBalance(ms, b, XPU_MEM_MAIN) && InBalance(ms, b, XPU_MEM_L3)
    && |b.entries| <= INSTANCE_MAX
    && (forall i :: 0 <= i < |b.entries| ==> b.entries[i].refs > 0)
    && (forall i, j :: 0 <= i < j < |b.entries| ==> b.entries[i].id != b.entries[j].id)
  }

  lemma {:induction false} SumSplit(a: seq<Entry>, b: seq<Entry>, kind: int)
    ensures SumLimits(a + b, kind) == SumLimits(a, kind) + SumLimits(b, kind)
    decreases |a|
  {
    if |a| == 0 {
      assert a + b == b;
    } else {
      assert (a + b)[1..] == a[1..] + b;
      SumSplit(a[1..], b, kind);
    }
  }

  /** The other entries, in their order. */
  function Others(es: seq<Entry>, i: nat): (r: seq<Entry>)
    requires i < |es|
    ensures |r| == |es| - 1 && forall j :: 0 <= j < |r| ==> r[j] == es[if j < i then j else j + 1]
  {
    es[..i] + es[i + 1..]
  }

  lemma {:induction false} SumAround(es: seq<Entry>, i: nat, kind: int)
    requires i < |es|
    ensures SumLimits(es, kind) == Finite(Limit(es[i], kind)) + SumLimits(Others(es, i), kind)
  {
    assert es == es[..i] + es[i..];
    SumSplit(es[..i], es[i..], kind);
    SumSplit(es[..i], es[i + 1..], kind);
    assert es[i..][1..] == es[i + 1..];
  }

  lemma {:induction false} SumReplace(es: seq<Entry>, i: nat, e: Entry, kind: int)
    requires i < |es|
    ensures SumLimits(es[i := e], kind) == SumLimits(es, kind) - Finite(Limit(es[i], kind)) + Finite(Limit(e, kind))
  {
    var fs := es[i := e];
    SumAround(es, i, kind);
    SumAround(fs, i, kind);
    assert Others(fs, i) == Others(es, i);
  }

  // ----- what each call does -----

  /** The index of the instance with this name, or the number of instances. */
  function Find(es: seq<Entry>, id: string): (r: nat)
    ensures r <= |es|
    ensures r < |es| ==> es[r].id == Key(id)
    ensures forall i :: 0 <= i < r ==> es[i].id != Key(id)
  {
    if |es| == 0 then 0
    else if es[0].id == Key(id) then 0
    else
      var r := 1 + Find(es[1..], id);
      assert forall i :: 0 < i < r ==> es[i] == es[1..][i - 1];
      r
  }

  function CreateIn(b: Books, id: string, token: nat): (Books, Errno) {
    if |b.entries| >= INSTANCE_MAX then (b, ENOMEM)
    else if Find(b.entries, id) < |b.entries| then (b, EEXIST)
    else (b.(entries := b.entries + [Entry(Key(id), token, 1, MEM_UNLIMIT, MEM_UNLIMIT)]), OK)
  }

  function GetIn(b: Books, i: nat): Books
    requires i < |b.entries|
  {
    b.(entries := b.entries[i := b.entries[i].(refs := b.entries[i].refs + 1)])
  }

  /** kl_cxpu_destroy_instance_ref: the instance gives back its finite limits. */
  function RemoveIn(b: Books, i: nat): Books
    requires i < |b.entries|
  {
    var e := b.entries[i];
    Books(Others(b.entries, i), b.mainUsed - Finite(e.main), b.l3Used - Finite(e.l3))
  }

  /** xref_put: the last reference removes the instance. */
  function PutIn(b: Books, i: nat): Books
    requires i < |b.entries| && b.entries[i].refs > 0
  {
    if b.entries[i].refs == 1 then RemoveIn(b, i)
    else b.(entries := b.entries[i := b.entries[i].(refs := b.entries[i].refs - 1)])
  }

  function DestroyIn(b: Books, id: string): (Books, Errno)
    requires forall i :: 0 <= i < |b.entries| ==> b.entries[i].refs > 0
  {
    var i := Find(b.entries, id);
    if i == |b.entries| then (b, OK)
    else if b.entries[i].refs > 1 then (b, EBUSY)
    else (PutIn(b, i), OK)
  }

  function WithLimit(e: Entry, kind: int, limit: nat): (r: Entry)
    ensures (r.id, r.token, r.refs) == (e.id, e.token, e.refs)
    ensures Limit(r, kind) == limit
    ensures kind == XPU_MEM_MAIN ==> Limit(r, XPU_MEM_L3) == Limit(e, XPU_MEM_L3)
    ensures kind != XPU_MEM_MAIN ==> Limit(r, XPU_MEM_MAIN) == Limit(e, XPU_MEM_MAIN)
  {
    if kind == XPU_MEM_MAIN then e.(main := limit) else e.(l3 := limit)
  }

  function WithUsed(b: Books, kind: int, used: int): Books {
    if kind == XPU_MEM_MAIN then b.(mainUsed := used) else b.(l3Used := used)
  }

  function SetLimitIn(ms: seq<MemInfo>, ecc: bool, b: Books, i: nat, kind: int, bytes: nat): (Books, Errno)
    requires i < |b.entries| && FirstOf(ms, XPU_MEM_MAIN).Some? && bytes < TWO_TO_THE_64
  {
    if FirstOf(ms, kind).None? || (kind != XPU_MEM_MAIN && kind != XPU_MEM_L3) then (b, EINVAL)
    else
      var last := Finite(Limit(b.entries[i], kind));
      if bytes == MEM_UNLIMIT then
        (WithUsed(b, kind, Used(b, kind) - last)
         .(entries := b.entries[i := WithLimit(b.entries[i], kind, MEM_UNLIMIT)]), OK)
      else
        var pages := BytesToPages(FirstOf(ms, kind).value, bytes);
        if pages == MEM_UNLIMIT then (b, EINVAL)
        else
          var limit := Actual(ecc, kind, pages);
          if limit <= Total(ms, kind) + last - Used(b, kind) then
            (WithUsed(b, kind, Used(b, kind) - last + limit)
             .(entries := b.entries[i := WithLimit(b.entries[i], kind, limit)]), OK)
          else (b, ENOMEM)
  }

  // ----- what each call comes to, whatever code computes it -----

  /** Some listed instance has the name. */
  ghost predicate Lists(es: seq<Entry>, id: string) {
    exists i :: 0 <= i < |es| && es[i].id == Key(id)
  }

  /** Entry `i` alone has become `e`; the totals have not moved. */
  ghost predicate Becomes(b: Books, i: nat, e: Entry, r: Books) {
    && i < |b.entries| == |r.entries| && r.entries[i] == e
    && (forall j :: 0 <= j < |b.entries| && j != i ==> r.entries[j] == b.entries[j])
    && r.mainUsed == b.mainUsed && r.l3Used == b.l3Used
  }

  /** Entry `i` is gone, the others are as they were in their order, and each
      total has fallen by the limit that `i` had there. */
  ghost predicate Loses(b: Books, i: nat, r: Books) {
    && i < |b.entries| && r.entries == Others(b.entries, i)
    && forall kind :: kind == XPU_MEM_MAIN || kind == XPU_MEM_L3 ==>
         var was := Limit(b.entries[i], kind);
         Used(r, kind) == Used(b, kind) - if was == MEM_UNLIMIT then 0 else was
  }

  /** A create is refused for twelve instances or for the name, and then changes
      nothing; else the new one is last, held once and without limits. */
  ghost predicate Creates(b: Books, id: string, token: nat, r: Books, err: Errno) {
    && (err == ENOMEM <==> |b.entries| >= 12)
    && (err == EEXIST <==> |b.entries| < 12 && Lists(b.entries, id))
    && (err == OK || ((err == ENOMEM || err == EEXIST) && r == b))
    && (err == OK ==>
          && r.entries == b.entries + [Entry(Key(id), token, 1, MEM_UNLIMIT, MEM_UNLIMIT)]
          && r.mainUsed == b.mainUsed && r.l3Used == b.l3Used)
  }

  /** Giving back a reference: the last one takes the instance along. */
  ghost predicate Puts(b: Books, i: nat, r: Books) {
    && i < |b.entries| && b.entries[i].refs > 0
    && (b.entries[i].refs == 1 ==> Loses(b, i, r))
    && (b.entries[i].refs > 1 ==> Becomes(b, i, b.entries[i].(refs := b.entries[i].refs - 1), r))
  }

  /** A destroy is refused while anyone else holds a reference, and then
      changes nothing; else no instance has the name any more. */
  ghost predicate Destroys(b: Books, id: string, r: Books, err: Errno) {
    && (err == EBUSY <==> exists i :: 0 <= i < |b.entries| && b.entries[i].id == Key(id) && b.entries[i].refs > 1)
    && (err == OK || (err == EBUSY && r == b))
    && (err == OK ==> !Lists(r.entries, id))
    && (err == OK && !Lists(b.entries, id) ==> r == b)
    && (err == OK ==> forall i :: 0 <= i < |b.entries| && b.entries[i].id == Key(id) ==> Loses(b, i, r))
  }

  /** Limits can be set for the kind, and the bytes can be rounded up to pages
      within 64 bits or are the mark for no limit. */
  ghost predicate Settable(ms: seq<MemInfo>, kind: int, bytes: nat) {
    && (kind == XPU_MEM_MAIN || kind == XPU_MEM_L3) && FirstOf(ms, kind).Some?
    && (bytes == MEM_UNLIMIT || bytes == 0 || Roundable(FirstOf(ms, kind).value, bytes))
  }

  /** The limit that the bytes stand for: as many pages as hold them, scaled. */
  function LimitFor(ms: seq<MemInfo>, ecc: bool, kind: int, bytes: nat): nat
    requires FirstOf(ms, kind).Some? && bytes < TWO_TO_THE_64
  {
    if bytes == MEM_UNLIMIT then MEM_UNLIMIT else Actual(ecc, kind, BytesToPages(FirstOf(ms, kind).value, bytes))
  }

  /** Together with the limits of the other instances it is within the memory. */
  ghost predicate FitsBeside(ms: seq<MemInfo>, es: seq<Entry>, i: nat, kind: int, limit: nat)
    requires i < |es| && FirstOf(ms, XPU_MEM_MAIN).Some?
  {
    limit == MEM_UNLIMIT || limit + SumLimits(Others(es, i), kind) <= Total(ms, kind)
  }

  /** Setting a limit is refused for the kind or the bytes, or because it does
      not fit beside the others, and then changes nothing; else the instance has
      that limit, all other limits are as they were, and the totals are their sums. */
  ghost predicate SetsLimit(ms: seq<MemInfo>, ecc: bool, b: Books, i: nat, kind: int, bytes: nat, r: Books, err: Errno)
    requires i < |b.entries| && FirstOf(ms, XPU_MEM_MAIN).Some? && bytes < TWO_TO_THE_64
  {
    && (err == EINVAL <==> !Settable(ms, kind, bytes))
    && (err == OK || ((err == EINVAL || err == ENOMEM) && r == b))
    && (Settable(ms, kind, bytes) ==>
          var limit := LimitFor(ms, ecc, kind, bytes);
          && (err == OK <==> FitsBeside(ms, b.entries, i, kind, limit))
          && (err == OK ==>
                && r.entries == b.entries[i := WithLimit(b.entries[i], kind, limit)]
                && r.mainUsed == SumLimits(r.entries, XPU_MEM_MAIN)
                && r.l3Used == SumLimits(r.entries, XPU_MEM_L3)))
  }

  // ----- every call keeps the books -----

  lemma {:induction false} CreateKeeps(ms: seq<MemInfo>, b: Books, id: string, token: nat)
    requires FirstOf(ms, XPU_MEM_MAIN).Some? && BooksOk(ms, b)
    ensures BooksOk(ms, CreateIn(b, id, token).0)
  {
    var e := Entry(Key(id), token, 1, MEM_UNLIMIT, MEM_UNLIMIT);
    SumSplit(b.entries, [e], XPU_MEM_MAIN);
    SumSplit(b.entries, [e], XPU_MEM_L3);
  }

  lemma {:induction false} ReplaceKeeps(ms: seq<MemInfo>, b: Books, i: nat, refs: nat)
    requires FirstOf(ms, XPU_MEM_MAIN).Some? && BooksOk(ms, b) && i < |b.entries| && refs > 0
    ensures BooksOk(ms, b.(entries := b.entries[i := b.entries[i].(refs := refs)]))
  {
    SumReplace(b.entries, i, b.entries[i].(refs := refs), XPU_MEM_MAIN);
    SumReplace(b.entries, i, b.entries[i].(refs := refs), XPU_MEM_L3);
  }

  lemma {:induction false} RemoveKeeps(ms: seq<MemInfo>, b: Books, i: nat)
    requires FirstOf(ms, XPU_MEM_MAIN).Some? && BooksOk(ms, b) && i < |b.entries|
    ensures BooksOk(ms, RemoveIn(b, i))
  {
    SumAround(b.entries, i, XPU_MEM_MAIN);
    SumAround(b.entries, i, XPU_MEM_L3);
  }

  lemma {:induction false} PutKeeps(ms: seq<MemInfo>, b: Books, i: nat)
    requires FirstOf(ms, XPU_MEM_MAIN).Some? && BooksOk(ms, b) && i < |b.entries|
    ensures BooksOk(ms, PutIn(b, i))
  {
    if b.entries[i].refs == 1 { RemoveKeeps(ms, b, i); } else { ReplaceKeeps(ms, b, i, b.entries[i].refs - 1); }
  }

  /** What an instance may use has been counted, so taking it out stays above zero. */
  lemma {:induction false} LimitsWithin(ms: seq<MemInfo>, b: Books, i: nat)
    requires FirstOf(ms, XPU_MEM_MAIN).Some? && BooksOk(ms, b) && i < |b.entries|
    ensures Finite(b.entries[i].main) <= b.mainUsed <= Total(ms, XPU_MEM_MAIN)
    ensures Finite(b.entries[i].l3) <= b.l3Used <= Total(ms, XPU_MEM_L3)
  {
    SumAround(b.entries, i, XPU_MEM_MAIN);
    SumAround(b.entries, i, XPU_MEM_L3);
  }

  /** One limit exchanged for another that fits keeps the books. */
  lemma {:induction false} Relimited(ms: seq<MemInfo>, b: Books, i: nat, kind: int, limit: nat)
    requires FirstOf(ms, XPU_MEM_MAIN).Some? && BooksOk(ms, b) && i < |b.entries|
    requires kind == XPU_MEM_MAIN || kind == XPU_MEM_L3
    requires Used(b, kind) - Finite(Limit(b.entries[i], kind)) + Finite(limit) <= Total(ms, kind)
    ensures var e := WithLimit(b.entries[i], kind, limit);
      BooksOk(ms, WithUsed(b, kind, Used(b, kind) - Finite(Limit(b.entries[i], kind)) + Finite(limit))
                  .(entries := b.entries[i := e]))
  {
    var e := WithLimit(b.entries[i], kind, limit);
    SumAround(b.entries, i, kind);
    SumReplace(b.entries, i, e, XPU_MEM_MAIN);
    SumReplace(b.entries, i, e, XPU_MEM_L3);
  }

  /** Setting a limit keeps the totals right, never lets them pass the memory
      there is, never subtracts below zero, and when refused changes nothing. */
  lemma {:induction false} SetLimitKeeps(ms: seq<MemInfo>, ecc: bool, b: Books, i: nat, kind: int, bytes: nat)
    requires FirstOf(ms, XPU_MEM_MAIN).Some? && BooksOk(ms, b) && i < |b.entries| && bytes < TWO_TO_THE_64
    requires Total(ms, XPU_MEM_MAIN) < MEM_UNLIMIT && Total(ms, XPU_MEM_L3) < MEM_UNLIMIT
    ensures BooksOk(ms, SetLimitIn(ms, ecc, b, i, kind, bytes).0)
    ensures SetLimitIn(ms, ecc, b, i, kind, bytes).1 != OK ==> SetLimitIn(ms, ecc, b, i, kind, bytes).0 == b
    ensures kind == XPU_MEM_MAIN || kind == XPU_MEM_L3 ==>
      Finite(Limit(b.entries[i], kind)) <= Used(b, kind) <= Total(ms, kind)
  {
    LimitsWithin(ms, b, i);
    var (r, err) := SetLimitIn(ms, ecc, b, i, kind, bytes);
    if err == OK { Relimited(ms, b, i, kind, Limit(r.entries[i], kind)); }
  }

  /** Page sizes are machine words. */
  ghost predicate WordSized(ms: seq<MemInfo>) {
    forall i :: 0 <= i < |ms| ==> ms[i].PageSize() < TWO_TO_THE_64
  }

  /** A limit is accepted exactly when it fits beside those of the other
      instances: what the instance itself had is given back first. */
  lemma {:induction false} SetLimitIs(ms: seq<MemInfo>, ecc: bool, b: Books, i: nat, kind: int, bytes: nat)
    requires FirstOf(ms, XPU_MEM_MAIN).Some? && BooksOk(ms, b) && i < |b.entries| && bytes < TWO_TO_THE_64
    requires Total(ms, XPU_MEM_MAIN) < MEM_UNLIMIT && Total(ms, XPU_MEM_L3) < MEM_UNLIMIT && WordSized(ms)
    ensures var (r, err) := SetLimitIn(ms, ecc, b, i, kind, bytes); SetsLimit(ms, ecc, b, i, kind, bytes, r, err)
  {
    SetLimitKeeps(ms, ecc, b, i, kind, bytes);
    SumAround(b.entries, i, kind);
    if FirstOf(ms, kind).Some? { BytesToPagesExact(FirstOf(ms, kind).value, bytes); }
  }

  /** What was accepted is accepted again, and then changes nothing. */
  lemma {:induction false} SetLimitAgain(ms: seq<MemInfo>, ecc: bool, b: Books, i: nat, kind: int, bytes: nat)
    requires FirstOf(ms, XPU_MEM_MAIN).Some? && BooksOk(ms, b) && i < |b.entries| && bytes < TWO_TO_THE_64
    requires Total(ms, XPU_MEM_MAIN) < MEM_UNLIMIT && Total(ms, XPU_MEM_L3) < MEM_UNLIMIT && WordSized(ms)
    requires SetLimitIn(ms, ecc, b, i, kind, bytes).1 == OK
    ensures var r := SetLimitIn(ms, ecc, b, i, kind, bytes).0; SetLimitIn(ms, ecc, r, i, kind, bytes) == (r, OK)
  {
    var r := SetLimitIn(ms, ecc, b, i, kind, bytes).0;
    SetLimitKeeps(ms, ecc, b, i, kind, bytes);
    SetLimitIs(ms, ecc, b, i, kind, bytes);
    SetLimitIs(ms, ecc, r, i, kind, bytes);
    assert Others(r.entries, i) == Others(b.entries, i);
    var (r', err) := SetLimitIn(ms, ecc, r, i, kind, bytes);
    assert r'.entries == r.entries;
  }

  lemma {:induction false} DestroyIs(ms: seq<MemInfo>, b: Books, id: string)
    requires FirstOf(ms, XPU_MEM_MAIN).Some? && BooksOk(ms, b)
    ensures var (r, err) := DestroyIn(b, id); Destroys(b, id, r, err)
  {
    var i := Find(b.entries, id);
    if i < |b.entries| { assert PutIn(b, i) == RemoveIn(b, i) || b.entries[i].refs > 1; }
  }

  /** Destroying what was just created gives the books back as they were. */
  lemma {:induction false} CreateThenDestroy(ms: seq<MemInfo>, b: Books, id: string, token: nat)
    requires FirstOf(ms, XPU_MEM_MAIN).Some? && BooksOk(ms, b) && CreateIn(b, id, token).1 == OK
    ensures DestroyIn(CreateIn(b, id, token).0, id) == (b, OK)
  {
    var r := CreateIn(b, id, token).0;
    var n := |b.entries|;
    CreateKeeps(ms, b, id, token);
    assert r.entries[n].id == Key(id) && Find(r.entries, id) == n;
    assert DestroyIn(r, id).0.entries == Others(r.entries, n) == b.entries;
  }

  /** Whoever takes a reference keeps the instance from being destroyed, and
      giving it back leaves the books as they were. */
  lemma {:induction false} GetGuards(ms: seq<MemInfo>, b: Books, i: nat, id: string)
    requires FirstOf(ms, XPU_MEM_MAIN).Some? && BooksOk(ms, b) && i < |b.entries| && b.entries[i].id == Key(id)
    ensures DestroyIn(GetIn(b, i), id) == (GetIn(b, i), EBUSY)
    ensures PutIn(GetIn(b, i), i) == b
  {
    ReplaceKeeps(ms, b, i, b.entries[i].refs + 1);
    DestroyIs(ms, GetIn(b, i), id);
    assert PutIn(GetIn(b, i), i).entries == b.entries;
  }

  /** Setting a limit between taking and giving back a reference is setting it. */
  lemma {:induction false} SetLimitBetween(ms: seq<MemInfo>, ecc: bool, b: Books, i: nat, kind: int, bytes: nat)
    requires i < |b.entries| && FirstOf(ms, XPU_MEM_MAIN).Some? && bytes < TWO_TO_THE_64 && b.entries[i].refs > 0
    ensures var (r, err) := SetLimitIn(ms, ecc, GetIn(b, i), i, kind, bytes);
      && |r.entries| == |b.entries| && r.entries[i].refs == b.entries[i].refs + 1
      && (PutIn(r, i), err) == SetLimitIn(ms, ecc, b, i, kind, bytes)
  {
    var e := b.entries[i];
    var (r, _) := SetLimitIn(ms, ecc, GetIn(b, i), i, kind, bytes);
    assert PutIn(r, i).entries == SetLimitIn(ms, ecc, b, i, kind, bytes).0.entries;
  }

  // ----- what the instances show -----

  /** kl_cxpu_instance_get_mem_limit */
  function ShownLimit(ecc: bool, e: Entry, kind: int): nat {
    Shown(ecc, kind, Limit(e, kind))
  }

  /** A limit that was accepted reads back as the pages asked for, or one more
      exactly when ECC scaling leaves the remainder 7 by 8. */
  lemma {:induction false} SetThenShow(ms: seq<MemInfo>, ecc: bool, b: Books, i: nat, kind: int, bytes: nat)
    requires FirstOf(ms, XPU_MEM_MAIN).Some? && i < |b.entries| && bytes < MEM_UNLIMIT
    requires SetLimitIn(ms, ecc, b, i, kind, bytes).1 == OK
    requires FirstOf(ms, kind).value.pageBits >= 3
    ensures var pages := BytesToPages(FirstOf(ms, kind).value, bytes);
      ShownLimit(ecc, SetLimitIn(ms, ecc, b, i, kind, bytes).0.entries[i], kind)
      == if ecc && kind == XPU_MEM_MAIN && pages % 8 == 7 then pages + 1 else pages
  {
    var m := FirstOf(ms, kind).value;
    ShlMono(0, 1, m.pageBits);
    ShrEighth((bytes + m.PageSize() - 1) % TWO_TO_THE_64, m.pageBits);
    ShownOfActual(ecc, kind, BytesToPages(m, bytes));
    assert ReadsBack(ecc, kind, BytesToPages(m, bytes));
  }

  /** The finite limits as the instances show them. */
  function SumShown(ecc: bool, es: seq<Entry>, kind: int): nat {
    if |es| == 0 then 0
    else (if Limit(es[0], kind) == MEM_UNLIMIT then 0 else ShownLimit(ecc, es[0], kind)) + SumShown(ecc, es[1..], kind)
  }

  lemma {:induction false} ShownAdds(ecc: bool, kind: int, x: nat, y: nat)
    requires (x + y) * 8 < TWO_TO_THE_64
    ensures Shown(ecc, kind, x) + Shown(ecc, kind, y) <= Shown(ecc, kind, x + y)
  {
    if ecc && kind == XPU_MEM_MAIN {
      var q, r := Split(x, 7);
      var q', r' := Split(y, 7);
      ShownIs(q, r);
      ShownIs(q', r');
      if r + r' < 7 { ShownIs(q + q', r + r'); } else { ShownIs(q + q' + 1, r + r' - 7); }
    }
  }

  lemma {:induction false} SumShownBelow(ecc: bool, es: seq<Entry>, kind: int)
    requires SumLimits(es, kind) * 8 < TWO_TO_THE_64
    ensures SumShown(ecc, es, kind) <= Shown(ecc, kind, SumLimits(es, kind))
  {
    if |es| > 0 {
      SumShownBelow(ecc, es[1..], kind);
      ShownAdds(ecc, kind, Finite(Limit(es[0], kind)), SumLimits(es[1..], kind));
    }
  }

  /** The limits shown never add up to more than the memory shown. */
  lemma {:induction false} ShownWithinTotal(ms: seq<MemInfo>, ecc: bool, b: Books, kind: int)
    requires FirstOf(ms, XPU_MEM_MAIN).Some? && InBalance(ms, b, kind)
    requires Total(ms, kind) * 8 < TWO_TO_THE_64
    ensures SumShown(ecc, b.entries, kind) <= Shown(ecc, kind, Total(ms, kind))
  {
    SumShownBelow(ecc, b.entries, kind);
    ShownAdds(ecc, kind, SumLimits(b.entries, kind), Total(ms, kind) - SumLimits(b.entries, kind));
  }

  // ----- runs -----

  /** The calls on an enabled cxpu; an instance is named by its place in the list. */
  datatype Call =
    | Create(id: string, token: nat)
    | Get(i: nat)
    | Put(i: nat)
    | Destroy(id: string)
    | SetLimit(i: nat, kind: int, bytes: nat)

  function Apply(ms: seq<MemInfo>, ecc: bool, b: Books, c: Call): Books
    requires FirstOf(ms, XPU_MEM_MAIN).Some?
    requires forall i :: 0 <= i < |b.entries| ==> b.entries[i].refs > 0
  {
    match c
    case Create(id, token) => CreateIn(b, id, token).0
    case Get(i) => if i < |b.entries| then GetIn(b, i) else b
    case Put(i) => if i < |b.entries| then PutIn(b, i) else b
    case Destroy(id) => DestroyIn(b, id).0
    case SetLimit(i, kind, bytes) =>
      if i < |b.entries| && bytes < TWO_TO_THE_64 then SetLimitIn(ms, ecc, b, i, kind, bytes).0 else b
  }

  /** What the call may make of the books. */
  ghost predicate CallDoes(ms: seq<MemInfo>, ecc: bool, b: Books, c: Call, r: Books)
    requires FirstOf(ms, XPU_MEM_MAIN).Some?
  {
    match c
    case Create(id, token) => exists err :: Creates(b, id, token, r, err)
    case Destroy(id) => exists err :: Destroys(b, id, r, err)
    case Get(i) =>
      if i < |b.entries| then Becomes(b, i, b.entries[i].(refs := b.entries[i].refs + 1), r) else r == b
    case Put(i) => if i < |b.entries| then Puts(b, i, r) else r == b
    case SetLimit(i, kind, bytes) =>
      if i < |b.entries| && bytes < TWO_TO_THE_64 then exists err :: SetsLimit(ms, ecc, b, i, kind, bytes, r, err)
      else r == b
  }

  lemma {:induction false} CallIs(ms: seq<MemInfo>, ecc: bool, b: Books, c: Call)
    requires FirstOf(ms, XPU_MEM_MAIN).Some? && BooksOk(ms, b)
    requires Total(ms, XPU_MEM_MAIN) < MEM_UNLIMIT && Total(ms, XPU_MEM_L3) < MEM_UNLIMIT && WordSized(ms)
    ensures CallDoes(ms, ecc, b, c, Apply(ms, ecc, b, c))
  {
    match c
    case Create(id, token) => assert Creates(b, id, token, CreateIn(b, id, token).0, CreateIn(b, id, token).1);
    case Destroy(id) => DestroyIs(ms, b, id);
    case Get(i) =>
    case Put(i) =>
    case SetLimit(i, kind, bytes) =>
      if i < |b.entries| && bytes < TWO_TO_THE_64 {
        SetLimitIs(ms, ecc, b, i, kind, bytes);
        var (r, err) := SetLimitIn(ms, ecc, b, i, kind, bytes);
        assert SetsLimit(ms, ecc, b, i, kind, bytes, r, err);
      }
  }

  lemma {:induction false} CallKeeps(ms: seq<MemInfo>, ecc: bool, b: Books, c: Call)
    requires FirstOf(ms, XPU_MEM_MAIN).Some? && BooksOk(ms, b)
    requires Total(ms, XPU_MEM_MAIN) < MEM_UNLIMIT && Total(ms, XPU_MEM_L3) < MEM_UNLIMIT
    ensures BooksOk(ms, Apply(ms, ecc, b, c))
  {
    match c
    case Create(id, token) => CreateKeeps(ms, b, id, token);
    case Get(i) => if i < |b.entries| { ReplaceKeeps(ms, b, i, b.entries[i].refs + 1); }
    case Put(i) => if i < |b.entries| { PutKeeps(ms, b, i); }
    case Destroy(id) => if Find(b.entries, id) < |b.entries| { PutKeeps(ms, b, Find(b.entries, id)); }
    case SetLimit(i, kind, bytes) =>
      if i < |b.entries| && bytes < TWO_TO_THE_64 { SetLimitKeeps(ms, ecc, b, i, kind, bytes); }
  }

  /** The instance a call is about. */
  function NameIn(b: Books, c: Call): Option<string> {
    match c
    case Create(id, _) => Some(Key(id))
    case Destroy(id) => Some(Key(id))
    case Get(i) => if i < |b.entries| then Some(b.entries[i].id) else None
    case Put(i) => if i < |b.entries| then Some(b.entries[i].id) else None
    case SetLimit(i, _, _) => if i < |b.entries| then Some(b.entries[i].id) else None
  }

  /** Dropping or changing entry `i` leaves the other entries listed. */
  lemma {:induction false} OthersStay(es: seq<Entry>, i: nat, f: Entry, e: Entry)
    requires i < |es| && e != es[i] && e != f
    ensures e in Others(es, i) <==> e in es
    ensures e in es[i := f] <==> e in es
  {
    if e in es {
      var j :| 0 <= j < |es| && es[j] == e;
      assert Others(es, i)[if j < i then j else j - 1] == e && es[i := f][j] == e;
    }
  }

  lemma {:induction false} SetLimitIsolates(ms: seq<MemInfo>, ecc: bool, b: Books, i: nat, kind: int, bytes: nat,
                                            e: Entry)
    requires FirstOf(ms, XPU_MEM_MAIN).Some? && i < |b.entries| && bytes < TWO_TO_THE_64 && e.id != b.entries[i].id
    ensures e in SetLimitIn(ms, ecc, b, i, kind, bytes).0.entries <==> e in b.entries
  {
    var (r, err) := SetLimitIn(ms, ecc, b, i, kind, bytes);
    if err == OK { OthersStay(b.entries, i, WithLimit(b.entries[i], kind, Limit(r.entries[i], kind)), e); }
  }

  lemma {:induction false} PutIsolates(b: Books, i: nat, e: Entry)
    requires i < |b.entries| && b.entries[i].refs > 0 && e.id != b.entries[i].id
    ensures e in PutIn(b, i).entries <==> e in b.entries
  {
    OthersStay(b.entries, i, b.entries[i].(refs := b.entries[i].refs - 1), e);
  }

  /** No call touches an instance that it is not about. */
  lemma {:induction false} CallIsolates(ms: seq<MemInfo>, ecc: bool, b: Books, c: Call, e: Entry)
    requires FirstOf(ms, XPU_MEM_MAIN).Some? && BooksOk(ms, b) && NameIn(b, c) != Some(e.id)
    ensures e in Apply(ms, ecc, b, c).entries <==> e in b.entries
  {
    match c
    case Create(_, _) =>
    case Destroy(id) => if Find(b.entries, id) < |b.entries| { PutIsolates(b, Find(b.entries, id), e); }
    case Get(i) => if i < |b.entries| { OthersStay(b.entries, i, b.entries[i].(refs := b.entries[i].refs + 1), e); }
    case Put(i) => if i < |b.entries| { PutIsolates(b, i, e); }
    case SetLimit(i, kind, bytes) =>
      if i < |b.entries| && bytes < TWO_TO_THE_64 { SetLimitIsolates(ms, ecc, b, i, kind, bytes, e); }
  }

  ghost function RunCalls(ms: seq<MemInfo>, ecc: bool, cs: seq<Call>): (b: Books)
    requires FirstOf(ms, XPU_MEM_MAIN).Some?
    requires Total(ms, XPU_MEM_MAIN) < MEM_UNLIMIT && Total(ms, XPU_MEM_L3) < MEM_UNLIMIT
    ensures BooksOk(ms, b)
    decreases |cs|
  {
    if |cs| == 0 then Books([], 0, 0)
    else
      var b0 := RunCalls(ms, ecc, cs[..|cs| - 1]);
      CallKeeps(ms, ecc, b0, cs[|cs| - 1]);
      Apply(ms, ecc, b0, cs[|cs| - 1])
  }
}
