/** The whole state of the memory manager as a value, and what the loops of
    the huge allocation do to it. */
module ManagerState {
  import opened Wrappers
  import opened Bitmaps
  import opened LiveRanges
  import opened Layout
  import opened Memory
  import opened PageTables

  datatype Mm = Mm(blocks: seq<Block>, locks: seq<bool>, shadow: Block)

  ghost predicate Fits(ms: seq<MemInfo>, s: Mm) {
    && AllSized(ms, s.blocks) && |s.locks| == |ms|
    && |s.shadow.bits| == |s.shadow.len| == |s.shadow.own| == MainPages(ms)
  }

  ghost predicate MainLocks(ms: seq<MemInfo>, s: Mm, held: bool)
    requires |s.locks| == |ms|
  {
    forall i :: 0 <= i < |ms| && IsMain(ms, i) ==> s.locks[i] == held
  }

  // ----- lock_and_sync_mem_bitmap -----

  ghost function LockStep(ms: seq<MemInfo>, s: Mm, i: nat): (r: Mm)
    requires Fits(ms, s) && IsMain(ms, i)
    ensures Fits(ms, r)
  {
    MainBeginMono(ms, i, |ms|);
    s.(locks := s.locks[i := true],
       shadow := s.shadow.(bits := Overlay(s.shadow.bits, MainBegin(ms, i), s.blocks[i].bits)))
  }

  ghost function LockUpto(ms: seq<MemInfo>, s: Mm, upto: nat): (r: Mm)
    requires Fits(ms, s) && upto <= |ms|
    ensures Fits(ms, r)
  {
    if upto == 0 then s
    else
      var t := LockUpto(ms, s, upto - 1);
      if IsMain(ms, upto - 1) then LockStep(ms, t, upto - 1) else t
  }

  /** Locking takes exactly the MAIN locks, leaves the tables alone and makes
      the shadow bitmap the concatenation of the block bitmaps. */
  lemma {:induction false} LockUptoSyncs(ms: seq<MemInfo>, s: Mm, upto: nat)
    requires Fits(ms, s) && upto <= |ms|
    ensures var r := LockUpto(ms, s, upto);
      && r.blocks == s.blocks
      && r.shadow == s.shadow.(bits := r.shadow.bits)
      && (forall i :: 0 <= i < |ms| ==> r.locks[i] == ((i < upto && IsMain(ms, i)) || s.locks[i]))
      && SyncedBelow(ms, s.blocks, r.shadow.bits, upto)
  {
    if upto > 0 {
      LockUptoSyncs(ms, s, upto - 1);
      var t := LockUpto(ms, s, upto - 1);
      MainBeginMono(ms, upto - 1, |ms|);
      if IsMain(ms, upto - 1) { OverlaySyncs(ms, s.blocks, t.shadow.bits, upto - 1); }
    }
  }

  // ----- sync_mem_bitmap_and_unlock -----

  /** The part of the shadow bitmap that belongs to a MAIN block. */
  ghost function Region(ms: seq<MemInfo>, shadow: seq<bool>, i: nat): (r: seq<bool>)
    requires |shadow| == MainPages(ms) && IsMain(ms, i)
    ensures |r| == ms[i].PageCount()
  {
    MainBeginMono(ms, i, |ms|);
    shadow[MainBegin(ms, i)..MainBegin(ms, i) + ms[i].PageCount()]
  }

  ghost function UnlockStep(ms: seq<MemInfo>, s: Mm, i: nat): (r: Mm)
    requires Fits(ms, s) && IsMain(ms, i)
    ensures Fits(ms, r)
  {
    s.(blocks := s.blocks[i := s.blocks[i].(bits := Region(ms, s.shadow.bits, i))],
       locks := s.locks[i := false])
  }

  ghost function UnlockUpto(ms: seq<MemInfo>, s: Mm, upto: nat): (r: Mm)
    requires Fits(ms, s) && upto <= |ms|
    ensures Fits(ms, r)
  {
    if upto == 0 then s
    else
      var t := UnlockUpto(ms, s, upto - 1);
      if IsMain(ms, upto - 1) then UnlockStep(ms, t, upto - 1) else t
  }

  /** The blocks below `upto` have been copied back... */
  ghost predicate BlocksCopied(ms: seq<MemInfo>, s: Mm, r: Mm, upto: nat)
    requires Fits(ms, s) && Fits(ms, r)
  {
    forall i :: 0 <= i < |ms| ==>
      r.blocks[i] == (if i < upto && IsMain(ms, i) then s.blocks[i].(bits := Region(ms, s.shadow.bits, i))
                      else s.blocks[i])
  }

  /** ...and given up. */
  ghost predicate LocksGivenUp(ms: seq<MemInfo>, s: Mm, r: Mm, upto: nat)
    requires Fits(ms, s) && Fits(ms, r)
  {
    forall i :: 0 <= i < |ms| ==> r.locks[i] == (s.locks[i] && !(i < upto && IsMain(ms, i)))
  }

  ghost predicate CopiedBelow(ms: seq<MemInfo>, s: Mm, r: Mm, upto: nat)
    requires Fits(ms, s)
  {
    Fits(ms, r) && r.shadow == s.shadow && BlocksCopied(ms, s, r, upto) && LocksGivenUp(ms, s, r, upto)
  }

  lemma {:induction false} BlocksNext(ms: seq<MemInfo>, s: Mm, r: Mm, i: nat, i1: nat)
    requires Fits(ms, s) && Fits(ms, r) && IsMain(ms, i) && i1 == i + 1 && r.shadow == s.shadow
    requires BlocksCopied(ms, s, r, i)
    ensures BlocksCopied(ms, s, UnlockStep(ms, r, i), i1)
  {
  }

  lemma {:induction false} LocksNext(ms: seq<MemInfo>, s: Mm, r: Mm, i: nat, i1: nat)
    requires Fits(ms, s) && Fits(ms, r) && IsMain(ms, i) && i1 == i + 1 && LocksGivenUp(ms, s, r, i)
    ensures LocksGivenUp(ms, s, UnlockStep(ms, r, i), i1)
  {
  }

  /** A block of another kind is passed over. */
  lemma {:induction false} BlocksSkip(ms: seq<MemInfo>, s: Mm, r: Mm, i: nat, i1: nat)
    requires Fits(ms, s) && Fits(ms, r) && i1 == i + 1 && !IsMain(ms, i) && BlocksCopied(ms, s, r, i)
    ensures BlocksCopied(ms, s, r, i1)
  {
    forall j | 0 <= j < |ms|
      ensures r.blocks[j] == (if j < i1 && IsMain(ms, j) then s.blocks[j].(bits := Region(ms, s.shadow.bits, j))
                              else s.blocks[j])
    {
      assert j < i1 && IsMain(ms, j) <==> j < i && IsMain(ms, j);
    }
  }

  lemma {:induction false} LocksSkip(ms: seq<MemInfo>, s: Mm, r: Mm, i: nat, i1: nat)
    requires Fits(ms, s) && Fits(ms, r) && i1 == i + 1 && !IsMain(ms, i) && LocksGivenUp(ms, s, r, i)
    ensures LocksGivenUp(ms, s, r, i1)
  {
  }

  lemma {:induction false} CopiedNext(ms: seq<MemInfo>, s: Mm, r: Mm, r1: Mm, i: nat, i1: nat)
    requires Fits(ms, s) && i < |ms| && i1 == i + 1 && CopiedBelow(ms, s, r, i)
    requires r1 == if IsMain(ms, i) then UnlockStep(ms, r, i) else r
    ensures CopiedBelow(ms, s, r1, i1)
  {
    if IsMain(ms, i) {
      BlocksNext(ms, s, r, i, i1);
      LocksNext(ms, s, r, i, i1);
    } else {
      BlocksSkip(ms, s, r, i, i1);
      LocksSkip(ms, s, r, i, i1);
    }
  }

  /** Unlocking gives up exactly the MAIN locks and every MAIN block gets its
      region of the shadow for a bitmap. */
  lemma {:induction false} UnlockUptoCopies(ms: seq<MemInfo>, s: Mm, upto: nat)
    requires Fits(ms, s) && upto <= |ms|
    ensures CopiedBelow(ms, s, UnlockUpto(ms, s, upto), upto)
  {
    if upto > 0 {
      UnlockUptoCopies(ms, s, upto - 1);
      CopiedNext(ms, s, UnlockUpto(ms, s, upto - 1), UnlockUpto(ms, s, upto), upto - 1, upto);
    }
  }

  // ----- the share loops -----

  /** The state after the table writes for one block. */
  function WithShare(s: Mm, idx: nat, p: nat, len: nat, head: bool, o: Owner, share: int): Mm
    requires idx < |s.blocks| && p < |s.blocks[idx].len| && p < |s.blocks[idx].own|
  {
    var b := s.blocks[idx];
    s.(blocks := s.blocks[idx := Block(b.bits, b.len[p := len], if head then b.own[p := o] else b.own,
                                       b.used + share)])
  }

  /** The variables of the share loops: the next page to place, the pages
      still to place, and whether the first block is still to come. */
  datatype Cursor = Cursor(s: Mm, pageId: nat, left: nat, first: bool)

  /** The share loops do something at block `idx`. */
  predicate InBlock(ms: seq<MemInfo>, idx: nat, pageId: nat, left: nat) {
    IsMain(ms, idx) && MainBegin(ms, idx) <= pageId < MainBegin(ms, idx) + ms[idx].PageCount() && left > 0
  }

  /** One turn of the loop that writes an allocation down, or, with no owner
      given, of the loop that erases one. */
  ghost function ShareTurn(ms: seq<MemInfo>, c: Cursor, idx: nat, o: Owner): (r: Cursor)
    requires idx < |ms| && Fits(ms, c.s)
    ensures Fits(ms, r.s)
  {
    if !InBlock(ms, idx, c.pageId, c.left) then c
    else
      var p := c.pageId - MainBegin(ms, idx);
      var end := MainBegin(ms, idx) + ms[idx].PageCount();
      var share := Min(end - c.pageId, c.left);
      var s := if o == NULL then WithShare(c.s, idx, p, 0, true, NULL, -share)
               else WithShare(c.s, idx, p, if c.first then c.left else share, c.first, o, share);
      Cursor(s, end, c.left - share, false)
  }

  ghost function ShareRun(ms: seq<MemInfo>, c: Cursor, o: Owner, upto: nat): (r: Cursor)
    requires upto <= |ms| && Fits(ms, c.s)
    ensures Fits(ms, r.s)
  {
    if upto == 0 then c else ShareTurn(ms, ShareRun(ms, c, o, upto - 1), upto - 1, o)
  }

  /** The block with the tables of `marked`, its bitmap not copied back yet. */
  function TablesOf(marked: Block, b: Block): Block {
    marked.(bits := b.bits)
  }

  /** Where a share loop stands at block `idx`, from the whole range alone. */
  ghost predicate CursorAt(ms: seq<MemInfo>, idx: nat, g: nat, n: nat, c: Cursor)
    requires idx <= |ms|
  {
    && c.first == (n == 0 || MainBegin(ms, idx) <= g)
    && if n == 0 || MainBegin(ms, idx) <= g then c.pageId == g && c.left == n
       else if MainBegin(ms, idx) < g + n then
         c.pageId == MainBegin(ms, idx) && c.left == g + n - MainBegin(ms, idx)
       else c.left == 0
  }

  /** The running page and count give the same share as the whole range does. */
  lemma {:induction false} CursorShare(ms: seq<MemInfo>, idx: nat, g: nat, n: nat, c: Cursor)
    requires idx < |ms| && CursorAt(ms, idx, g, n, c)
    ensures var sp := SpanOf(ms, idx);
      var l := Loc(0, g);
      if InBlock(ms, idx, c.pageId, c.left) then
        && Touches(sp, l, n) && Lo(sp, l) == c.pageId
        && Share(sp, l, n) == Min(MainBegin(ms, idx) + ms[idx].PageCount() - c.pageId, c.left)
        && c.first == (sp.begin <= g) && (c.first ==> c.left == n)
      else !Touches(sp, l, n)
  {
  }

  lemma {:induction false} CursorNext(ms: seq<MemInfo>, idx: nat, g: nat, n: nat, c: Cursor, o: Owner)
    requires idx < |ms| && Fits(ms, c.s) && CursorAt(ms, idx, g, n, c)
    ensures CursorAt(ms, idx + 1, g, n, ShareTurn(ms, c, idx, o))
  {
  }

  /** What a block's tables are after its turn of a share loop. */
  function Shared(sp: Span, b: Block, g: nat, n: nat, o: Owner): Block
    requires Sized(sp, b)
  {
    TablesOf(if o == NULL then Unmark(sp, b, Loc(0, g), n) else Mark(sp, b, Loc(0, g), n, o), b)
  }

  /** One turn changes block `idx` alone, to what the whole range asks for. */
  lemma {:induction false} ShareTurnExact(ms: seq<MemInfo>, idx: nat, g: nat, n: nat, c: Cursor, o: Owner)
    requires idx < |ms| && Fits(ms, c.s) && CursorAt(ms, idx, g, n, c)
    ensures ShareTurn(ms, c, idx, o).s
      == c.s.(blocks := c.s.blocks[idx := Shared(SpanOf(ms, idx), c.s.blocks[idx], g, n, o)])
  {
    CursorShare(ms, idx, g, n, c);
    assert c.s.blocks[idx := c.s.blocks[idx]] == c.s.blocks;
  }

  lemma {:induction false} ShareRunAt(ms: seq<MemInfo>, s: Mm, g: nat, n: nat, o: Owner, upto: nat)
    requires Fits(ms, s) && upto <= |ms|
    ensures CursorAt(ms, upto, g, n, ShareRun(ms, Cursor(s, g, n, true), o, upto))
  {
    if upto > 0 {
      ShareRunAt(ms, s, g, n, o, upto - 1);
      CursorNext(ms, upto - 1, g, n, ShareRun(ms, Cursor(s, g, n, true), o, upto - 1), o);
    }
  }

  /** In the blocks below `upto`, and there only, the share of the range has
      been written or erased. */
  ghost predicate SharedBelow(ms: seq<MemInfo>, s: Mm, r: Mm, g: nat, n: nat, o: Owner, upto: nat)
    requires Fits(ms, s)
  {
    && Fits(ms, r) && r.shadow == s.shadow && r.locks == s.locks
    && forall i :: 0 <= i < |ms| ==>
         r.blocks[i] == if i < upto then Shared(SpanOf(ms, i), s.blocks[i], g, n, o) else s.blocks[i]
  }

  lemma {:induction false} SharedNext(ms: seq<MemInfo>, s: Mm, c: Cursor, g: nat, n: nat, o: Owner, idx: nat)
    requires Fits(ms, s) && idx < |ms|
    requires SharedBelow(ms, s, c.s, g, n, o, idx) && CursorAt(ms, idx, g, n, c)
    ensures SharedBelow(ms, s, ShareTurn(ms, c, idx, o).s, g, n, o, idx + 1)
  {
    ShareTurnExact(ms, idx, g, n, c, o);
  }

  /** At the end of the share loops nothing is left to place. */
  lemma {:induction false} ShareRunPlacesAll(ms: seq<MemInfo>, s: Mm, g: nat, n: nat, o: Owner)
    requires Fits(ms, s) && g + n <= MainPages(ms)
    ensures ShareRun(ms, Cursor(s, g, n, true), o, |ms|).left == 0
  {
    ShareRunAt(ms, s, g, n, o, |ms|);
  }

  lemma {:induction false} NothingShared(ms: seq<MemInfo>, s: Mm, g: nat, n: nat, o: Owner)
    requires Fits(ms, s)
    ensures SharedBelow(ms, s, s, g, n, o, 0)
  {
  }

  /** The share loops write in every block exactly what marking or unmarking
      the whole range there asks for. */
  lemma {:induction false} ShareRunExact(ms: seq<MemInfo>, s: Mm, g: nat, n: nat, o: Owner, upto: nat)
    requires Fits(ms, s) && upto <= |ms|
    ensures SharedBelow(ms, s, ShareRun(ms, Cursor(s, g, n, true), o, upto).s, g, n, o, upto)
  {
    if upto == 0 {
      NothingShared(ms, s, g, n, o);
    } else {
      ShareRunExact(ms, s, g, n, o, upto - 1);
      ShareRunAt(ms, s, g, n, o, upto - 1);
      SharedNext(ms, s, ShareRun(ms, Cursor(s, g, n, true), o, upto - 1), g, n, o, upto - 1);
    }
  }

  // ----- the two huge operations as a whole -----

  /** A stretch of the shadow filled, seen from a region: the overlap is filled. */
  lemma {:induction false} FilledRegion(shadow: seq<bool>, begin: nat, bits: seq<bool>, g: nat, n: nat, v: bool)
    requires RegionIs(shadow, begin, bits) && g + n <= |shadow|
    ensures var sp := Span(0, begin, |bits|);
      var l := Loc(0, g);
      Fill(shadow, g, n, v)[begin..begin + |bits|]
      == if Touches(sp, l, n) then Fill(bits, Lo(sp, l) - begin, Share(sp, l, n), v) else bits
  {
  }

  lemma {:induction false} CopiedBackBits(ms: seq<MemInfo>, i: nat, b: Block, shadow: seq<bool>, g: nat,
                                          n: nat, v: bool)
    requires i < |ms| && IsMain(ms, i) && Sized(SpanOf(ms, i), b)
    requires RegionIs(shadow, MainBegin(ms, i), b.bits) && |shadow| == MainPages(ms)
    requires g + n <= |shadow|
    ensures Region(ms, Fill(shadow, g, n, v), i)
      == if v then Mark(SpanOf(ms, i), b, Loc(0, g), n, NULL).bits
         else Unmark(SpanOf(ms, i), b, Loc(0, g), n).bits
  {
    MainBeginMono(ms, i, |ms|);
    assert SpanOf(ms, i) == Span(0, MainBegin(ms, i), |b.bits|);
    FilledRegion(shadow, MainBegin(ms, i), b.bits, g, n, v);
  }

  /** Locking and unlocking again without a change in between changes no table. */
  lemma {:induction false} LockUnlock(ms: seq<MemInfo>, s: Mm)
    requires Fits(ms, s) && MainLocks(ms, s, false)
    ensures var r := UnlockUpto(ms, LockUpto(ms, s, |ms|), |ms|);
      r.blocks == s.blocks && r.locks == s.locks && r.shadow == s.shadow.(bits := r.shadow.bits)
  {
    LockUptoSyncs(ms, s, |ms|);
    var t := LockUpto(ms, s, |ms|);
    var r := UnlockUpto(ms, t, |ms|);
    UnlockUptoCopies(ms, t, |ms|);
    forall i | 0 <= i < |ms| ensures r.blocks[i] == s.blocks[i] && r.locks[i] == s.locks[i] {
      if IsMain(ms, i) {
        assert RegionIs(t.shadow.bits, MainBegin(ms, i), s.blocks[i].bits);
        assert Region(ms, t.shadow.bits, i) == s.blocks[i].bits;
      }
    }
  }

  /** Shares written, bitmap copied back: the block is as marking or unmarking
      the whole range in it leaves it. */
  lemma {:induction false} BlockComesBack(ms: seq<MemInfo>, u: Mm, v: Mm, r: Mm, flat: seq<bool>, g: nat, n: nat,
                                          o: Owner, i: nat)
    requires Fits(ms, u) && g + n <= MainPages(ms) && i < |ms| && |flat| == MainPages(ms)
    requires u.shadow.bits == Fill(flat, g, n, o != NULL)
    requires SharedBelow(ms, u, v, g, n, o, |ms|) && CopiedBelow(ms, v, r, |ms|)
    requires IsMain(ms, i) ==> RegionIs(flat, MainBegin(ms, i), u.blocks[i].bits)
    ensures r.blocks[i] == if o == NULL then Unmark(SpanOf(ms, i), u.blocks[i], Loc(0, g), n)
                           else Mark(SpanOf(ms, i), u.blocks[i], Loc(0, g), n, o)
  {
    assert v.blocks[i] == Shared(SpanOf(ms, i), u.blocks[i], g, n, o);
    if IsMain(ms, i) { CopiedBackBits(ms, i, u.blocks[i], flat, g, n, o != NULL); }
  }

  /** The huge allocation, loop by loop, writes the range down in every block
      it meets and nowhere else. */
  lemma {:induction false} HugeMallocMarks(ms: seq<MemInfo>, s: Mm, g: nat, n: nat, o: Owner)
    requires Fits(ms, s) && MainLocks(ms, s, false)
    requires g + n <= MainPages(ms) && g < MainPages(ms) && o != NULL
    ensures var t := LockUpto(ms, s, |ms|);
      var u := t.(shadow := Taken(t.shadow, g, n, o));
      var r := UnlockUpto(ms, ShareRun(ms, Cursor(u, g, n, true), o, |ms|).s, |ms|);
      && r.blocks == MarkAll(ms, s.blocks, Loc(0, g), n, o)
      && r.locks == s.locks && r.shadow.len == s.shadow.len[g := n]
  {
    LockUptoSyncs(ms, s, |ms|);
    var t := LockUpto(ms, s, |ms|);
    var u := t.(shadow := Taken(t.shadow, g, n, o));
    var v := ShareRun(ms, Cursor(u, g, n, true), o, |ms|).s;
    var r := UnlockUpto(ms, v, |ms|);
    ShareRunExact(ms, u, g, n, o, |ms|);
    UnlockUptoCopies(ms, v, |ms|);
    forall i | 0 <= i < |ms| ensures r.blocks[i] == Mark(SpanOf(ms, i), s.blocks[i], Loc(0, g), n, o) {
      BlockComesBack(ms, u, v, r, t.shadow.bits, g, n, o, i);
    }
    assert r.locks == s.locks;
  }

  /** The huge free, loop by loop, erases the range from every block it meets. */
  lemma {:induction false} HugeFreeUnmarks(ms: seq<MemInfo>, s: Mm, g: nat, n: nat)
    requires Fits(ms, s) && MainLocks(ms, s, false)
    requires n > 0 && g + n <= MainPages(ms)
    ensures var t := LockUpto(ms, s, |ms|);
      var u := t.(shadow := Released(t.shadow, g, n));
      var r := UnlockUpto(ms, ShareRun(ms, Cursor(u, g, n, true), NULL, |ms|).s, |ms|);
      && r.blocks == UnmarkAll(ms, s.blocks, Loc(0, g), n)
      && r.locks == s.locks && r.shadow.len == s.shadow.len[g := 0]
  {
    LockUptoSyncs(ms, s, |ms|);
    var t := LockUpto(ms, s, |ms|);
    var u := t.(shadow := Released(t.shadow, g, n));
    var v := ShareRun(ms, Cursor(u, g, n, true), NULL, |ms|).s;
    var r := UnlockUpto(ms, v, |ms|);
    ShareRunExact(ms, u, g, n, NULL, |ms|);
    UnlockUptoCopies(ms, v, |ms|);
    forall i | 0 <= i < |ms| ensures r.blocks[i] == Unmark(SpanOf(ms, i), s.blocks[i], Loc(0, g), n) {
      BlockComesBack(ms, u, v, r, t.shadow.bits, g, n, NULL, i);
    }
    assert r.locks == s.locks;
  }

  // ----- what the shadow remembers -----

  /** The shadow's length table at page `g`. */
  function ShadowLength(s: Mm, g: nat): nat {
    if g < |s.shadow.len| then s.shadow.len[g] else 0
  }

  /** The range at `k` starts in MAIN block `i` and goes on past its end. */
  ghost predicate StraddlesFrom(ms: seq<MemInfo>, k: Loc, n: nat, i: nat) {
    IsMain(ms, i) && k.lane == 0
    && MainBegin(ms, i) <= k.pos < MainBegin(ms, i) + ms[i].PageCount() < k.pos + n
  }

  /** The shadow has the length of every straddling range. */
  ghost predicate ShadowKnows(ms: seq<MemInfo>, h: Heap, table: seq<nat>) {
    forall k, i :: k in h && 0 <= i < |ms| && StraddlesFrom(ms, k, h[k].len, i) ==>
      k.pos < |table| && table[k.pos] == h[k].len
  }

  /** A range inside one block straddles none, so the shadow need not know it. */
  lemma {:induction false} ShadowKnowsInside(ms: seq<MemInfo>, h: Heap, table: seq<nat>, i: nat, p: nat, r: Range)
    requires ShadowKnows(ms, h, table) && i < |ms| && p + r.len <= ms[i].PageCount()
    ensures ShadowKnows(ms, h[LocOf(ms, i, p) := r], table)
  {
    forall j | 0 <= j < |ms| ensures !StraddlesFrom(ms, LocOf(ms, i, p), r.len, j) {
      if j < i { MainBeginMono(ms, j, i); }
      if i < j { MainBeginMono(ms, i, j); }
    }
  }

  lemma {:induction false} ShadowKnowsAdd(ms: seq<MemInfo>, h: Heap, table: seq<nat>, g: nat, r: Range)
    requires ShadowKnows(ms, h, table) && g < |table| && Loc(0, g) !in h
    ensures ShadowKnows(ms, h[Loc(0, g) := r], table[g := r.len])
  {
    var h' := h[Loc(0, g) := r];
    var table' := table[g := r.len];
    forall k, i | k in h' && 0 <= i < |ms| && StraddlesFrom(ms, k, h'[k].len, i)
      ensures k.pos < |table'| && table'[k.pos] == h'[k].len
    {
      if k != Loc(0, g) {
        assert k in h && StraddlesFrom(ms, k, h[k].len, i);
        assert k.pos != g;
      }
    }
  }

  lemma {:induction false} ShadowKnowsFree(ms: seq<MemInfo>, h: Heap, table: seq<nat>, g: nat)
    requires ShadowKnows(ms, h, table) && g < |table| && Loc(0, g) !in h
    ensures ShadowKnows(ms, h, table[g := 0])
  {
    forall k, i | k in h && 0 <= i < |ms| && StraddlesFrom(ms, k, h[k].len, i)
      ensures k.pos < |table| && table[g := 0][k.pos] == h[k].len
    {
      assert k.pos != g;
    }
  }

  lemma {:induction false} ShadowKnowsRemove(ms: seq<MemInfo>, h: Heap, table: seq<nat>, k: Loc)
    requires ShadowKnows(ms, h, table)
    ensures ShadowKnows(ms, h - {k}, table)
    ensures k.lane == 0 && k.pos < |table| ==> ShadowKnows(ms, h - {k}, table[k.pos := 0])
  {
    var h' := h - {k};
    forall k', i | k' in h' && 0 <= i < |ms| && StraddlesFrom(ms, k', h'[k'].len, i)
      ensures k'.pos < |table| && table[k'.pos] == h'[k'].len
      ensures k'.lane == 0 && k' != k
    {
      assert k' in h && StraddlesFrom(ms, k', h[k'].len, i);
    }
  }

  /** The lowest page of the MAIN lane where `n` pages are vacant. */
  ghost predicate LowestVacant(ms: seq<MemInfo>, h: Heap, n: nat, g: nat) {
    && g + n <= MainPages(ms) && Vacant(h, Loc(0, g), n)
    && forall q: nat :: q < g ==> !Vacant(h, Loc(0, q), n)
  }

  ghost predicate NoneVacant(ms: seq<MemInfo>, h: Heap, n: nat) {
    forall q: nat :: q + n <= MainPages(ms) ==> !Vacant(h, Loc(0, q), n)
  }

  /** Where __malloc_huge_mem finds room: first fit in the shadow it has just synced. */
  ghost function HugeFit(ms: seq<MemInfo>, s: Mm, n: nat): Option<nat>
    requires Fits(ms, s)
  {
    FirstFit(LockUpto(ms, s, |ms|).shadow.bits, 0, Wanted(n))
  }

  /** First fit in the synced shadow finds the lowest vacant range there is. */
  lemma {:induction false} HugeChoice(ms: seq<MemInfo>, s: Mm, h: Heap, n: nat)
    requires Fits(ms, s) && Refines(ms, s.blocks, h)
    ensures var r := HugeFit(ms, s, n);
      if r.Some? then LowestVacant(ms, h, Wanted(n), r.value) else NoneVacant(ms, h, Wanted(n))
  {
    LockUptoSyncs(ms, s, |ms|);
    var shadow := LockUpto(ms, s, |ms|).shadow.bits;
    var w := Wanted(n);
    forall q: nat | q + w <= MainPages(ms) ensures FreeRun(shadow, q, w) <==> Vacant(h, Loc(0, q), w) {
      ShadowClearIffVacant(ms, s.blocks, h, shadow, q, w);
    }
  }

  // ----- the two huge operations -----

  ghost predicate Lockable(ms: seq<MemInfo>, s: Mm) {
    Fits(ms, s) && MainLocks(ms, s, false)
  }

  /** Huge allocation dominates ordinary MAIN allocation: on the same state it
      succeeds whenever the ordinary one would, its address is never higher, and
      the two are the same unless the huge range crosses the end of a block. */
  lemma {:induction false} HugeDominates(ms: seq<MemInfo>, hm: MemInfo, s: Mm, sz: nat)
    requires LayoutOk(ms) && IsShadow(ms, |ms|, hm) && Fits(ms, s)
    requires sz > 0 && RoundableFor(ms, XPU_MEM_MAIN, sz)
    requires OrdinaryFit(ms, s.blocks, XPU_MEM_MAIN, sz, 0).Some?
    ensures var at := OrdinaryFit(ms, s.blocks, XPU_MEM_MAIN, sz, 0).value;
      var n := PagesNeeded(hm, sz);
      var g := HugeFit(ms, s, n);
      && g.Some?
      && PageIdToAddr(hm, g.value) <= PageIdToAddr(ms[at.block], at.page)
      && ((exists i :: 0 <= i < |ms| && InsideBlock(ms, i, g.value, n)) ==>
            PageIdToAddr(hm, g.value) == PageIdToAddr(ms[at.block], at.page))
  {
    LockUptoSyncs(ms, s, |ms|);
    ShadowDominates(ms, hm, s.blocks, LockUpto(ms, s, |ms|).shadow.bits, sz);
  }

  /** The state with all MAIN locks held and the allocation written down. */
  ghost function HugeTaken(ms: seq<MemInfo>, s: Mm, g: nat, n: nat, o: Owner): (r: Mm)
    requires Fits(ms, s) && g + n <= MainPages(ms) && g < MainPages(ms)
    ensures Fits(ms, r)
  {
    var t := LockUpto(ms, s, |ms|);
    ShareRun(ms, Cursor(t.(shadow := Taken(t.shadow, g, n, o)), g, n, true), o, |ms|).s
  }

  /** The state with all MAIN locks held and the allocation erased. */
  ghost function HugeReleased(ms: seq<MemInfo>, s: Mm, g: nat, n: nat): (r: Mm)
    requires Fits(ms, s) && n > 0 && g + n <= MainPages(ms)
    ensures Fits(ms, r)
  {
    var t := LockUpto(ms, s, |ms|);
    ShareRun(ms, Cursor(t.(shadow := Released(t.shadow, g, n)), g, n, true), NULL, |ms|).s
  }

  /** Every MAIN lock is still held when the copy-back starts. */
  lemma {:induction false} HugeHoldsLocks(ms: seq<MemInfo>, s: Mm, g: nat, n: nat, o: Owner)
    requires Fits(ms, s) && g + n <= MainPages(ms) && g < MainPages(ms)
    ensures MainLocks(ms, LockUpto(ms, s, |ms|), true)
    ensures MainLocks(ms, HugeTaken(ms, s, g, n, o), true)
    ensures n > 0 ==> MainLocks(ms, HugeReleased(ms, s, g, n), true)
  {
    LockUptoSyncs(ms, s, |ms|);
    var t := LockUpto(ms, s, |ms|);
    ShareRunExact(ms, t.(shadow := Taken(t.shadow, g, n, o)), g, n, o, |ms|);
    if n > 0 { ShareRunExact(ms, t.(shadow := Released(t.shadow, g, n)), g, n, NULL, |ms|); }
  }

  /** A successful huge allocation refines adding its range to the map; one of
      no pages adds nothing. */
  lemma {:induction false} HugeMallocRefines(ms: seq<MemInfo>, s: Mm, h: Heap, g: nat, n: nat, o: Owner)
    requires Lockable(ms, s) && o != NULL
    requires Refines(ms, s.blocks, h) && ShadowKnows(ms, h, s.shadow.len)
    requires g + Wanted(n) <= MainPages(ms) && Vacant(h, Loc(0, g), Wanted(n))
    ensures var r := UnlockUpto(ms, HugeTaken(ms, s, g, n, o), |ms|);
      && Loc(0, g) !in h
      && Refines(ms, r.blocks, Added(h, Loc(0, g), Range(n, o)))
      && ShadowKnows(ms, Added(h, Loc(0, g), Range(n, o)), r.shadow.len)
      && r.locks == s.locks
  {
    HugeMallocMarks(ms, s, g, n, o);
    VacantNotLive(h, Loc(0, g), Wanted(n));
    if n == 0 {
      assert MarkAll(ms, s.blocks, Loc(0, g), 0, o) == s.blocks;
      ShadowKnowsFree(ms, h, s.shadow.len, g);
    } else {
      MarkAllRefines(ms, s.blocks, h, Loc(0, g), n, o);
      ShadowKnowsAdd(ms, h, s.shadow.len, g, Range(n, o));
    }
  }

  /** The huge free of a live MAIN range refines removing it from the map. */
  lemma {:induction false} HugeFreeRefines(ms: seq<MemInfo>, s: Mm, h: Heap, g: nat)
    requires Lockable(ms, s) && Loc(0, g) in h
    requires Refines(ms, s.blocks, h) && ShadowKnows(ms, h, s.shadow.len)
    ensures var n := h[Loc(0, g)].len;
      n > 0 && g + n <= MainPages(ms)
      && var r := UnlockUpto(ms, HugeReleased(ms, s, g, n), |ms|);
         && Refines(ms, r.blocks, h - {Loc(0, g)})
         && ShadowKnows(ms, h - {Loc(0, g)}, r.shadow.len)
         && r.locks == s.locks
  {
    HugeFreeUnmarks(ms, s, g, h[Loc(0, g)].len);
    UnmarkAllRefines(ms, s.blocks, h, Loc(0, g));
    ShadowKnowsRemove(ms, h, s.shadow.len, Loc(0, g));
  }

  // ----- the ordinary operations -----

  ghost predicate Unlocked(ms: seq<MemInfo>, s: Mm) {
    Fits(ms, s) && forall i :: 0 <= i < |ms| ==> !s.locks[i]
  }

  ghost predicate OnlyLock(ms: seq<MemInfo>, s: Mm, idx: nat) {
    Fits(ms, s) && forall i :: 0 <= i < |ms| ==> s.locks[i] == (i == idx)
  }

  ghost function MallocedIn(s: Mm, i: nat, p: nat, n: nat, o: Owner): Mm
    requires i < |s.blocks|
    requires |s.blocks[i].bits| == |s.blocks[i].len| == |s.blocks[i].own| >= p + n
    requires p < |s.blocks[i].bits|
  {
    s.(blocks := s.blocks[i := Taken(s.blocks[i], p, n, o)])
  }

  ghost function FreedIn(s: Mm, i: nat, p: nat, n: nat): Mm
    requires i < |s.blocks| && n > 0
    requires |s.blocks[i].bits| == |s.blocks[i].len| == |s.blocks[i].own| >= p + n
  {
    s.(blocks := s.blocks[i := Released(s.blocks[i], p, n)])
  }

  /** Taking a free run of one block refines adding its range to the map. */
  lemma {:induction false} OrdinaryMallocRefines(ms: seq<MemInfo>, s: Mm, h: Heap, i: nat, p: nat, n: nat, o: Owner)
    requires Fits(ms, s) && i < |ms| && n > 0 && o != NULL
    requires Refines(ms, s.blocks, h) && ShadowKnows(ms, h, s.shadow.len)
    requires FreeRun(s.blocks[i].bits, p, n)
    ensures LocOf(ms, i, p) !in h
    ensures Refines(ms, MallocedIn(s, i, p, n, o).blocks, h[LocOf(ms, i, p) := Range(n, o)])
    ensures ShadowKnows(ms, h[LocOf(ms, i, p) := Range(n, o)], s.shadow.len)
  {
    ClearIffVacant(SpanOf(ms, i), s.blocks[i], h, p, n);
    BlockInLane(ms, i, p, n);
    TakenIsMark(ms, s.blocks, i, p, n, o);
    MarkAllRefines(ms, s.blocks, h, LocOf(ms, i, p), n, o);
    ShadowKnowsInside(ms, h, s.shadow.len, i, p, Range(n, o));
  }

  /** An owner written on a page that no range covers fits no map. */
  lemma {:induction false} NoPagesBreak(ms: seq<MemInfo>, s: Mm, i: nat, p: nat, o: Owner)
    requires Fits(ms, s) && i < |ms| && o != NULL && FreeRun(s.blocks[i].bits, p, 1)
    ensures forall h' :: !Refines(ms, MallocedIn(s, i, p, 0, o).blocks, h')
  {
    var bs := MallocedIn(s, i, p, 0, o).blocks;
    forall h' ensures !Refines(ms, bs, h') {
      if Refines(ms, bs, h') { OwnedIsSet(SpanOf(ms, i), bs[i], h', p); }
    }
  }

  /** So the tables after an ordinary allocation stand for some map exactly when
      its size could be rounded up to pages of the block it got. */
  lemma {:induction false} OrdinaryStandsIff(ms: seq<MemInfo>, s: Mm, h: Heap, kind: int, sz: nat, o: Owner, at: Place)
    requires Fits(ms, s) && Refines(ms, s.blocks, h) && ShadowKnows(ms, h, s.shadow.len) && o != NULL
    requires 0 < sz < TWO_TO_THE_64 && OrdinaryFit(ms, s.blocks, kind, sz, 0) == Some(at)
    requires ms[at.block].PageSize() <= TWO_TO_THE_64
    ensures var n := PagesNeeded(ms[at.block], sz);
      && FreeRun(s.blocks[at.block].bits, at.page, Wanted(n))
      && ((exists h' :: Refines(ms, MallocedIn(s, at.block, at.page, n, o).blocks, h'))
          <==> Roundable(ms[at.block], sz))
  {
    var n := PagesNeeded(ms[at.block], sz);
    PagesNeededExact(ms[at.block], sz);
    if n == 0 {
      NoPagesBreak(ms, s, at.block, at.page, o);
    } else {
      OrdinaryMallocRefines(ms, s, h, at.block, at.page, n, o);
    }
  }

  /** That happens on the tables kl_mm_init leaves, for the largest size. */
  lemma {:induction false} WrapHappens(ms: seq<MemInfo>, s: Mm, kind: int, i: nat, o: Owner)
    requires Unlocked(ms, s) && forall j :: 0 <= j < |ms| ==> s.blocks[j] == EmptyBlock(ms[j].PageCount())
    requires i < |ms| && ms[i].kind == kind && ms[i].PageCount() > 0 && 1 < ms[i].PageSize() <= TWO_TO_THE_64
    requires (forall j :: 0 <= j < i ==> ms[j].kind != kind) && o != NULL
    ensures var sz := TWO_TO_THE_64 - 1;
      && OrdinaryFit(ms, s.blocks, kind, sz, 0) == Some(Place(i, 0)) && PagesNeeded(ms[i], sz) == 0
      && forall h' :: !Refines(ms, MallocedIn(s, i, 0, 0, o).blocks, h')
  {
    PagesNeededExact(ms[i], TWO_TO_THE_64 - 1);
    assert FreeRun(s.blocks[i].bits, 0, 1);
    OrdinaryFitComplete(ms, s.blocks, kind, TWO_TO_THE_64 - 1);
    assert HasRoom(ms[i], s.blocks[i], kind, TWO_TO_THE_64 - 1, 0);
    NoPagesBreak(ms, s, i, 0, o);
  }

  lemma {:induction false} UsedIsCount(ms: seq<MemInfo>, s: Mm, h: Heap)
    requires Fits(ms, s) && Refines(ms, s.blocks, h)
    ensures forall i :: 0 <= i < |ms| ==> s.blocks[i].used == Count(s.blocks[i].bits)
  {
    forall i | 0 <= i < |ms| ensures s.blocks[i].used == Count(s.blocks[i].bits) {
      assert Represents(SpanOf(ms, i), s.blocks[i], h);
    }
  }

  /** Releasing a live range inside one block refines removing it. */
  lemma {:induction false} OrdinaryFreeRefines(ms: seq<MemInfo>, s: Mm, h: Heap, i: nat, p: nat)
    requires Fits(ms, s) && i < |ms| && p < ms[i].PageCount() && LocOf(ms, i, p) in h
    requires Refines(ms, s.blocks, h) && ShadowKnows(ms, h, s.shadow.len)
    requires p + h[LocOf(ms, i, p)].len <= ms[i].PageCount()
    ensures h[LocOf(ms, i, p)].len > 0
    ensures Refines(ms, FreedIn(s, i, p, h[LocOf(ms, i, p)].len).blocks, h - {LocOf(ms, i, p)})
    ensures ShadowKnows(ms, h - {LocOf(ms, i, p)}, s.shadow.len)
  {
    var l := LocOf(ms, i, p);
    ReleasedIsUnmark(ms, s.blocks, i, p, h[l].len);
    UnmarkAllRefines(ms, s.blocks, h, l);
    ShadowKnowsRemove(ms, h, s.shadow.len, l);
  }

  /** Without an owner to compare with, the two tests pass exactly on the first
      page of a block that a range from an earlier block runs into. */
  lemma {:induction false} NullEntry(ms: seq<MemInfo>, s: Mm, h: Heap, i: nat, p: nat)
    requires Fits(ms, s) && Refines(ms, s.blocks, h)
    requires i < |ms| && p < ms[i].PageCount()
    ensures var b := s.blocks[i];
      (b.len[p] != 0 && b.own[p] == NULL) <==> (p == 0 && Continued(SpanOf(ms, i), h))
  {
    ShareEntry(SpanOf(ms, i), s.blocks[i], h, p);
  }

  /** What the two tests of __free_locked establish about a page: they both pass
      exactly when it is the first page of a live range of that owner. A caller
      that names none must stay clear of the case above. */
  lemma {:induction false} HeadEntry(ms: seq<MemInfo>, s: Mm, h: Heap, i: nat, p: nat, o: Owner)
    requires Fits(ms, s) && Refines(ms, s.blocks, h)
    requires i < |ms| && p < ms[i].PageCount() && (o != NULL || !(p == 0 && Continued(SpanOf(ms, i), h)))
    ensures var b := s.blocks[i];
      var l := LocOf(ms, i, p);
      && ((b.len[p] != 0 && o == b.own[p]) <==> (l in h && h[l].owner == o))
      && (l in h ==> b.len[p] == h[l].len)
  {
    EntryOf(SpanOf(ms, i), s.blocks[i], h, p, o);
  }

  /** A live range that runs past the end of its block is on the MAIN lane,
      and the shadow has its length: the early returns of __free_huge_mem,
      which would leave every MAIN lock held, are never taken. */
  lemma {:induction false} HandedToHuge(ms: seq<MemInfo>, s: Mm, h: Heap, i: nat, p: nat)
    requires Fits(ms, s) && Refines(ms, s.blocks, h) && ShadowKnows(ms, h, s.shadow.len)
    requires i < |ms| && p < ms[i].PageCount() && LocOf(ms, i, p) in h
    requires p + h[LocOf(ms, i, p)].len > ms[i].PageCount()
    ensures IsMain(ms, i) && LocOf(ms, i, p) == Loc(0, MainBegin(ms, i) + p)
    ensures MainBegin(ms, i) + p < MainPages(ms)
    ensures s.shadow.len[MainBegin(ms, i) + p] == s.blocks[i].len[p] == h[LocOf(ms, i, p)].len
    ensures s.blocks[i].own[p] == h[LocOf(ms, i, p)].owner
  {
    var l := LocOf(ms, i, p);
    assert l.pos + h[l].len <= LaneSize(ms, l.lane);
    assert PageOk(SpanOf(ms, i), s.blocks[i], h, p);
    if IsMain(ms, i) { assert StraddlesFrom(ms, l, h[l].len, i); }
  }

  // ----- what a free does to the tables, whoever calls it -----

  /** The two tests of __free_locked pass. */
  predicate TestsPass(s: Mm, i: nat, p: nat, o: Owner)
    requires i < |s.blocks| && p < |s.blocks[i].len| && p < |s.blocks[i].own|
  {
    s.blocks[i].len[p] != 0 && s.blocks[i].own[p] == o
  }

  /** kl_mm_free on page `p` of block `i`: refused, handed to the huge path,
      which takes the length from the shadow, or released in the block. */
  ghost function FreeOutcome(ms: seq<MemInfo>, s: Mm, i: nat, p: nat, o: Owner): (r: Mm)
    requires Fits(ms, s) && i < |ms| && p < ms[i].PageCount()
  {
    var n := s.blocks[i].len[p];
    if !TestsPass(s, i, p, o) then s
    else if p + n <= ms[i].PageCount() then FreedIn(s, i, p, n)
    else
      var g := MainBegin(ms, i) + p;
      // elsewhere than on a MAIN block no range is longer than the rest of its block
      if !IsMain(ms, i) || g + ShadowLength(s, g) > MainPages(ms) then s
      // the early return, with every MAIN lock held
      else if ShadowLength(s, g) == 0 then LockUpto(ms, s, |ms|)
      else UnlockUpto(ms, HugeReleased(ms, s, g, ShadowLength(s, g)), |ms|)
  }

  /** Freeing leaves the tables in step with the map `h` and the locks as they were. */
  ghost predicate HugeFreed(ms: seq<MemInfo>, s: Mm, g: nat, n: nat, h: Heap)
    requires Fits(ms, s) && 0 < n && g + n <= MainPages(ms)
  {
    var r := UnlockUpto(ms, HugeReleased(ms, s, g, n), |ms|);
    Refines(ms, r.blocks, h) && ShadowKnows(ms, h, r.shadow.len) && r.locks == s.locks
  }

  /** All __free_huge_mem needs for the first page of a straddling range. */
  lemma {:induction false} HugeFreeSound(ms: seq<MemInfo>, hm: MemInfo, s: Mm, h: Heap, i: nat, addr: nat,
                                         p: nat, r: Range)
    requires LayoutOk(ms) && IsShadow(ms, |ms|, hm)
    requires Lockable(ms, s) && Refines(ms, s.blocks, h) && ShadowKnows(ms, h, s.shadow.len)
    requires i < |ms| && WholePages(ms[i]) && ms[i].base <= addr < ms[i].Limit() && p == AddrToPageId(ms[i], addr)
    requires LocOf(ms, i, p) in h && h[LocOf(ms, i, p)] == r && p + r.len > ms[i].PageCount()
    ensures p < ms[i].PageCount() && s.blocks[i].own[p] == r.owner
    ensures hm.base <= addr && hm.pageBits == ms[i].pageBits && ms[i].kind == XPU_MEM_MAIN
    ensures var g := AddrToPageId(hm, addr);
      && g < MainPages(ms) && r.len == s.shadow.len[g] && 0 < r.len <= MainPages(ms) - g
      && HugeFreed(ms, s, g, r.len, h - {LocOf(ms, i, p)})
  {
    AddrInPage(ms[i], addr);
    HandedToHuge(ms, s, h, i, p);
    SameShadowPage(ms, hm, i, addr);
    ShadowAddress(ms, hm, i, p);
    HugeFreeRefines(ms, s, h, MainBegin(ms, i) + p);
  }
}
