/** Frees that name no owner: the one case in which their tests pass, and what
    the release there does to the tables. */
module NullFrees {
  import opened Wrappers
  import opened LiveRanges
  import opened Layout
  import opened Memory
  import opened PageTables
  import opened ManagerState

  /** The range that runs into block `i` starts in an earlier block, as a head
      there with its full length. */
  lemma {:induction false} ContinuedFrom(ms: seq<MemInfo>, bs: seq<Block>, h: Heap, i: nat)
    returns (k: Loc, j: nat, p: nat)
    requires Refines(ms, bs, h) && i < |ms| && Continued(SpanOf(ms, i), h)
    ensures k in h && Covers(k, h[k], LocOf(ms, i, 0)) && h[k].owner != NULL
    ensures j < i && p < ms[j].PageCount() && LocOf(ms, j, p) == k
  {
    k :| k in h && Covers(k, h[k], LocOf(ms, i, 0));
    assert k.pos + h[k].len <= LaneSize(ms, k.lane);
    assert k != LocOf(ms, i, 0);
    j, p := Locate(ms, i, k.pos);
  }

  /** A head in the tables claims every page of its range. */
  lemma {:induction false} HeadClaims(ms: seq<MemInfo>, s: Mm, h: Heap, j: nat, p: nat, i: nat)
    requires Fits(ms, s) && Refines(ms, s.blocks, h) && j < |ms| && p < ms[j].PageCount()
    requires s.blocks[j].len[p] != 0 && s.blocks[j].own[p] != NULL
    requires i < |ms| && ms[i].PageCount() > 0
    requires Covers(LocOf(ms, j, p), Range(s.blocks[j].len[p], s.blocks[j].own[p]), LocOf(ms, i, 0))
    ensures s.blocks[i].bits[0]
  {
    HeadEntry(ms, s, h, j, p, s.blocks[j].own[p]);
    assert PageOk(SpanOf(ms, i), s.blocks[i], h, 0);
    assert Covers(LocOf(ms, j, p), h[LocOf(ms, j, p)], LocOf(ms, i, 0));
  }

  /** Otherwise it takes the range that starts there off the map, if it is the
      owner's, and nothing else. */
  lemma {:induction false} FreeRefines(ms: seq<MemInfo>, s: Mm, h: Heap, i: nat, p: nat, o: Owner)
    requires Lockable(ms, s) && Refines(ms, s.blocks, h) && ShadowKnows(ms, h, s.shadow.len)
    requires i < |ms| && p < ms[i].PageCount() && (o != NULL || !(p == 0 && Continued(SpanOf(ms, i), h)))
    ensures var l := LocOf(ms, i, p);
      Refines(ms, FreeOutcome(ms, s, i, p, o).blocks, if l in h && h[l].owner == o then h - {l} else h)
  {
    HeadEntry(ms, s, h, i, p, o);
    var l := LocOf(ms, i, p);
    if l in h && h[l].owner == o {
      if p + h[l].len <= ms[i].PageCount() {
        OrdinaryFreeRefines(ms, s, h, i, p);
      } else {
        HandedToHuge(ms, s, h, i, p);
        HugeFreeRefines(ms, s, h, l.pos);
      }
    }
  }

  /** The release that such a free makes takes the share alone: the head in the
      earlier block goes on claiming the pages, and the tables then stand for no
      map of live ranges at all. */
  lemma {:induction false} NullFreeBreaks(ms: seq<MemInfo>, s: Mm, h: Heap, i: nat)
    requires Fits(ms, s) && Refines(ms, s.blocks, h) && i < |ms| && Continued(SpanOf(ms, i), h)
    ensures 0 < s.blocks[i].len[0] <= ms[i].PageCount()
    ensures forall h' :: !Refines(ms, FreedIn(s, i, 0, s.blocks[i].len[0]).blocks, h')
  {
    var k, j, p := ContinuedFrom(ms, s.blocks, h, i);
    assert PageOk(SpanOf(ms, i), s.blocks[i], h, 0);
    assert ContinuationOk(SpanOf(ms, i), s.blocks[i], h);
    var r := FreedIn(s, i, 0, s.blocks[i].len[0]);
    assert PageOk(SpanOf(ms, j), s.blocks[j], h, p);
    forall h' ensures !Refines(ms, r.blocks, h') {
      if Refines(ms, r.blocks, h') { HeadClaims(ms, r, h', j, p, i); }
    }
  }

  /** From the share's own block the release looks like the end of that range. */
  lemma {:induction false} ShareReleased(sp: Span, b: Block, h: Heap) returns (k: Loc)
    requires WellFormed(h) && Represents(sp, b, h) && Continued(sp, h)
    ensures k in h && WellFormed(h - {k}) && 0 < b.len[0] <= sp.count
    ensures Represents(sp, Released(b, 0, b.len[0]), h - {k})
    ensures !Continued(sp, h - {k}) && AtBoundary(sp, h - {k}, b.len[0])
  {
    var first := Loc(sp.lane, sp.begin);
    ShareEntry(sp, b, h, 0);
    k :| k in h && Covers(k, h[k], first);
    assert Unmark(sp, b, k, h[k].len) == Released(b, 0, b.len[0]);
    UnmarkRepresents(sp, b, h, k);
    CoveredAfterRemove(h, k, first);
    forall c | c in h && c != k ensures Disjoint(c, h[c].len, k, h[k].len) { }
  }

  /** The share at the start of block `i`, if there is one, has been released. */
  ghost predicate ShareGone(ms: seq<MemInfo>, s: Mm, s': Mm, h: Heap, i: nat)
    requires Fits(ms, s) && i < |ms|
  {
    s' == if Continued(SpanOf(ms, i), h) && 0 < s.blocks[i].len[0] <= ms[i].PageCount()
          then FreedIn(s, i, 0, s.blocks[i].len[0]) else s
  }

  /** The tables once a scan that names no owner is through the blocks below
      `upto`: every share there has been released. */
  ghost function NullScanned(ms: seq<MemInfo>, s: Mm, h: Heap, upto: nat): (r: Mm)
    requires Fits(ms, s)
    ensures Fits(ms, r)
  {
    s.(blocks := seq(|ms|, i requires 0 <= i < |ms| =>
         var b := s.blocks[i];
         if i < upto && Continued(SpanOf(ms, i), h) && 0 < b.len[0] <= ms[i].PageCount() then Released(b, 0, b.len[0])
         else b))
  }

  lemma {:induction false} NullScannedNext(ms: seq<MemInfo>, s: Mm, s': Mm, h: Heap, idx: nat)
    requires Fits(ms, s) && idx < |ms| && ShareGone(ms, NullScanned(ms, s, h, idx), s', h, idx)
    ensures s' == NullScanned(ms, s, h, idx + 1)
  {
    assert s'.blocks == NullScanned(ms, s, h, idx + 1).blocks;
  }

  /** The scan clears the first page of a share... */
  lemma {:induction false} ShareScanned(ms: seq<MemInfo>, s: Mm, h: Heap, i: nat)
    requires Fits(ms, s) && Refines(ms, s.blocks, h) && i < |ms| && Continued(SpanOf(ms, i), h)
    ensures !NullScanned(ms, s, h, |ms|).blocks[i].bits[0]
  {
    ShareEntry(SpanOf(ms, i), s.blocks[i], h, 0);
  }

  /** ...and no entry of a first page of a range. */
  lemma {:induction false} HeadStays(ms: seq<MemInfo>, s: Mm, h: Heap, j: nat, p: nat)
    requires Fits(ms, s) && Refines(ms, s.blocks, h) && j < |ms| && p < ms[j].PageCount() && LocOf(ms, j, p) in h
    ensures var b := NullScanned(ms, s, h, |ms|).blocks[j];
      b.len[p] == h[LocOf(ms, j, p)].len && b.own[p] == h[LocOf(ms, j, p)].owner
  {
    assert PageOk(SpanOf(ms, j), s.blocks[j], h, p);
  }

  lemma {:induction false} NullScanBreaks(ms: seq<MemInfo>, s: Mm, r: Mm, h: Heap, i: nat, h': Heap)
    requires Fits(ms, s) && Refines(ms, s.blocks, h) && r == NullScanned(ms, s, h, |ms|)
    requires i < |ms| && Continued(SpanOf(ms, i), h)
    ensures !Refines(ms, r.blocks, h')
  {
    var k, j, p := ContinuedFrom(ms, s.blocks, h, i);
    ShareScanned(ms, s, h, i);
    HeadStays(ms, s, h, j, p);
    if Refines(ms, r.blocks, h') { HeadClaims(ms, r, h', j, p, i); }
  }

  /** It leaves tables that stand for some map exactly when there is no share. */
  lemma {:induction false} NullScanStandsIff(ms: seq<MemInfo>, s: Mm, h: Heap)
    requires Fits(ms, s) && Refines(ms, s.blocks, h)
    ensures (exists h' :: Refines(ms, NullScanned(ms, s, h, |ms|).blocks, h'))
      <==> forall i {:trigger SpanOf(ms, i)} :: 0 <= i < |ms| ==> !Continued(SpanOf(ms, i), h)
  {
    var r := NullScanned(ms, s, h, |ms|);
    if i: nat :| i < |ms| && Continued(SpanOf(ms, i), h) {
      forall h' ensures !Refines(ms, r.blocks, h') { NullScanBreaks(ms, s, r, h, i, h'); }
    } else {
      assert r.blocks == s.blocks;
    }
  }

  /** A free leaves tables that stand for some map of live ranges exactly when
      it names an owner or stays clear of the first page of a block that a range
      runs into. */
  lemma {:induction false} FreeStandsIff(ms: seq<MemInfo>, s: Mm, h: Heap, i: nat, p: nat, o: Owner)
    requires Lockable(ms, s) && Refines(ms, s.blocks, h) && ShadowKnows(ms, h, s.shadow.len)
    requires i < |ms| && p < ms[i].PageCount()
    ensures (exists h' :: Refines(ms, FreeOutcome(ms, s, i, p, o).blocks, h'))
      <==> o != NULL || !(p == 0 && Continued(SpanOf(ms, i), h))
  {
    if o == NULL && p == 0 && Continued(SpanOf(ms, i), h) {
      NullEntry(ms, s, h, i, p);
      NullFreeBreaks(ms, s, h, i);
    } else {
      FreeRefines(ms, s, h, i, p, o);
    }
  }

  /** Two blocks of 64 pages, one after the other. */
  predicate TwoBlocks(ms: seq<MemInfo>) {
    && |ms| == 2 && ms[0].base + ms[0].size == ms[1].base && ms[0].pageBits == ms[1].pageBits
    && IsMain(ms, 0) && IsMain(ms, 1) && MainAligned(ms[0]) && MainAligned(ms[1])
    && ms[0].PageCount() == ms[1].PageCount() == 64
  }

  lemma {:induction false} TwoBlocksShape(ms: seq<MemInfo>)
    requires TwoBlocks(ms)
    ensures LayoutOk(ms)
    ensures SpanOf(ms, 0) == Span(0, 0, 64) && SpanOf(ms, 1) == Span(0, 64, 64)
    ensures MainPages(ms) == 128
  {
    assert MainBegin(ms, 1) == MainBegin(ms, 0) + 64 && MainBegin(ms, 2) == MainBegin(ms, 1) + 64;
    assert ByteBegin(ms, 1) == ByteBegin(ms, 0) + ms[0].size;
    assert Continues(ms, 0, 1);
  }

  lemma {:induction false} BytePages(m: MemInfo)
    requires m.pageBits == 0 && m.size == 64
    ensures m.PageCount() == 64 && MainAligned(m)
  {
  }

  /** There are such layouts, at any base. */
  lemma {:induction false} TwoBlocksExist(ms: seq<MemInfo>, base: nat)
    requires |ms| == 2
    requires ms[0] == MemInfo(base, 64, 0, XPU_MEM_MAIN) && ms[1] == MemInfo(base + 64, 64, 0, XPU_MEM_MAIN)
    ensures TwoBlocks(ms)
  {
    BytePages(ms[0]);
    BytePages(ms[1]);
  }

  /** One huge allocation of 65 pages on the tables kl_mm_init leaves takes page
      0 and runs into the second block; a free of that block's first page that
      names no owner then leaves tables that stand for nothing. */
  lemma {:induction false} NullFreeHappens(ms: seq<MemInfo>, s: Mm)
    requires TwoBlocks(ms) && Unlocked(ms, s)
    requires forall i :: 0 <= i < |ms| ==> s.blocks[i] == EmptyBlock(ms[i].PageCount())
    ensures LayoutOk(ms) && HugeFit(ms, s, 65) == Some(0) && 65 <= MainPages(ms)
    ensures var r := UnlockUpto(ms, HugeTaken(ms, s, 0, 65, Session(0)), |ms|);
      && Unlocked(ms, r) && Refines(ms, r.blocks, map[Loc(0, 0) := Range(65, Session(0))])
      && forall h' :: !Refines(ms, FreeOutcome(ms, r, 1, 0, NULL).blocks, h')
  {
    TwoBlocksShape(ms);
    EmptyRefines(ms, s.blocks);
    HugeChoice(ms, s, map[], 65);
    var h := map[Loc(0, 0) := Range(65, Session(0))];
    assert Vacant(map[], Loc(0, 0), 65);
    HugeMallocRefines(ms, s, map[], 0, 65, Session(0));
    var r := UnlockUpto(ms, HugeTaken(ms, s, 0, 65, Session(0)), |ms|);
    assert map[][Loc(0, 0) := Range(65, Session(0))] == h;
    assert Loc(0, 0) in h && Covers(Loc(0, 0), h[Loc(0, 0)], Loc(0, 64));
    FreeStandsIff(ms, r, h, 1, 0, NULL);
  }
}
