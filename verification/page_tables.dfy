/** All blocks together: writing a range down and erasing it, the laws of the
    two, and what the two kinds of allocation choose. */
module PageTables {
  import opened Wrappers
  import opened Bitmaps
  import opened LiveRanges
  import opened Layout
  import opened Memory

  ghost predicate AllSized(ms: seq<MemInfo>, bs: seq<Block>) {
    |bs| == |ms| && forall i :: 0 <= i < |ms| ==> Sized(SpanOf(ms, i), bs[i])
  }

  /** Every block holds exactly what the live ranges say. */
  ghost predicate AllRepresent(ms: seq<MemInfo>, bs: seq<Block>, h: Heap) {
    |bs| == |ms| && forall i :: 0 <= i < |ms| ==> Represents(SpanOf(ms, i), bs[i], h)
  }

  function LaneSize(ms: seq<MemInfo>, lane: nat): nat {
    if lane == 0 then MainPages(ms)
    else if lane <= |ms| && !IsMain(ms, lane - 1) then ms[lane - 1].PageCount()
    else 0
  }

  /** Every live range lies inside its lane. */
  ghost predicate InBounds(ms: seq<MemInfo>, h: Heap) {
    forall k :: k in h ==> k.pos + h[k].len <= LaneSize(ms, k.lane)
  }

  /** The live ranges are sound and the blocks hold exactly them. */
  ghost predicate Refines(ms: seq<MemInfo>, bs: seq<Block>, h: Heap) {
    WellFormed(h) && InBounds(ms, h) && AllRepresent(ms, bs, h)
  }

  /** A range of `n` pages at `l` written down in every block it meets. */
  ghost function MarkAll(ms: seq<MemInfo>, bs: seq<Block>, l: Loc, n: nat, o: Owner): seq<Block>
    requires AllSized(ms, bs)
  {
    seq(|bs|, i requires 0 <= i < |bs| => Mark(SpanOf(ms, i), bs[i], l, n, o))
  }

  /** That range erased from every block it meets. */
  ghost function UnmarkAll(ms: seq<MemInfo>, bs: seq<Block>, l: Loc, n: nat): seq<Block>
    requires AllSized(ms, bs)
  {
    seq(|bs|, i requires 0 <= i < |bs| => Unmark(SpanOf(ms, i), bs[i], l, n))
  }

  /** Writing down a vacant range refines adding it to the map. */
  lemma {:induction false} MarkAllRefines(ms: seq<MemInfo>, bs: seq<Block>, h: Heap, l: Loc, n: nat, o: Owner)
    requires Refines(ms, bs, h) && AllSized(ms, bs)
    requires Vacant(h, l, n) && n > 0 && o != NULL && l.pos + n <= LaneSize(ms, l.lane)
    ensures l !in h && Refines(ms, MarkAll(ms, bs, l, n, o), h[l := Range(n, o)])
  {
    AddKeepsWellFormed(h, l, n, o);
    var h' := h[l := Range(n, o)];
    var bs' := MarkAll(ms, bs, l, n, o);
    forall i | 0 <= i < |ms| ensures Represents(SpanOf(ms, i), bs'[i], h') {
      MarkRepresents(SpanOf(ms, i), bs[i], h, l, n, o);
    }
  }

  /** Erasing a live range refines removing it from the map. */
  lemma {:induction false} UnmarkAllRefines(ms: seq<MemInfo>, bs: seq<Block>, h: Heap, l: Loc)
    requires Refines(ms, bs, h) && AllSized(ms, bs) && l in h
    ensures Refines(ms, UnmarkAll(ms, bs, l, h[l].len), h - {l})
  {
    var h' := h - {l};
    var bs' := UnmarkAll(ms, bs, l, h[l].len);
    forall i | 0 <= i < |ms| ensures Represents(SpanOf(ms, i), bs'[i], h') {
      UnmarkRepresents(SpanOf(ms, i), bs[i], h, l);
    }
  }

  /** The map determines the tables of all blocks. */
  lemma {:induction false} RefinesUnique(ms: seq<MemInfo>, bs: seq<Block>, cs: seq<Block>, h: Heap)
    requires Refines(ms, bs, h) && Refines(ms, cs, h)
    ensures bs == cs
  {
    forall i | 0 <= i < |ms| ensures bs[i] == cs[i] {
      RepresentsUnique(SpanOf(ms, i), bs[i], cs[i], h);
    }
  }

  /** Erasing what was just written restores every table of every block,
      wherever the range lies and however many blocks it straddles. */
  lemma {:induction false} MarkThenUnmark(ms: seq<MemInfo>, bs: seq<Block>, h: Heap, l: Loc, n: nat, o: Owner)
    requires Refines(ms, bs, h) && AllSized(ms, bs)
    requires Vacant(h, l, n) && n > 0 && o != NULL && l.pos + n <= LaneSize(ms, l.lane)
    ensures AllSized(ms, MarkAll(ms, bs, l, n, o))
    ensures UnmarkAll(ms, MarkAll(ms, bs, l, n, o), l, n) == bs
  {
    MarkAllRefines(ms, bs, h, l, n, o);
    var h' := h[l := Range(n, o)];
    UnmarkAllRefines(ms, MarkAll(ms, bs, l, n, o), h', l);
    assert h' - {l} == h;
    RefinesUnique(ms, UnmarkAll(ms, MarkAll(ms, bs, l, n, o), l, n), bs, h);
  }

  /** The map `h0` less ranges of the owner, none of them left in the blocks
      before `idx`. */
  ghost predicate FreedBelow(ms: seq<MemInfo>, h0: Heap, h: Heap, o: Owner, idx: nat) {
    Pruned(h0, h, o)
    && forall j {:trigger SpanOf(ms, j)} :: 0 <= j < idx && j < |ms| ==>
         NoneBelow(SpanOf(ms, j), h, o, ms[j].PageCount())
  }

  lemma {:induction false} FreedNext(ms: seq<MemInfo>, h0: Heap, h: Heap, h': Heap, o: Owner, idx: nat)
    requires FreedBelow(ms, h0, h, o, idx) && Pruned(h, h', o)
    requires idx < |ms| && NoneBelow(SpanOf(ms, idx), h', o, ms[idx].PageCount())
    ensures FreedBelow(ms, h0, h', o, idx + 1)
  {
    forall j | 0 <= j < idx + 1 && j < |ms| ensures NoneBelow(SpanOf(ms, j), h', o, ms[j].PageCount()) {
      if j < idx { PrunedKeeps(SpanOf(ms, j), h, h', o, o, ms[j].PageCount()); }
    }
  }

  /** When no block has a range of the owner, the map has none. */
  lemma {:induction false} NoneLeft(ms: seq<MemInfo>, h: Heap, o: Owner)
    requires WellFormed(h) && InBounds(ms, h)
    requires forall j :: 0 <= j < |ms| ==> NoneBelow(SpanOf(ms, j), h, o, ms[j].PageCount())
    ensures forall k :: k in h ==> h[k].owner != o
  {
    forall k | k in h ensures h[k].owner != o {
      var j := k.lane - 1;
      if k.lane == 0 {
        var p;
        j, p := Locate(ms, |ms|, k.pos);
      }
      assert NoneBelow(SpanOf(ms, j), h, o, ms[j].PageCount());
    }
  }

  /** After the last block exactly the owner's ranges are gone. */
  lemma {:induction false} FreedAll(ms: seq<MemInfo>, h0: Heap, h: Heap, o: Owner)
    requires WellFormed(h) && InBounds(ms, h) && FreedBelow(ms, h0, h, o, |ms|)
    ensures h == Without(h0, o)
  {
    NoneLeft(ms, h, o);
  }

  /** Empty tables hold the empty map. */
  lemma {:induction false} EmptyRefines(ms: seq<MemInfo>, bs: seq<Block>)
    requires |bs| == |ms| && forall i :: 0 <= i < |ms| ==> bs[i] == EmptyBlock(ms[i].PageCount())
    ensures Refines(ms, bs, map[])
  {
    forall i | 0 <= i < |ms| ensures Represents(SpanOf(ms, i), bs[i], map[]) {
      var b := bs[i];
      CountUniform(b.bits, false);
      forall q | 0 <= q < SpanOf(ms, i).count ensures PageOk(SpanOf(ms, i), b, map[], q) { }
    }
  }

  // ----- a range inside one block -----

  /** Taking pages inside one block is writing that range down everywhere. */
  lemma {:induction false} TakenIsMark(ms: seq<MemInfo>, bs: seq<Block>, i: nat, p: nat, n: nat, o: Owner)
    requires AllSized(ms, bs) && i < |ms| && n > 0 && p + n <= ms[i].PageCount()
    ensures bs[i := Taken(bs[i], p, n, o)] == MarkAll(ms, bs, LocOf(ms, i, p), n, o)
  {
    var l := LocOf(ms, i, p);
    forall j | 0 <= j < |ms| && j != i ensures !Touches(SpanOf(ms, j), l, n) {
      if j < i { MainBeginMono(ms, j, i); } else { MainBeginMono(ms, i, j); }
    }
  }

  /** Releasing pages inside one block is erasing that range everywhere. */
  lemma {:induction false} ReleasedIsUnmark(ms: seq<MemInfo>, bs: seq<Block>, i: nat, p: nat, n: nat)
    requires AllSized(ms, bs) && i < |ms| && n > 0 && p + n <= ms[i].PageCount()
    ensures bs[i := Released(bs[i], p, n)] == UnmarkAll(ms, bs, LocOf(ms, i, p), n)
  {
    var l := LocOf(ms, i, p);
    forall j | 0 <= j < |ms| && j != i ensures !Touches(SpanOf(ms, j), l, n) {
      if j < i { MainBeginMono(ms, j, i); } else { MainBeginMono(ms, i, j); }
    }
  }

  lemma {:induction false} BlockInLane(ms: seq<MemInfo>, i: nat, p: nat, n: nat)
    requires i < |ms| && p + n <= ms[i].PageCount()
    ensures LocOf(ms, i, p).pos + n <= LaneSize(ms, LocOf(ms, i, p).lane)
  {
    MainBeginMono(ms, i, |ms|);
  }

  /** Nothing is live where a vacant range begins. */
  lemma {:induction false} VacantNotLive(h: Heap, l: Loc, n: nat)
    requires WellFormed(h) && Vacant(h, l, n) && n > 0
    ensures l !in h
  {
    assert l in h ==> Disjoint(l, h[l].len, l, n);
  }

  lemma {:induction false} FreeIsVacant(ms: seq<MemInfo>, bs: seq<Block>, h: Heap, k: nat, p: nat, n: nat)
    requires Refines(ms, bs, h) && k < |ms| && n > 0 && FreeRun(bs[k].bits, p, n)
    ensures Sized(SpanOf(ms, k), bs[k]) && p + n <= ms[k].PageCount()
    ensures Vacant(h, LocOf(ms, k, p), n) && LocOf(ms, k, p) !in h
  {
    assert Represents(SpanOf(ms, k), bs[k], h);
    ClearIffVacant(SpanOf(ms, k), bs[k], h, p, n);
    VacantNotLive(h, LocOf(ms, k, p), n);
  }

  lemma {:induction false} TakenRefines(ms: seq<MemInfo>, bs: seq<Block>, h: Heap, k: nat, p: nat, n: nat, o: nat)
    requires Refines(ms, bs, h) && k < |ms| && n > 0 && FreeRun(bs[k].bits, p, n)
    ensures Sized(SpanOf(ms, k), bs[k]) && p + n <= ms[k].PageCount() && LocOf(ms, k, p) !in h
    ensures Refines(ms, bs[k := Taken(bs[k], p, n, Session(o))], h[LocOf(ms, k, p) := Range(n, Session(o))])
  {
    FreeIsVacant(ms, bs, h, k, p, n);
    TakenIsMark(ms, bs, k, p, n, Session(o));
    BlockInLane(ms, k, p, n);
    MarkAllRefines(ms, bs, h, LocOf(ms, k, p), n, Session(o));
  }

  // ----- the shadow bitmap -----

  /** The shadow holds `bits` from `begin` on. */
  ghost predicate RegionIs(shadow: seq<bool>, begin: nat, bits: seq<bool>) {
    begin + |bits| <= |shadow| && forall q :: 0 <= q < |bits| ==> shadow[begin + q] == bits[q]
  }

  /** The shadow has the bitmaps of the MAIN blocks below `upto`. */
  ghost predicate SyncedBelow(ms: seq<MemInfo>, bs: seq<Block>, shadow: seq<bool>, upto: nat)
    requires |bs| == |ms|
  {
    forall i :: 0 <= i < upto && IsMain(ms, i) ==> RegionIs(shadow, MainBegin(ms, i), bs[i].bits)
  }

  /** The shadow bitmap is the concatenation of the MAIN bitmaps. */
  ghost predicate Synced(ms: seq<MemInfo>, bs: seq<Block>, shadow: seq<bool>)
    requires |bs| == |ms|
  {
    |shadow| == MainPages(ms) && SyncedBelow(ms, bs, shadow, |ms|)
  }

  /** `s` with `t` copied over it from `at` on. */
  function Overlay(s: seq<bool>, at: nat, t: seq<bool>): (r: seq<bool>)
    requires at + |t| <= |s|
    ensures |r| == |s|
    ensures forall q :: 0 <= q < |s| ==> r[q] == if at <= q < at + |t| then t[q - at] else s[q]
  {
    s[..at] + t + s[at + |t|..]
  }

  /** Copying the next block's bitmap over extends the synced part. */
  lemma {:induction false} OverlaySyncs(ms: seq<MemInfo>, bs: seq<Block>, shadow: seq<bool>, idx: nat)
    requires AllSized(ms, bs) && SyncedBelow(ms, bs, shadow, idx)
    requires IsMain(ms, idx) && MainBegin(ms, idx) + |bs[idx].bits| <= |shadow|
    ensures SyncedBelow(ms, bs, Overlay(shadow, MainBegin(ms, idx), bs[idx].bits), idx + 1)
  {
    forall i | 0 <= i < idx && IsMain(ms, i)
      ensures RegionIs(Overlay(shadow, MainBegin(ms, idx), bs[idx].bits), MainBegin(ms, i), bs[i].bits)
    {
      MainBeginMono(ms, i, idx);
      assert RegionIs(shadow, MainBegin(ms, i), bs[i].bits);
    }
  }

  /** Clear bits in the synced shadow are exactly a vacant range of the MAIN lane. */
  lemma {:induction false} ShadowClearIffVacant(ms: seq<MemInfo>, bs: seq<Block>, h: Heap, shadow: seq<bool>,
                                                g: nat, n: nat)
    requires Refines(ms, bs, h) && Synced(ms, bs, shadow)
    requires g + n <= MainPages(ms) && n > 0
    ensures FreeRun(shadow, g, n) <==> Vacant(h, Loc(0, g), n)
  {
    if FreeRun(shadow, g, n) {
      forall k | k in h ensures Disjoint(k, h[k].len, Loc(0, g), n) {
        var x := Max(k.pos, g);
        if k.lane == 0 && x < g + n {
          var i, p := Locate(ms, |ms|, x);
          assert RegionIs(shadow, MainBegin(ms, i), bs[i].bits);
          assert PageOk(SpanOf(ms, i), bs[i], h, p);
          assert !Covers(k, h[k], Loc(0, x));
        }
      }
    }
    if Vacant(h, Loc(0, g), n) {
      forall x | g <= x < g + n ensures !shadow[x] {
        var i, p := Locate(ms, |ms|, x);
        assert RegionIs(shadow, MainBegin(ms, i), bs[i].bits);
        assert PageOk(SpanOf(ms, i), bs[i], h, p);
        VacantIsClear(SpanOf(ms, i), bs[i], h, Loc(0, g), n);
      }
    }
  }

  // ----- splitting a straddling range -----

  /** The pages that blocks `0..upto` receive of a range. */
  ghost function SharesBelow(ms: seq<MemInfo>, upto: nat, l: Loc, n: nat): nat
    requires upto <= |ms|
  {
    if upto == 0 then 0
    else SharesBelow(ms, upto - 1, l, n) + Share(SpanOf(ms, upto - 1), l, n)
  }

  lemma {:induction false} SharesBelowMain(ms: seq<MemInfo>, upto: nat, g: nat, n: nat)
    requires upto <= |ms|
    ensures SharesBelow(ms, upto, Loc(0, g), n) == Max(0, Min(n, MainBegin(ms, upto) - g))
  {
    if upto > 0 { SharesBelowMain(ms, upto - 1, g, n); }
  }

  lemma {:induction false} SharesBelowOwn(ms: seq<MemInfo>, upto: nat, l: Loc, n: nat)
    requires upto <= |ms| && l.lane > 0 && l.pos + n <= LaneSize(ms, l.lane)
    ensures SharesBelow(ms, upto, l, n) == if l.lane <= upto then n else 0
  {
    if upto > 0 { SharesBelowOwn(ms, upto - 1, l, n); }
  }

  /** The shares of a range sum to its length. */
  lemma {:induction false} SharesSum(ms: seq<MemInfo>, l: Loc, n: nat)
    requires l.pos + n <= LaneSize(ms, l.lane)
    ensures SharesBelow(ms, |ms|, l, n) == n
  {
    if l.lane == 0 { SharesBelowMain(ms, |ms|, l.pos, n); } else { SharesBelowOwn(ms, |ms|, l, n); }
  }

  /** The shares tile the range: each of its pages is one page of one share. */
  lemma {:induction false} SharesTile(ms: seq<MemInfo>, g: nat, n: nat, x: nat) returns (i: nat)
    requires g <= x < g + n <= MainPages(ms)
    ensures IsMain(ms, i) && Touches(SpanOf(ms, i), Loc(0, g), n)
    ensures Lo(SpanOf(ms, i), Loc(0, g)) <= x < Lo(SpanOf(ms, i), Loc(0, g)) + Share(SpanOf(ms, i), Loc(0, g), n)
    ensures forall j :: 0 <= j < |ms| && j != i ==>
      !(Touches(SpanOf(ms, j), Loc(0, g), n)
        && Lo(SpanOf(ms, j), Loc(0, g)) <= x < Lo(SpanOf(ms, j), Loc(0, g)) + Share(SpanOf(ms, j), Loc(0, g), n))
  {
    var p;
    i, p := Locate(ms, |ms|, x);
    forall j | 0 <= j < |ms| && j != i && IsMain(ms, j)
      ensures x < MainBegin(ms, j) || x >= MainBegin(ms, j) + ms[j].PageCount()
    {
      if j < i { MainBeginMono(ms, j, i); } else { MainBeginMono(ms, i, j); }
    }
  }

  // ----- what each allocation chooses -----

  /** The request can be rounded up to pages of every block of the kind. */
  ghost predicate RoundableFor(ms: seq<MemInfo>, kind: int, sz: nat) {
    forall i :: 0 <= i < |ms| && ms[i].kind == kind ==> Roundable(ms[i], sz)
  }

  datatype Place = Place(block: nat, page: nat)

  /** The ordinary allocation: the first block of the kind that has a run of
      free pages, and the lowest run in it. */
  ghost function OrdinaryFit(ms: seq<MemInfo>, bs: seq<Block>, kind: int, sz: nat, from: nat): (r: Option<Place>)
    requires |bs| == |ms| && sz > 0 && from <= |ms|
    ensures r.Some? ==>
      && from <= r.value.block < |ms| && ms[r.value.block].kind == kind
      && FirstFit(bs[r.value.block].bits, 0, Wanted(PagesNeeded(ms[r.value.block], sz))) == Some(r.value.page)
    decreases |ms| - from
  {
    if from == |ms| then None
    else
      var fit :=
        if ms[from].kind == kind then FirstFit(bs[from].bits, 0, Wanted(PagesNeeded(ms[from], sz))) else None;
      if fit.Some? then Some(Place(from, fit.value)) else OrdinaryFit(ms, bs, kind, sz, from + 1)
  }

  /** The block is of the kind and has a run of free pages for the request at `p`. */
  predicate HasRoom(m: MemInfo, b: Block, kind: int, sz: nat, p: nat)
    requires sz > 0
  {
    m.kind == kind && FreeRun(b.bits, p, Wanted(PagesNeeded(m, sz)))
  }

  /** No block of the kind before the chosen one has room. */
  lemma {:induction false} OrdinaryFitIsFirst(ms: seq<MemInfo>, bs: seq<Block>, kind: int, sz: nat, from: nat)
    requires |bs| == |ms| && sz > 0 && from <= |ms|
    ensures var r := OrdinaryFit(ms, bs, kind, sz, from);
      forall j, p: nat :: from <= j < (if r.Some? then r.value.block else |ms|) && ms[j].kind == kind ==>
        !FreeRun(bs[j].bits, p, Wanted(PagesNeeded(ms[j], sz)))
    decreases |ms| - from
  {
    if from < |ms| { OrdinaryFitIsFirst(ms, bs, kind, sz, from + 1); }
  }

  /** Ordinary allocation finds a place exactly when some block of the kind
      has a run of free pages as long as the request; the place is the lowest
      run of the first such block. */
  lemma {:induction false} OrdinaryFitComplete(ms: seq<MemInfo>, bs: seq<Block>, kind: int, sz: nat)
    requires |bs| == |ms| && sz > 0
    ensures var r := OrdinaryFit(ms, bs, kind, sz, 0);
      && (r.Some? <==> exists i: nat, p: nat :: i < |ms| && HasRoom(ms[i], bs[i], kind, sz, p))
      && (r.Some? ==> forall i: nat, p: nat :: i < |ms| && HasRoom(ms[i], bs[i], kind, sz, p) ==>
            r.value.block < i || (r.value.block == i && r.value.page <= p))
  {
    var r := OrdinaryFit(ms, bs, kind, sz, 0);
    OrdinaryFitIsFirst(ms, bs, kind, sz, 0);
    if r.Some? {
      assert HasRoom(ms[r.value.block], bs[r.value.block], kind, sz, r.value.page);
    }
  }

  /** A free run of a MAIN block is a free run of the synced shadow. */
  lemma {:induction false} BlockRunIsShadowRun(ms: seq<MemInfo>, bs: seq<Block>, shadow: seq<bool>, i: nat,
                                               p: nat, n: nat)
    requires AllSized(ms, bs) && Synced(ms, bs, shadow)
    requires IsMain(ms, i) && FreeRun(bs[i].bits, p, n)
    ensures FreeRun(shadow, MainBegin(ms, i) + p, n)
  {
    MainBeginMono(ms, i, |ms|);
    forall j | MainBegin(ms, i) + p <= j < MainBegin(ms, i) + p + n ensures !shadow[j] {
      var q := j - MainBegin(ms, i);
      assert RegionIs(shadow, MainBegin(ms, i), bs[i].bits);
      assert shadow[MainBegin(ms, i) + q] == bs[i].bits[q];
    }
  }

  /** A run of the shadow inside one block is a run of that block. */
  lemma {:induction false} ShadowRunIsBlockRun(ms: seq<MemInfo>, bs: seq<Block>, shadow: seq<bool>, i: nat,
                                               p: nat, n: nat)
    requires AllSized(ms, bs) && Synced(ms, bs, shadow)
    requires IsMain(ms, i) && p + n <= ms[i].PageCount() && FreeRun(shadow, MainBegin(ms, i) + p, n)
    ensures FreeRun(bs[i].bits, p, n)
  {
    assert RegionIs(shadow, MainBegin(ms, i), bs[i].bits);
    forall q | p <= q < p + n ensures !bs[i].bits[q] {
      assert shadow[MainBegin(ms, i) + q] == bs[i].bits[q];
    }
  }

  /** The shadow range lies in MAIN block `i` and crosses no block's end. */
  predicate InsideBlock(ms: seq<MemInfo>, i: nat, g: nat, n: nat) {
    IsMain(ms, i) && MainBegin(ms, i) <= g && g + n <= MainBegin(ms, i) + ms[i].PageCount()
  }

  /** A run of the shadow inside one block is room there for ordinary allocation. */
  lemma {:induction false} InsideHasRoom(ms: seq<MemInfo>, hm: MemInfo, bs: seq<Block>, shadow: seq<bool>, sz: nat,
                                         i: nat, g: nat)
    requires LayoutOk(ms) && IsShadow(ms, |ms|, hm) && AllSized(ms, bs) && Synced(ms, bs, shadow)
    requires sz > 0 && Roundable(hm, sz) && FreeRun(shadow, g, PagesNeeded(hm, sz))
    requires InsideBlock(ms, i, g, PagesNeeded(hm, sz))
    ensures PagesNeeded(ms[i], sz) > 0 && FreeRun(bs[i].bits, g - MainBegin(ms, i), PagesNeeded(ms[i], sz))
  {
    var p := g - MainBegin(ms, i);
    PagesNeededPositive(hm, sz);
    ShadowRunIsBlockRun(ms, bs, shadow, i, p, PagesNeeded(hm, sz));
    ShadowAddress(ms, hm, i, p);
  }

  /** What ordinary MAIN allocation chooses is a run of the shadow of as many
      pages, at the same address. */
  lemma {:induction false} OrdinaryIsShadowRun(ms: seq<MemInfo>, hm: MemInfo, bs: seq<Block>,
                                               shadow: seq<bool>, sz: nat)
    requires LayoutOk(ms) && IsShadow(ms, |ms|, hm) && AllSized(ms, bs) && Synced(ms, bs, shadow)
    requires sz > 0 && RoundableFor(ms, XPU_MEM_MAIN, sz)
    requires OrdinaryFit(ms, bs, XPU_MEM_MAIN, sz, 0).Some?
    ensures var at := OrdinaryFit(ms, bs, XPU_MEM_MAIN, sz, 0).value;
      && Roundable(hm, sz) && 0 < PagesNeeded(hm, sz) == PagesNeeded(ms[at.block], sz)
      && at.page + PagesNeeded(hm, sz) <= ms[at.block].PageCount()
      && FreeRun(shadow, MainBegin(ms, at.block) + at.page, PagesNeeded(hm, sz))
      && PageIdToAddr(hm, MainBegin(ms, at.block) + at.page) == PageIdToAddr(ms[at.block], at.page)
  {
    var at := OrdinaryFit(ms, bs, XPU_MEM_MAIN, sz, 0).value;
    PagesNeededPositive(ms[at.block], sz);
    ShadowAddress(ms, hm, at.block, at.page);
    BlockRunIsShadowRun(ms, bs, shadow, at.block, at.page, PagesNeeded(ms[at.block], sz));
  }

  /** In a synced shadow first fit finds a place whenever ordinary MAIN
      allocation would, never at a higher page, and at the same page unless the
      range crosses the end of a block. */
  lemma {:induction false} ShadowDominates(ms: seq<MemInfo>, hm: MemInfo, bs: seq<Block>, shadow: seq<bool>, sz: nat)
    requires LayoutOk(ms) && IsShadow(ms, |ms|, hm)
    requires AllSized(ms, bs) && Synced(ms, bs, shadow)
    requires sz > 0 && RoundableFor(ms, XPU_MEM_MAIN, sz)
    requires OrdinaryFit(ms, bs, XPU_MEM_MAIN, sz, 0).Some?
    ensures var at := OrdinaryFit(ms, bs, XPU_MEM_MAIN, sz, 0).value;
      var n := PagesNeeded(hm, sz);
      var g := FirstFit(shadow, 0, n);
      && n > 0 && g.Some?
      && PageIdToAddr(hm, g.value) <= PageIdToAddr(ms[at.block], at.page)
      && (forall i :: 0 <= i < |ms| && InsideBlock(ms, i, g.value, n) ==>
            i == at.block && g.value == MainBegin(ms, i) + at.page
            && PageIdToAddr(hm, g.value) == PageIdToAddr(ms[at.block], at.page))
  {
    var at := OrdinaryFit(ms, bs, XPU_MEM_MAIN, sz, 0).value;
    var n := PagesNeeded(hm, sz);
    var top := MainBegin(ms, at.block) + at.page;
    OrdinaryIsShadowRun(ms, hm, bs, shadow, sz);
    var g := FirstFit(shadow, 0, n).value;
    assert g <= top;
    Shifts.ShlMono(g, top, hm.pageBits);
    forall i | 0 <= i < |ms| && InsideBlock(ms, i, g, n)
      ensures i == at.block && g == MainBegin(ms, i) + at.page
    {
      OrdinaryFitIsFirst(ms, bs, XPU_MEM_MAIN, sz, 0);
      InsideHasRoom(ms, hm, bs, shadow, sz, i, g);
      assert FreeRun(bs[i].bits, g - MainBegin(ms, i), Wanted(PagesNeeded(ms[i], sz)));
      if i > at.block { MainBeginMono(ms, at.block, i); }
    }
  }
}
