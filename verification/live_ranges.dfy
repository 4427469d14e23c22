/** The abstract state of the allocator, a map of live ranges, and what one
    block's tables must hold to represent it.

    Pages live on lanes. All XPU_MEM_MAIN blocks share lane 0, one after the
    other, so a range there may straddle blocks; any other block has a lane
    of its own. */
module LiveRanges {
  import opened Bitmaps

  /** A `void *` owner: NULL or a session. */
  datatype Owner = NULL | Session(id: nat)

  datatype Loc = Loc(lane: nat, pos: nat)
  datatype Range = Range(len: nat, owner: Owner)

  /** From the first page of a live allocation to its length and owner. */
  type Heap = map<Loc, Range>

  /** The tables of one `struct kl_memory`. */
  datatype Block = Block(bits: seq<bool>, len: seq<nat>, own: seq<Owner>, used: int)

  /** Where a block's pages lie on their lane. */
  datatype Span = Span(lane: nat, begin: nat, count: nat)

  ghost predicate Disjoint(a: Loc, m: nat, b: Loc, n: nat) {
    a.lane != b.lane || a.pos + m <= b.pos || b.pos + n <= a.pos
  }

  /** The range at `k` covers page `l`. */
  ghost predicate Covers(k: Loc, r: Range, l: Loc) {
    k.lane == l.lane && k.pos <= l.pos < k.pos + r.len
  }

  ghost predicate Covered(h: Heap, l: Loc) {
    exists k :: k in h && Covers(k, h[k], l)
  }

  ghost predicate WellFormed(h: Heap) {
    && (forall k :: k in h ==> h[k].len > 0 && h[k].owner != NULL)
    && (forall k, k' {:trigger Disjoint(k, h[k].len, k', h[k'].len)} ::
          k in h && k' in h && k != k' ==> Disjoint(k, h[k].len, k', h[k'].len))
  }

  /** No live range meets `n` pages at `l`. */
  ghost predicate Vacant(h: Heap, l: Loc, n: nat) {
    forall k :: k in h ==> Disjoint(k, h[k].len, l, n)
  }

  /** The map with a range added, if it has any pages. */
  function Added(h: Heap, l: Loc, r: Range): Heap {
    if r.len == 0 then h else h[l := r]
  }

  function Min(a: int, b: int): int { if a < b then a else b }
  function Max(a: int, b: int): int { if a > b then a else b }

  ghost predicate Sized(sp: Span, b: Block) {
    |b.bits| == |b.len| == |b.own| == sp.count
  }

  /** A range that enters the block from an earlier one leaves its share in
      the block's first page. */
  ghost predicate ContinuationOk(sp: Span, b: Block, h: Heap)
    requires Sized(sp, b)
  {
    sp.count > 0 && Loc(sp.lane, sp.begin) !in h ==>
      && (!b.bits[0] ==> b.len[0] == 0)
      && (forall k :: k in h && Covers(k, h[k], Loc(sp.lane, sp.begin)) ==>
            b.len[0] == Min(sp.count, k.pos + h[k].len - sp.begin))
  }

  ghost predicate PageOk(sp: Span, b: Block, h: Heap, q: nat)
    requires Sized(sp, b) && q < sp.count
  {
    var l := Loc(sp.lane, sp.begin + q);
    && (b.bits[q] <==> Covered(h, l))
    && (l in h ==> b.len[q] == h[l].len && b.own[q] == h[l].owner)
    && (l !in h ==> b.own[q] == NULL && (q > 0 ==> b.len[q] == 0))
  }

  /** Block `b` holds exactly what the live ranges say. */
  ghost predicate Represents(sp: Span, b: Block, h: Heap) {
    && Sized(sp, b)
    && (forall q :: 0 <= q < sp.count ==> PageOk(sp, b, h, q))
    && ContinuationOk(sp, b, h)
    && b.used == Count(b.bits)
  }

  // ----- the share of a range that falls in a block -----

  function Lo(sp: Span, l: Loc): int { Max(l.pos, sp.begin) }
  function Hi(sp: Span, l: Loc, n: nat): int { Min(l.pos + n, sp.begin + sp.count) }

  predicate Touches(sp: Span, l: Loc, n: nat) {
    l.lane == sp.lane && Lo(sp, l) < Hi(sp, l, n)
  }

  function Share(sp: Span, l: Loc, n: nat): nat {
    if Touches(sp, l, n) then Hi(sp, l, n) - Lo(sp, l) else 0
  }

  /** The block after a range of `n` pages at `l` has been written down. */
  function Mark(sp: Span, b: Block, l: Loc, n: nat, o: Owner): Block
    requires Sized(sp, b)
  {
    if !Touches(sp, l, n) then b else
      var p := Lo(sp, l) - sp.begin;
      var s := Share(sp, l, n);
      var head := sp.begin <= l.pos;
      Block(Fill(b.bits, p, s, true), b.len[p := if head then n else s],
            if head then b.own[p := o] else b.own, b.used + s)
  }

  /** The block after that range has been erased. */
  function Unmark(sp: Span, b: Block, l: Loc, n: nat): Block
    requires Sized(sp, b)
  {
    if !Touches(sp, l, n) then b else
      var p := Lo(sp, l) - sp.begin;
      var s := Share(sp, l, n);
      Block(Fill(b.bits, p, s, false), b.len[p := 0], b.own[p := NULL], b.used - s)
  }

  lemma {:induction false} AddKeepsWellFormed(h: Heap, l: Loc, n: nat, o: Owner)
    requires WellFormed(h) && Vacant(h, l, n) && n > 0 && o != NULL
    ensures l !in h && WellFormed(h[l := Range(n, o)])
  {
    assert l in h ==> Disjoint(l, h[l].len, l, n);
  }

  lemma {:induction false} CoveredAfterAdd(h: Heap, l: Loc, r: Range, q: Loc)
    requires l !in h
    ensures Covered(h[l := r], q) <==> Covered(h, q) || Covers(l, r, q)
  {
    var h' := h[l := r];
    if Covered(h, q) {
      var k :| k in h && Covers(k, h[k], q);
      assert k in h' && h'[k] == h[k];
    }
    if Covers(l, r, q) { assert l in h' && h'[l] == r; }
  }

  lemma {:induction false} CoveredAfterRemove(h: Heap, l: Loc, q: Loc)
    requires WellFormed(h) && l in h
    ensures Covered(h - {l}, q) <==> Covered(h, q) && !Covers(l, h[l], q)
  {
    var h' := h - {l};
    if Covered(h', q) {
      var k :| k in h' && Covers(k, h'[k], q);
      assert k in h && Disjoint(k, h[k].len, l, h[l].len);
    }
    if Covered(h, q) && !Covers(l, h[l], q) {
      var k :| k in h && Covers(k, h[k], q);
      assert k in h' && Covers(k, h'[k], q);
    }
  }

  /** The bits a new range will take are clear in every block it touches. */
  lemma {:induction false} VacantIsClear(sp: Span, b: Block, h: Heap, l: Loc, n: nat)
    requires Represents(sp, b, h) && Vacant(h, l, n) && Touches(sp, l, n)
    ensures forall q :: Lo(sp, l) - sp.begin <= q < Hi(sp, l, n) - sp.begin ==> !b.bits[q]
  {
    forall q | Lo(sp, l) - sp.begin <= q < Hi(sp, l, n) - sp.begin ensures !b.bits[q] {
      assert PageOk(sp, b, h, q);
      forall k | k in h ensures !Covers(k, h[k], Loc(sp.lane, sp.begin + q)) {
        assert Disjoint(k, h[k].len, l, n);
      }
    }
  }

  /** Clear bits are exactly a vacant range, within one block. */
  lemma {:induction false} ClearIffVacant(sp: Span, b: Block, h: Heap, p: nat, n: nat)
    requires Represents(sp, b, h) && WellFormed(h)
    requires p + n <= sp.count && n > 0
    ensures FreeRun(b.bits, p, n) <==> Vacant(h, Loc(sp.lane, sp.begin + p), n)
  {
    var l := Loc(sp.lane, sp.begin + p);
    if FreeRun(b.bits, p, n) {
      forall k | k in h ensures Disjoint(k, h[k].len, l, n) {
        var q := Max(k.pos, sp.begin + p) - sp.begin;
        if q < p + n {
          assert PageOk(sp, b, h, q);
          assert !Covers(k, h[k], Loc(sp.lane, sp.begin + q));
        }
      }
    }
    if Vacant(h, l, n) { VacantIsClear(sp, b, h, l, n); }
  }

  lemma {:induction false} MarkPage(sp: Span, b: Block, h: Heap, l: Loc, n: nat, o: Owner, q: nat)
    requires WellFormed(h) && Represents(sp, b, h) && Vacant(h, l, n) && n > 0 && o != NULL
    requires q < sp.count
    ensures Sized(sp, Mark(sp, b, l, n, o))
    ensures PageOk(sp, Mark(sp, b, l, n, o), h[l := Range(n, o)], q)
  {
    AddKeepsWellFormed(h, l, n, o);
    assert PageOk(sp, b, h, q);
    CoveredAfterAdd(h, l, Range(n, o), Loc(sp.lane, sp.begin + q));
    var at := Loc(sp.lane, sp.begin + q);
    assert at in h ==> Disjoint(at, h[at].len, l, n);
  }

  lemma {:induction false} MarkContinuation(sp: Span, b: Block, h: Heap, l: Loc, n: nat, o: Owner)
    requires WellFormed(h) && Represents(sp, b, h) && Vacant(h, l, n) && n > 0 && o != NULL
    requires Sized(sp, Mark(sp, b, l, n, o))
    ensures ContinuationOk(sp, Mark(sp, b, l, n, o), h[l := Range(n, o)])
  {
    var b' := Mark(sp, b, l, n, o);
    var h' := h[l := Range(n, o)];
    var first := Loc(sp.lane, sp.begin);
    if sp.count > 0 && first !in h' {
      assert PageOk(sp, b, h, 0);
      forall k | k in h' && Covers(k, h'[k], first)
        ensures b'.len[0] == Min(sp.count, k.pos + h'[k].len - sp.begin)
      {
        if k != l {
          assert k in h && Disjoint(k, h[k].len, l, n);
        }
      }
    }
  }

  /** Only a page in use has an owner. */
  lemma {:induction false} OwnedIsSet(sp: Span, b: Block, h: Heap, q: nat)
    requires Represents(sp, b, h) && WellFormed(h) && q < sp.count && b.own[q] != NULL
    ensures b.bits[q]
  {
    var l := Loc(sp.lane, sp.begin + q);
    assert PageOk(sp, b, h, q);
    assert Covers(l, h[l], l);
  }

  /** Writing a vacant range down in a block keeps the block in step. */
  lemma {:induction false} MarkRepresents(sp: Span, b: Block, h: Heap, l: Loc, n: nat, o: Owner)
    requires WellFormed(h) && Represents(sp, b, h) && Vacant(h, l, n) && n > 0 && o != NULL
    ensures Represents(sp, Mark(sp, b, l, n, o), h[l := Range(n, o)])
  {
    var b' := Mark(sp, b, l, n, o);
    var h' := h[l := Range(n, o)];
    assert Sized(sp, b');
    forall q | 0 <= q < sp.count ensures PageOk(sp, b', h', q) {
      MarkPage(sp, b, h, l, n, o, q);
    }
    MarkContinuation(sp, b, h, l, n, o);
    if Touches(sp, l, n) {
      VacantIsClear(sp, b, h, l, n);
      CountFill(b.bits, Lo(sp, l) - sp.begin, Share(sp, l, n), true);
    }
  }

  lemma {:induction false} UnmarkPage(sp: Span, b: Block, h: Heap, l: Loc, q: nat)
    requires WellFormed(h) && Represents(sp, b, h) && l in h
    requires q < sp.count
    ensures PageOk(sp, Unmark(sp, b, l, h[l].len), h - {l}, q)
  {
    assert PageOk(sp, b, h, q);
    var at := Loc(sp.lane, sp.begin + q);
    CoveredAfterRemove(h, l, at);
    if at in h && at != l { assert Disjoint(at, h[at].len, l, h[l].len); }
  }

  lemma {:induction false} UnmarkContinuation(sp: Span, b: Block, h: Heap, l: Loc)
    requires WellFormed(h) && Represents(sp, b, h) && l in h
    ensures ContinuationOk(sp, Unmark(sp, b, l, h[l].len), h - {l})
  {
    var n := h[l].len;
    var b' := Unmark(sp, b, l, n);
    var h' := h - {l};
    var first := Loc(sp.lane, sp.begin);
    if sp.count > 0 && first !in h' {
      assert PageOk(sp, b, h, 0);
      if !b'.bits[0] && b.bits[0] { assert Touches(sp, l, n) && Lo(sp, l) == sp.begin; }
      forall k | k in h' && Covers(k, h'[k], first)
        ensures b'.len[0] == Min(sp.count, k.pos + h'[k].len - sp.begin)
      {
        assert k in h && Disjoint(k, h[k].len, l, n);
      }
    }
  }

  /** Erasing a live range from a block keeps the block in step. */
  lemma {:induction false} UnmarkRepresents(sp: Span, b: Block, h: Heap, l: Loc)
    requires WellFormed(h) && Represents(sp, b, h) && l in h
    ensures Represents(sp, Unmark(sp, b, l, h[l].len), h - {l})
  {
    var n := h[l].len;
    var b' := Unmark(sp, b, l, n);
    var h' := h - {l};
    forall q | 0 <= q < sp.count ensures PageOk(sp, b', h', q) {
      UnmarkPage(sp, b, h, l, q);
    }
    UnmarkContinuation(sp, b, h, l);
    if Touches(sp, l, n) {
      var p := Lo(sp, l) - sp.begin;
      forall q | p <= q < p + Share(sp, l, n) ensures b.bits[q] {
        assert PageOk(sp, b, h, q);
        assert Covers(l, h[l], Loc(sp.lane, sp.begin + q));
      }
      CountFill(b.bits, p, Share(sp, l, n), false);
    }
  }

  /** The live ranges determine every table of a block. */
  lemma {:induction false} RepresentsUnique(sp: Span, b: Block, c: Block, h: Heap)
    requires Represents(sp, b, h) && Represents(sp, c, h)
    ensures b == c
  {
    forall q | 0 <= q < sp.count
      ensures b.bits[q] == c.bits[q] && b.len[q] == c.len[q] && b.own[q] == c.own[q]
    {
      assert PageOk(sp, b, h, q) && PageOk(sp, c, h, q);
      if q == 0 && Loc(sp.lane, sp.begin) !in h && b.bits[0] {
        var k :| k in h && Covers(k, h[k], Loc(sp.lane, sp.begin));
      }
    }
    assert b.bits == c.bits && b.len == c.len && b.own == c.own;
  }

  // ----- scanning a block for the ranges of one owner -----

  /** A range from an earlier block runs into this one. */
  ghost predicate Continued(sp: Span, h: Heap) {
    sp.count > 0 && Loc(sp.lane, sp.begin) !in h && Covered(h, Loc(sp.lane, sp.begin))
  }

  /** Without an owner to compare with, the tests of a free pass exactly on the
      first page of a block that a range from an earlier block runs into. */
  lemma {:induction false} ShareEntry(sp: Span, b: Block, h: Heap, p: nat)
    requires WellFormed(h) && Represents(sp, b, h) && p < sp.count
    ensures (b.len[p] != 0 && b.own[p] == NULL) <==> (p == 0 && Continued(sp, h))
    ensures p == 0 && Continued(sp, h) ==> b.bits[0] && b.len[0] <= sp.count
  {
    var l := Loc(sp.lane, sp.begin + p);
    assert PageOk(sp, b, h, p);
    if p == 0 && l !in h && Covered(h, l) {
      var k :| k in h && Covers(k, h[k], l);
      assert b.len[0] == Min(sp.count, k.pos + h[k].len - sp.begin);
    }
  }

  /** The owner can be told from the missing one on a share: it is named, or
      the block has no such share. */
  ghost predicate NamedIn(sp: Span, h: Heap, o: Owner) {
    o != NULL || !Continued(sp, h)
  }

  /** With an owner that can be told they pass exactly on first pages of live
      ranges of that owner. */
  lemma {:induction false} EntryOf(sp: Span, b: Block, h: Heap, p: nat, o: Owner)
    requires WellFormed(h) && Represents(sp, b, h) && p < sp.count && (p == 0 ==> NamedIn(sp, h, o))
    ensures var l := Loc(sp.lane, sp.begin + p);
      && ((b.len[p] != 0 && b.own[p] == o) <==> (l in h && h[l].owner == o))
      && (l in h ==> b.len[p] == h[l].len)
  {
    assert PageOk(sp, b, h, p);
    if o == NULL { ShareEntry(sp, b, h, p); }
  }

  /** The two together: what the tests find on any page for any owner. */
  lemma {:induction false} EntryOrShare(sp: Span, b: Block, h: Heap, p: nat, o: Owner)
    requires WellFormed(h) && Represents(sp, b, h) && p < sp.count
    ensures var l := Loc(sp.lane, sp.begin + p);
      && (l in h ==> b.len[p] == h[l].len)
      && if p > 0 || NamedIn(sp, h, o) then (b.len[p] != 0 && b.own[p] == o) <==> (l in h && h[l].owner == o)
         else l !in h && b.own[p] == o && 0 < b.len[p] <= sp.count
  {
    if p > 0 || NamedIn(sp, h, o) { EntryOf(sp, b, h, p, o); } else { ShareEntry(sp, b, h, p); }
  }

  /** The live ranges of every owner but `o`. */
  ghost function Without(h: Heap, o: Owner): Heap {
    map k | k in h && h[k].owner != o :: h[k]
  }

  /** `h` is `h0` less some ranges of owner `o`. */
  ghost predicate Pruned(h0: Heap, h: Heap, o: Owner) {
    && (forall k :: k in h ==> k in h0 && h[k] == h0[k])
    && (forall k :: k in h0 && k !in h ==> h0[k].owner == o)
  }

  /** No range that starts in the block below page `p` has owner `o`. */
  ghost predicate NoneBelow(sp: Span, h: Heap, o: Owner, p: int) {
    forall k :: k in h && k.lane == sp.lane && sp.begin <= k.pos < sp.begin + p ==> h[k].owner != o
  }

  /** Page `p` is where a scan may stand: no range that starts in the block
      runs across it. */
  ghost predicate AtBoundary(sp: Span, h: Heap, p: int) {
    p == 0 || p >= sp.count
    || forall k :: k in h && k.lane == sp.lane && k.pos < sp.begin + p ==> k.pos + h[k].len <= sp.begin + p
  }

  lemma {:induction false} PrunedKeeps(sp: Span, h0: Heap, h: Heap, o: Owner, o': Owner, p: int)
    requires Pruned(h0, h, o')
    ensures NoneBelow(sp, h0, o, p) ==> NoneBelow(sp, h, o, p)
    ensures AtBoundary(sp, h0, p) ==> AtBoundary(sp, h, p)
  {
  }

  /** The range that covers the bit found starts there or came in from before. */
  lemma {:induction false} ScanCover(sp: Span, b: Block, h: Heap, p: nat, at: nat, c: Loc)
    requires WellFormed(h) && Represents(sp, b, h) && AtBoundary(sp, h, p)
    requires p <= at < sp.count && b.bits[at] && forall q :: p <= q < at ==> !b.bits[q]
    requires c in h && Covers(c, h[c], Loc(sp.lane, sp.begin + at))
    ensures if c == Loc(sp.lane, sp.begin + at) then b.len[at] == h[c].len
      else at == 0 && c.pos < sp.begin && Loc(sp.lane, sp.begin) !in h
           && b.len[at] == Min(sp.count, c.pos + h[c].len - sp.begin)
  {
    var l := Loc(sp.lane, sp.begin + at);
    assert PageOk(sp, b, h, at);
    if at > p {
      assert PageOk(sp, b, h, at - 1);
      assert !Covers(c, h[c], Loc(sp.lane, sp.begin + at - 1));
    }
    assert l in h && c != l ==> Disjoint(c, h[c].len, l, h[l].len);
  }

  /** The first set bit at or after a boundary starts a range, or is the share
      of one that came in from an earlier block. Either way its table entry is
      not zero and leads to the next boundary; on the way only that range of
      the owner can start. */
  lemma {:induction false} ScanStep(sp: Span, b: Block, h: Heap, o: Owner, p: nat, at: nat)
    requires WellFormed(h) && Represents(sp, b, h) && NamedIn(sp, h, o)
    requires AtBoundary(sp, h, p) && NoneBelow(sp, h, o, p)
    requires p <= at < sp.count && b.bits[at] && forall q :: p <= q < at ==> !b.bits[q]
    ensures b.len[at] > 0
    ensures AtBoundary(sp, h, at + b.len[at])
    ensures var l := Loc(sp.lane, sp.begin + at);
      && (b.own[at] == o <==> l in h && h[l].owner == o)
      && (b.own[at] != o ==> NoneBelow(sp, h, o, at + b.len[at]))
      && (l in h ==> NoneBelow(sp, h - {l}, o, at + b.len[at]))
  {
    var l := Loc(sp.lane, sp.begin + at);
    assert PageOk(sp, b, h, at);
    var c :| c in h && Covers(c, h[c], l);
    ScanCover(sp, b, h, p, at, c);
    forall k | k in h && k != c && k.lane == sp.lane
      ensures k.pos + h[k].len <= c.pos || c.pos + h[c].len <= k.pos
    {
      assert Disjoint(k, h[k].len, c, h[c].len);
    }
    forall k | k in h && k.lane == sp.lane && sp.begin <= k.pos < sp.begin + at ensures k.pos < sp.begin + p {
      assert PageOk(sp, b, h, k.pos - sp.begin);
      assert Covers(k, h[k], k);
    }
  }

  /** No set bit left means no range of the owner starts further on. */
  lemma {:induction false} ScanEnd(sp: Span, b: Block, h: Heap, o: Owner, p: nat)
    requires WellFormed(h) && Represents(sp, b, h) && NoneBelow(sp, h, o, p)
    requires forall q :: p <= q < sp.count ==> !b.bits[q]
    ensures NoneBelow(sp, h, o, sp.count)
  {
    forall k | k in h && k.lane == sp.lane && sp.begin <= k.pos < sp.begin + sp.count
      ensures h[k].owner != o
    {
      assert PageOk(sp, b, h, k.pos - sp.begin);
      assert Covers(k, h[k], k);
    }
  }

  /** Where a scan for owner `o` that started from `h0` stands at page `p`. */
  ghost predicate ScanAt(sp: Span, h0: Heap, h: Heap, o: Owner, p: int) {
    Pruned(h0, h, o) && AtBoundary(sp, h, p) && NoneBelow(sp, h, o, p)
  }

  lemma {:induction false} ScanMoves(sp: Span, b: Block, h0: Heap, h: Heap, o: Owner, p: nat, at: nat)
    requires WellFormed(h) && Represents(sp, b, h) && NamedIn(sp, h, o) && ScanAt(sp, h0, h, o, p)
    requires p <= at < sp.count && b.bits[at] && forall q :: p <= q < at ==> !b.bits[q]
    ensures b.len[at] > 0
    ensures var l := Loc(sp.lane, sp.begin + at);
      if b.own[at] == o then l in h && h[l].owner == o && ScanAt(sp, h0, h - {l}, o, at + b.len[at])
      else ScanAt(sp, h0, h, o, at + b.len[at])
  {
    ScanStep(sp, b, h, o, p, at);
  }

  /** What a scan finds where it lands: a range of the owner, something it goes
      past, or, with no owner to tell it by, the share at the start. */
  ghost predicate Landed(sp: Span, b: Block, h0: Heap, h: Heap, o: Owner, at: nat, size: nat, mine: bool)
    requires Sized(sp, b) && at < sp.count
  {
    var l := Loc(sp.lane, sp.begin + at);
    && size == b.len[at] > 0 && mine == (b.own[at] == o)
    && if !NamedIn(sp, h, o) then at == 0 && mine
       else if mine then l in h && h[l].owner == o && ScanAt(sp, h0, h - {l}, o, at + size)
       else ScanAt(sp, h0, h, o, at + size)
  }

  lemma {:induction false} LandsOn(sp: Span, b: Block, h0: Heap, h: Heap, o: Owner, p: nat, at: nat)
    requires WellFormed(h) && Represents(sp, b, h) && (NamedIn(sp, h, o) || p == 0) && ScanAt(sp, h0, h, o, p)
    requires p <= at < sp.count && b.bits[at] && forall q :: p <= q < at ==> !b.bits[q]
    ensures Landed(sp, b, h0, h, o, at, b.len[at], b.own[at] == o)
  {
    if NamedIn(sp, h, o) { ScanMoves(sp, b, h0, h, o, p, at); } else { ShareEntry(sp, b, h, 0); }
  }
}
