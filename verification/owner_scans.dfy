/** kl_mm_free_by_owner among other threads: the scan of one thread, step by step,
    while the others go on allocating for other owners and freeing. */
module OwnerScans {
  import opened Wrappers
  import opened LiveRanges
  import opened Layout
  import opened PageTables
  import opened ConcurrentTables
  import L = LockProtocol
  import F = HugeFrees

  /** The tables, and where thread `t` stands in its scan for owner `o`: it has
      been through the blocks below `k` and through the pages below `p` of that. */
  datatype Scan = Scan(c: Conc, t: nat, o: nat, k: nat, p: nat)

  /** A step of the run: one of another thread, or of the scan. */
  datatype Event = Other(call: Call) | Own

  predicate Valid(ms: seq<MemInfo>, s: Scan) {
    AllMain(ms) && WellSized(ms, s.c)
  }

  function ThreadOf(call: Call): nat {
    match call
    case Plain(a) => a.t
    case Try(t, _, _) => t
    case FreeAt(t, _, _) => t
    case HugeTry(t, _, _) => t
    case HugeFree(t) => t
  }

  /** The call allocates for the owner. */
  predicate AllocatesFor(call: Call, o: nat) {
    (call.Try? || call.HugeTry?) && call.o == o
  }

  /** find_next_bit */
  function NextSet(bits: seq<bool>, start: nat): (r: Option<nat>)
    ensures r.Some? ==> start <= r.value < |bits| && bits[r.value]
    ensures forall q :: start <= q < (if r.Some? then r.value else |bits|) ==> !bits[q]
    decreases |bits| - start
  {
    if start >= |bits| then None
    else if bits[start] then Some(start)
    else NextSet(bits, start + 1)
  }

  /** The page the scan of a block lands on. */
  ghost function Lands(ms: seq<MemInfo>, s: Scan): (r: Option<nat>)
    requires Valid(ms, s) && s.k < |ms|
    ensures r.Some? ==> s.p <= r.value < ms[s.k].PageCount()
  {
    NextSet(s.c.sys.blocks[s.k], s.p)
  }

  /** The call the scan makes where it stands; a page of another owner it goes
      past without one. */
  ghost function OwnCall(ms: seq<MemInfo>, s: Scan): Option<Call>
    requires Valid(ms, s) && s.k < |ms|
  {
    match L.PcOf(s.c.sys, s.t)
    case Idle => Some(Plain(L.Start(s.t, s.k)))
    case Want(_) => Some(Plain(L.Take(s.t)))
    case Hold(_) =>
      var at := Lands(ms, s);
      if at.None? then Some(Plain(L.Leave(s.t)))
      else if s.c.tabs[s.k].own[at.value] == Session(s.o) then Some(FreeAt(s.t, at.value, s.o))
      else None
    case Locking(j, _) => if j < |ms| then Some(Plain(L.Lock(s.t))) else Some(HugeFree(s.t))
    case Copying(_, _) => Some(Plain(L.Copy(s.t)))
    case CopyBack(_, _, _, _) => Some(Plain(L.Back(s.t)))
    case Releasing(_, _, _, _) => Some(Plain(L.Unlock(s.t)))
    case Stuck => None
  }

  /** The step can be taken; no free in it is the second of its allocation. */
  ghost predicate Can(ms: seq<MemInfo>, s: Scan, e: Event)
    requires Valid(ms, s)
  {
    match e
    case Other(call) =>
      Guard(ms, s.c, call) && Single(ms, s.c, call) && ThreadOf(call) != s.t && !AllocatesFor(call, s.o)
    case Own =>
      && s.k < |ms|
      && var call := OwnCall(ms, s);
         call.Some? ==> Guard(ms, s.c, call.value) && Single(ms, s.c, call.value)
  }

  /** The state after the step. */
  ghost function Step(ms: seq<MemInfo>, s: Scan, e: Event): Scan
    requires Valid(ms, s) && Can(ms, s, e)
  {
    match e
    case Other(call) => s.(c := Next(ms, s.c, call))
    case Own =>
      var call := OwnCall(ms, s);
      var s1 := if call.Some? then s.(c := Next(ms, s.c, call.value)) else s;
      if L.PcOf(s.c.sys, s.t).Hold? then
        var at := Lands(ms, s);
        if at.None? then s1.(k := s.k + 1, p := 0) else s1.(p := at.value + s.c.tabs[s.k].len[at.value])
      else s1
  }

  // ----- what the scan keeps -----

  /** The map less the range that the scan has on its way to the huge path. */
  ghost function AheadOf(h: Heap, pc: L.Pc): Heap {
    var j := L.Pending(pc);
    if j.Some? && j.value.Free? then h - {Loc(0, j.value.g)} else h
  }

  ghost function Ahead(s: Scan): Heap {
    AheadOf(HeapOf(s.c.sys.heads), L.PcOf(s.c.sys, s.t))
  }

  /** The thread is at a place of the scan's code; `count` is the length of the
      block it is in, one of `n`. */
  predicate InPlace(pc: L.Pc, n: nat, k: nat, p: nat, count: nat) {
    match pc
    case Idle => p == 0
    case Want(j) => j == k < n && (p == 0 || p >= count)
    case Hold(j) => j == k < n
    case Locking(_, job) => k < n && job.Free? && job.home == k && p >= count
    case Copying(_, job) => k < n && job.Free? && job.home == k && p >= count
    case CopyBack(_, _, _, job) => k < n && job.Free? && job.home == k && p >= count
    case Releasing(_, _, _, job) => k < n && job.Free? && job.home == k && p >= count
    case Stuck => false
  }

  /** The pages of the block the scan is in. */
  function Pages(ms: seq<MemInfo>, k: nat): nat {
    if k < |ms| then ms[k].PageCount() else 0
  }

  /** No range of the owner starts in the blocks below `k` or the pages below
      `p` of that, and none that starts earlier runs across that page. */
  ghost predicate Behind(ms: seq<MemInfo>, o: Owner, k: nat, p: nat, h: Heap) {
    && (forall j {:trigger SpanOf(ms, j)} :: 0 <= j < k && j < |ms| ==>
          NoneBelow(SpanOf(ms, j), h, o, ms[j].PageCount()))
    && (k < |ms| ==> NoneBelow(SpanOf(ms, k), h, o, p) && AtBoundary(SpanOf(ms, k), h, p))
  }

  ghost predicate Scanning(ms: seq<MemInfo>, s: Scan) {
    && Sound(ms, s.c)
    && InPlace(L.PcOf(s.c.sys, s.t), |ms|, s.k, s.p, Pages(ms, s.k))
    && Behind(ms, Session(s.o), s.k, s.p, Ahead(s))
  }

  // ----- steps of other threads -----

  /** A new range is another owner's and does not lie across the scan's page. */
  ghost predicate NewOk(ms: seq<MemInfo>, o: Owner, k: nat, p: nat, l: Loc, r: Range) {
    && r.owner != o
    && (k < |ms| && 0 < p < ms[k].PageCount() ==>
          var sp := SpanOf(ms, k);
          l.lane != sp.lane || l.pos + r.len <= sp.begin + p || sp.begin + p <= l.pos)
  }

  /** Every range of `h'` was there before or is such a new one. */
  ghost predicate Within(ms: seq<MemInfo>, o: Owner, k: nat, p: nat, h: Heap, h': Heap) {
    forall l :: l in h' ==> (l in h && h'[l] == h[l]) || NewOk(ms, o, k, p, l, h'[l])
  }

  lemma {:induction false} BehindKept(ms: seq<MemInfo>, o: Owner, k: nat, p: nat, h: Heap, h': Heap)
    requires Behind(ms, o, k, p, h) && Within(ms, o, k, p, h, h')
    ensures Behind(ms, o, k, p, h')
  {
    forall j | 0 <= j < k && j < |ms| ensures NoneBelow(SpanOf(ms, j), h', o, ms[j].PageCount()) {
      assert NoneBelow(SpanOf(ms, j), h, o, ms[j].PageCount());
    }
  }

  /** A range inside another block does not lie across a page of this one. */
  lemma {:induction false} OtherBlock(ms: seq<MemInfo>, j: nat, q: nat, n: nat, k: nat, p: nat)
    requires AllMain(ms) && j < |ms| && k < |ms| && j != k && q + n <= ms[j].PageCount() && p <= ms[k].PageCount()
    ensures var l := LocOf(ms, j, q);
      l.pos + n <= SpanOf(ms, k).begin + p || SpanOf(ms, k).begin + p <= l.pos
  {
    assert IsMain(ms, j) && IsMain(ms, k);
    if j < k { MainBeginMono(ms, j, k); } else { MainBeginMono(ms, k, j); }
  }

  /** What a call of another thread does to the map, seen from the scan. */
  lemma {:induction false} MoveWithin(ms: seq<MemInfo>, o: nat, k: nat, p: nat, h: Heap, h': Heap, e: Effect)
    requires AllMain(ms) && MapMove(ms, h, h', e)
    requires e.TryIn? || e.Huge? ==> e.o != o
    requires k < |ms| && 0 < p < ms[k].PageCount() ==> !e.Huge? && (e.TryIn? ==> e.k != k)
    ensures Within(ms, Session(o), k, p, h, h')
  {
    if e.TryIn? && h' != h && k < |ms| && 0 < p < ms[k].PageCount() {
      var q: nat :| LowestIn(ms, h, e.k, e.n, q) && h' == h[LocOf(ms, e.k, q) := Range(e.n, Session(e.o))];
      OtherBlock(ms, e.k, q, e.n, k, p);
    }
  }

  /** In the middle of a block the scan holds its lock: no other thread works on
      the block, and none has all locks. */
  lemma {:induction false} LockKeepsOut(ms: seq<MemInfo>, s: Scan, call: Call)
    requires Valid(ms, s) && L.Inv(|ms|, s.c.sys) && s.k < |ms| && L.PcOf(s.c.sys, s.t) == L.Hold(s.k)
    requires Guard(ms, s.c, call) && ThreadOf(call) != s.t
    ensures !call.HugeTry? && (call.Try? ==> L.PcOf(s.c.sys, call.t).k != s.k)
  {
    assert L.Holds(|ms|, L.PcOf(s.c.sys, s.t), s.k);
    assert s.c.sys.locks[s.k] == Some(s.t);
    assert !L.Holds(|ms|, L.PcOf(s.c.sys, ThreadOf(call)), s.k);
  }

  /** A step leaves the other threads where they are. */
  lemma {:induction false} PcStays(ms: seq<MemInfo>, c: Conc, call: Call, t: nat)
    requires AllMain(ms) && WellSized(ms, c) && Guard(ms, c, call) && ThreadOf(call) != t
    requires ActionOf(ms, c, call).Some? ==> L.Enabled(|ms|, c.sys, ActionOf(ms, c, call).value)
    ensures L.PcOf(Next(ms, c, call).sys, t) == L.PcOf(c.sys, t)
  {
    var a := ActionOf(ms, c, call);
    if a.Some? { assert a.value.t == ThreadOf(call); }
  }

  lemma {:induction false} OtherKeeps(ms: seq<MemInfo>, s: Scan, call: Call)
    requires Scanning(ms, s) && Can(ms, s, Other(call))
    ensures Scanning(ms, Step(ms, s, Other(call)))
  {
    StepSound(ms, s.c, call);
    PcStays(ms, s.c, call, s.t);
    var s' := Step(ms, s, Other(call));
    var h, h' := HeapOf(s.c.sys.heads), HeapOf(s'.c.sys.heads);
    if s.k < |ms| && 0 < s.p < ms[s.k].PageCount() { LockKeepsOut(ms, s, call); }
    MoveWithin(ms, s.o, s.k, s.p, h, h', EffectOf(ms, s.c, call));
    BehindKept(ms, Session(s.o), s.k, s.p, Ahead(s), Ahead(s'));
  }

  // ----- the scan's own steps -----

  /** A step outside the block's lock leads to the next place of the code. */
  lemma {:induction false} PlainPlace(n: nat, s: L.Sys, a: L.Action, k: nat, p: nat, count: nat)
    requires |s.locks| == |s.blocks| == |s.shadow| == n && L.Enabled(n, s, a)
    requires InPlace(L.PcOf(s, a.t), n, k, p, count)
    requires (a.Start? && a.k == k) || a.Take? || a.Lock? || a.Copy? || a.Back? || a.Unlock?
    ensures var r := L.Do(n, s, a);
      && r.heads == s.heads && InPlace(L.PcOf(r, a.t), n, k, p, count)
      && L.Pending(L.PcOf(r, a.t)) == L.Pending(L.PcOf(s, a.t))
  {
  }

  lemma {:induction false} OwnPlain(ms: seq<MemInfo>, s: Scan)
    requires Scanning(ms, s) && Can(ms, s, Own) && !L.PcOf(s.c.sys, s.t).Hold?
    requires OwnCall(ms, s).Some? && OwnCall(ms, s).value.Plain?
    ensures Scanning(ms, Step(ms, s, Own))
  {
    var call := OwnCall(ms, s).value;
    StepSound(ms, s.c, call);
    PlainPlace(|ms|, s.c.sys, call.a, s.k, s.p, Pages(ms, s.k));
  }

  lemma {:induction false} HugePlace(n: nat, s: L.Sys, a: L.Action, k: nat, p: nat, count: nat)
    requires |s.locks| == |s.blocks| == |s.shadow| == n && L.Enabled(n, s, a) && a.Change?
    requires L.PcOf(s, a.t).job.Free? && InPlace(L.PcOf(s, a.t), n, k, p, count)
    requires !L.PcOf(L.Do(n, s, a), a.t).Stuck?
    ensures var r := L.Do(n, s, a);
      && r.heads == s.heads - {L.PcOf(s, a.t).job.g} && InPlace(L.PcOf(r, a.t), n, k, p, count)
      && L.Pending(L.PcOf(r, a.t)).None?
  {
  }

  /** The range that was on its way to the huge path goes. */
  lemma {:induction false} OwnHuge(ms: seq<MemInfo>, s: Scan)
    requires Scanning(ms, s) && Can(ms, s, Own)
    requires L.PcOf(s.c.sys, s.t).Locking? && L.PcOf(s.c.sys, s.t).k == |ms|
    ensures Scanning(ms, Step(ms, s, Own))
  {
    StepSound(ms, s.c, HugeFree(s.t));
    var a := ActionOf(ms, s.c, HugeFree(s.t)).value;
    var c' := Next(ms, s.c, HugeFree(s.t));
    assert !L.PcOf(c'.sys, s.t).Stuck?;
    HugePlace(|ms|, s.c.sys, a, s.k, s.p, Pages(ms, s.k));
    HeapOfRemove(s.c.sys.heads, L.PcOf(s.c.sys, s.t).job.g);
  }

  /** The block as the scan sees it is the block as everybody will see it. */
  lemma {:induction false} SeesBlock(ms: seq<MemInfo>, s: Scan)
    requires Sound(ms, s.c) && s.k < |ms| && L.PcOf(s.c.sys, s.t) == L.Hold(s.k)
    ensures var b := Seen(s.c)[s.k];
      && Represents(SpanOf(ms, s.k), b, HeapOf(s.c.sys.heads)) && WellFormed(HeapOf(s.c.sys.heads))
      && b.bits == s.c.sys.blocks[s.k] && b.len == s.c.tabs[s.k].len && b.own == s.c.tabs[s.k].own
  {
    HeldIsSeen(ms, s.c, s.t);
    assert Blocks(s.c)[s.k].bits == s.c.sys.blocks[s.k];
  }

  /** With one block more behind it the scan stands at the start of the next. */
  lemma {:induction false} BehindNext(ms: seq<MemInfo>, o: Owner, k: nat, p: nat, h: Heap)
    requires Behind(ms, o, k, p, h) && k < |ms| && NoneBelow(SpanOf(ms, k), h, o, ms[k].PageCount())
    ensures Behind(ms, o, k + 1, 0, h)
  {
    forall j | 0 <= j < k + 1 && j < |ms| ensures NoneBelow(SpanOf(ms, j), h, o, ms[j].PageCount()) {
      if j < k { assert NoneBelow(SpanOf(ms, j), h, o, ms[j].PageCount()); }
    }
  }

  lemma {:induction false} OwnLeave(ms: seq<MemInfo>, s: Scan)
    requires Scanning(ms, s) && Can(ms, s, Own) && L.PcOf(s.c.sys, s.t).Hold? && Lands(ms, s).None?
    ensures Scanning(ms, Step(ms, s, Own))
  {
    SeesBlock(ms, s);
    var h := HeapOf(s.c.sys.heads);
    ScanEnd(SpanOf(ms, s.k), Seen(s.c)[s.k], h, Session(s.o), s.p);
    StepSound(ms, s.c, Plain(L.Leave(s.t)));
    BehindNext(ms, Session(s.o), s.k, s.p, h);
  }

  /** What a scan that lands on page `at` finds in the block. */
  lemma {:induction false} FindsAt(sp: Span, b: Block, h: Heap, o: Owner, p: nat, at: nat, next: nat, l: Loc)
    requires WellFormed(h) && Represents(sp, b, h) && AtBoundary(sp, h, p) && NoneBelow(sp, h, o, p) && o != NULL
    requires NextSet(b.bits, p) == Some(at) && at < sp.count && next == at + b.len[at]
    requires l == Loc(sp.lane, sp.begin + at)
    ensures at < next && AtBoundary(sp, h, next)
    ensures b.own[at] != o ==> NoneBelow(sp, h, o, next)
    ensures b.own[at] == o ==>
      l in h && h[l] == Range(b.len[at], o) && NoneBelow(sp, h - {l}, o, next) && AtBoundary(sp, h - {l}, next)
  {
    ScanStep(sp, b, h, o, p, at);
    assert PageOk(sp, b, h, at);
  }

  /** The same in the tables the scan reads. */
  lemma {:induction false} LandsAt(ms: seq<MemInfo>, s: Scan, at: nat, next: nat, h: Heap, l: Loc, sp: Span)
    requires Sound(ms, s.c) && h == HeapOf(s.c.sys.heads) && Behind(ms, Session(s.o), s.k, s.p, h)
    requires s.k < |ms| && L.PcOf(s.c.sys, s.t) == L.Hold(s.k) && Lands(ms, s) == Some(at)
    requires next == at + s.c.tabs[s.k].len[at] && l == LocOf(ms, s.k, at) && sp == SpanOf(ms, s.k)
    ensures at < next && AtBoundary(sp, h, next)
    ensures s.c.tabs[s.k].own[at] != Session(s.o) ==> NoneBelow(sp, h, Session(s.o), next)
    ensures s.c.tabs[s.k].own[at] == Session(s.o) ==>
      && l in h && h[l] == Range(s.c.tabs[s.k].len[at], Session(s.o))
      && NoneBelow(sp, h - {l}, Session(s.o), next) && AtBoundary(sp, h - {l}, next)
  {
    SeesBlock(ms, s);
    FindsAt(sp, Seen(s.c)[s.k], h, Session(s.o), s.p, at, next, l);
  }

  lemma {:induction false} OwnSkip(ms: seq<MemInfo>, s: Scan, at: nat)
    requires Scanning(ms, s) && Can(ms, s, Own) && L.PcOf(s.c.sys, s.t).Hold? && Lands(ms, s) == Some(at)
    requires s.c.tabs[s.k].own[at] != Session(s.o)
    ensures Scanning(ms, Step(ms, s, Own))
  {
    LandsAt(ms, s, at, at + s.c.tabs[s.k].len[at], HeapOf(s.c.sys.heads), LocOf(ms, s.k, at), SpanOf(ms, s.k));
  }

  lemma {:induction false} BehindFreed(ms: seq<MemInfo>, o: Owner, k: nat, p: nat, p': nat, h: Heap, h': Heap)
    requires Behind(ms, o, k, p, h) && Pruned(h, h', o) && k < |ms|
    requires NoneBelow(SpanOf(ms, k), h', o, p') && AtBoundary(SpanOf(ms, k), h', p')
    ensures Behind(ms, o, k, p', h')
  {
    forall j | 0 <= j < k && j < |ms| ensures NoneBelow(SpanOf(ms, j), h', o, ms[j].PageCount()) {
      assert NoneBelow(SpanOf(ms, j), h, o, ms[j].PageCount());
    }
  }

  /** With the range the scan has landed on gone, the scan stands behind it. */
  lemma {:induction false} FreedBehind(ms: seq<MemInfo>, s: Scan, at: nat, next: nat, h: Heap, l: Loc)
    requires Sound(ms, s.c) && h == HeapOf(s.c.sys.heads) && Behind(ms, Session(s.o), s.k, s.p, h)
    requires s.k < |ms| && L.PcOf(s.c.sys, s.t) == L.Hold(s.k) && Lands(ms, s) == Some(at)
    requires s.c.tabs[s.k].own[at] == Session(s.o)
    requires next == at + s.c.tabs[s.k].len[at] && l == LocOf(ms, s.k, at)
    ensures FindsHead(ms, s.c, s.k, at, s.o) && Behind(ms, Session(s.o), s.k, next, h - {l})
  {
    LandsAt(ms, s, at, next, h, l, SpanOf(ms, s.k));
    BehindFreed(ms, Session(s.o), s.k, s.p, next, h, h - {l});
  }

  /** A free inside the block takes its range off the map. */
  lemma {:induction false} FreesInside(ms: seq<MemInfo>, c: Conc, t: nat, at: nat, o: nat, k: nat, l: Loc)
    returns (c': Conc)
    requires AllMain(ms) && Exact(ms, c) && L.Inv(|ms|, c.sys) && Guard(ms, c, FreeAt(t, at, o))
    requires L.PcOf(c.sys, t) == L.Hold(k) && FindsHead(ms, c, k, at, o) && at + c.tabs[k].len[at] <= ms[k].PageCount()
    requires l == LocOf(ms, k, at)
    ensures c' == Next(ms, c, FreeAt(t, at, o))
    ensures L.PcOf(c'.sys, t) == L.Hold(k)
    ensures AheadOf(HeapOf(c'.sys.heads), L.Hold(k)) == HeapOf(c.sys.heads) - {l}
  {
    FreeReleases(ms, c, t, at, o, k);
    c' := Next(ms, c, FreeAt(t, at, o));
    var a := ActionOf(ms, c, FreeAt(t, at, o)).value;
    assert a.Release? && c'.sys == L.Do(|ms|, c.sys, a);
  }

  lemma {:induction false} AheadAcross(h: Heap, l: Loc, o: nat, k: nat)
    requires l.lane == 0
    ensures AheadOf(h, L.Locking(0, L.Free(l.pos, o, k))) == h - {l}
  {
    assert Loc(0, l.pos) == l;
  }

  /** A straddling one is on its way to the huge path. */
  lemma {:induction false} FreesAcross(ms: seq<MemInfo>, c: Conc, t: nat, at: nat, o: nat, k: nat, l: Loc)
    returns (c': Conc)
    requires AllMain(ms) && Exact(ms, c) && L.Inv(|ms|, c.sys) && Guard(ms, c, FreeAt(t, at, o))
    requires L.PcOf(c.sys, t) == L.Hold(k) && FindsHead(ms, c, k, at, o) && at + c.tabs[k].len[at] > ms[k].PageCount()
    requires l == LocOf(ms, k, at)
    ensures c' == Next(ms, c, FreeAt(t, at, o)) && L.PcOf(c'.sys, t) == L.Locking(0, L.Free(l.pos, o, k))
    ensures AheadOf(HeapOf(c'.sys.heads), L.Locking(0, L.Free(l.pos, o, k))) == HeapOf(c.sys.heads) - {l}
  {
    var g := MainBegin(ms, k) + at;
    TestsFindHead(ms, c, k, at, g, o);
    assert l == Loc(0, g);
    var a := FreeActs(ms, c, t, at, g, o, k);
    c' := Conc(L.Do(|ms|, c.sys, a), c.tabs);
    assert c'.sys.heads == c.sys.heads;
    AheadAcross(HeapOf(c.sys.heads), l, o, k);
  }

  /** The free in the scan takes its range off the map, or on its way there. */
  lemma {:induction false} FreePlace(ms: seq<MemInfo>, s: Scan, at: nat, l: Loc, s': Scan)
    requires Sound(ms, s.c) && s.k < |ms| && L.PcOf(s.c.sys, s.t) == L.Hold(s.k) && at < ms[s.k].PageCount()
    requires Guard(ms, s.c, FreeAt(s.t, at, s.o)) && FindsHead(ms, s.c, s.k, at, s.o) && l == LocOf(ms, s.k, at)
    requires s' == s.(c := Next(ms, s.c, FreeAt(s.t, at, s.o)), p := at + s.c.tabs[s.k].len[at])
    ensures Ahead(s') == HeapOf(s.c.sys.heads) - {l}
    ensures InPlace(L.PcOf(s'.c.sys, s.t), |ms|, s.k, s'.p, ms[s.k].PageCount())
  {
    if at + s.c.tabs[s.k].len[at] <= ms[s.k].PageCount() {
      var _ := FreesInside(ms, s.c, s.t, at, s.o, s.k, l);
    } else {
      var _ := FreesAcross(ms, s.c, s.t, at, s.o, s.k, l);
    }
  }

  lemma {:induction false} OwnFree(ms: seq<MemInfo>, s: Scan, at: nat, l: Loc, h: Heap, s': Scan)
    requires Scanning(ms, s) && Can(ms, s, Own) && L.PcOf(s.c.sys, s.t).Hold? && Lands(ms, s) == Some(at)
    requires s.c.tabs[s.k].own[at] == Session(s.o) && s' == Step(ms, s, Own)
    requires h == HeapOf(s.c.sys.heads) && l == LocOf(ms, s.k, at)
    ensures Scanning(ms, s')
  {
    var next := at + s.c.tabs[s.k].len[at];
    assert s' == s.(c := Next(ms, s.c, FreeAt(s.t, at, s.o)), p := next);
    FreedBehind(ms, s, at, next, h, l);
    StepSound(ms, s.c, FreeAt(s.t, at, s.o));
    FreePlace(ms, s, at, l, s');
  }

  lemma {:induction false} OwnKeeps(ms: seq<MemInfo>, s: Scan)
    requires Scanning(ms, s) && Can(ms, s, Own)
    ensures Scanning(ms, Step(ms, s, Own))
  {
    var pc := L.PcOf(s.c.sys, s.t);
    if pc.Hold? {
      var at := Lands(ms, s);
      if at.None? { OwnLeave(ms, s); }
      else if s.c.tabs[s.k].own[at.value] == Session(s.o) {
        OwnFree(ms, s, at.value, LocOf(ms, s.k, at.value), HeapOf(s.c.sys.heads), Step(ms, s, Own));
      }
      else { OwnSkip(ms, s, at.value); }
    } else if pc.Locking? && pc.k >= |ms| {
      assert L.PcOk(|ms|, s.c.sys, s.t);
      OwnHuge(ms, s);
    } else {
      OwnPlain(ms, s);
    }
  }

  // ----- whole runs -----

  lemma {:induction false} StepValid(ms: seq<MemInfo>, s: Scan, e: Event)
    requires Valid(ms, s) && Can(ms, s, e)
    ensures Valid(ms, Step(ms, s, e))
  {
    match e
    case Other(call) => NextSized(ms, s.c, call);
    case Own =>
      var call := OwnCall(ms, s);
      if call.Some? { NextSized(ms, s.c, call.value); }
  }

  /** The steps can be taken one after the other. */
  ghost predicate Goes(ms: seq<MemInfo>, s: Scan, es: seq<Event>)
    requires Valid(ms, s)
    decreases |es|
  {
    |es| > 0 ==> Can(ms, s, es[0]) && (StepValid(ms, s, es[0]); Goes(ms, Step(ms, s, es[0]), es[1..]))
  }

  ghost function After(ms: seq<MemInfo>, s: Scan, es: seq<Event>): (r: Scan)
    requires Valid(ms, s) && Goes(ms, s, es)
    ensures Valid(ms, r)
    decreases |es|
  {
    if |es| == 0 then s else StepValid(ms, s, es[0]); After(ms, Step(ms, s, es[0]), es[1..])
  }

  /** An idle thread can start a scan at any time. */
  lemma {:induction false} Starts(ms: seq<MemInfo>, c: Conc, t: nat, o: nat)
    requires Sound(ms, c) && L.PcOf(c.sys, t).Idle?
    ensures Scanning(ms, Scan(c, t, o, 0, 0))
  {
  }

  lemma {:induction false} Rest(ms: seq<MemInfo>, s: Scan, es: seq<Event>) returns (s1: Scan)
    requires Valid(ms, s) && Goes(ms, s, es) && |es| > 0
    ensures Can(ms, s, es[0]) && s1 == Step(ms, s, es[0]) && Valid(ms, s1)
    ensures Goes(ms, s1, es[1..]) && After(ms, s, es) == After(ms, s1, es[1..])
  {
    StepValid(ms, s, es[0]);
    s1 := Step(ms, s, es[0]);
  }

  lemma {:induction false} StepKeepsScanning(ms: seq<MemInfo>, s: Scan, e: Event, s1: Scan)
    requires Scanning(ms, s) && Can(ms, s, e) && s1 == Step(ms, s, e)
    ensures Scanning(ms, s1) && s1.t == s.t && s1.o == s.o
  {
    match e
    case Other(call) => OtherKeeps(ms, s, call);
    case Own => OwnKeeps(ms, s);
  }

  /** No range of the owner is live. */
  ghost predicate HasNothing(h: Heap, o: Owner) {
    forall l :: l in h ==> h[l].owner != o
  }

  /** A scan that is through leaves the owner nothing. */
  lemma {:induction false} ThroughIsNone(ms: seq<MemInfo>, s: Scan)
    requires Scanning(ms, s) && s.k >= |ms|
    ensures L.PcOf(s.c.sys, s.t).Idle? && HasNothing(HeapOf(s.c.sys.heads), Session(s.o))
  {
    var h := HeapOf(s.c.sys.heads);
    assert Ahead(s) == h;
    forall j | 0 <= j < |ms| ensures NoneBelow(SpanOf(ms, j), h, Session(s.o), ms[j].PageCount()) { }
    NoneLeft(ms, h, Session(s.o));
  }

  /** Whatever the other threads do meanwhile, short of allocating for the owner
      or of a second free of one allocation: when the scan is through, the owner
      has nothing left, and all the time the tables are exact. */
  lemma {:induction false} ScanLeavesNone(ms: seq<MemInfo>, s: Scan, es: seq<Event>)
    requires Scanning(ms, s) && Goes(ms, s, es)
    ensures var r := After(ms, s, es);
      && Scanning(ms, r) && r.t == s.t && r.o == s.o
      && (r.k >= |ms| ==> HasNothing(HeapOf(r.c.sys.heads), Session(r.o)))
    decreases |es|
  {
    if |es| == 0 {
      if s.k >= |ms| { ThroughIsNone(ms, s); }
    } else {
      var s1 := Rest(ms, s, es);
      StepKeepsScanning(ms, s, es[0], s1);
      ScanLeavesNone(ms, s1, es[1..]);
    }
  }

  // ----- the scan comes to its end -----

  /** A bound on the steps of the scan from block `j` on. */
  function Todo(ms: seq<MemInfo>, j: nat): nat
    decreases |ms| - j
  {
    if j >= |ms| then 0 else ms[j].PageCount() + 4 * |ms| + 10 + Todo(ms, j + 1)
  }

  /** The steps left of the turn the scan is in; before the end of the block
      that includes one trip through the huge path. */
  function Rank(n: nat, pc: L.Pc, p: nat, count: nat): nat {
    (if pc.Idle? then 3 else F.Work(n, pc)) + if p < count then count - p + 4 * n + 6 else 0
  }

  /** A bound on all steps a scan at page `p` of block `k` has still to take. */
  function LeftAt(ms: seq<MemInfo>, k: nat, p: nat, pc: L.Pc): nat {
    if k >= |ms| then 0 else Todo(ms, k + 1) + Rank(|ms|, pc, p, ms[k].PageCount())
  }

  ghost function Left(ms: seq<MemInfo>, s: Scan): nat {
    LeftAt(ms, s.k, s.p, L.PcOf(s.c.sys, s.t))
  }

  lemma {:induction false} PlainRank(n: nat, s: L.Sys, a: L.Action, p: nat, count: nat)
    requires L.Inv(n, s) && L.Enabled(n, s, a)
    requires a.Start? || a.Take? || a.Lock? || a.Copy? || a.Back? || a.Unlock? || (a.Change? && a.at.None?)
    ensures Rank(n, L.PcOf(L.Do(n, s, a), a.t), p, count) < Rank(n, L.PcOf(s, a.t), p, count)
  {
    assert L.PcOk(n, s, a.t);
  }

  /** A turn goes on in the block... */
  lemma {:induction false} TurnRank(n: nat, k: nat, job: L.Job, p: nat, next: nat, count: nat)
    requires p < next && p < count
    ensures Rank(n, L.Hold(k), next, count) < Rank(n, L.Hold(k), p, count)
    ensures next >= count ==> Rank(n, L.Locking(0, job), next, count) < Rank(n, L.Hold(k), p, count)
  {
  }

  /** ...or with the next. */
  lemma {:induction false} LeaveLeft(ms: seq<MemInfo>, k: nat, p: nat)
    requires k < |ms|
    ensures LeftAt(ms, k + 1, 0, L.Idle) < LeftAt(ms, k, p, L.Hold(k))
  {
  }

  lemma {:induction false} ActsAs(ms: seq<MemInfo>, s: Scan) returns (a: L.Action)
    requires Scanning(ms, s) && Can(ms, s, Own) && !L.PcOf(s.c.sys, s.t).Hold?
    ensures L.Enabled(|ms|, s.c.sys, a) && a.t == s.t
    ensures a.Start? || a.Take? || a.Lock? || a.Copy? || a.Back? || a.Unlock? || (a.Change? && a.at.None?)
    ensures Step(ms, s, Own).c.sys == L.Do(|ms|, s.c.sys, a)
    ensures Step(ms, s, Own).k == s.k && Step(ms, s, Own).p == s.p && Step(ms, s, Own).t == s.t
  {
    assert L.PcOk(|ms|, s.c.sys, s.t);
    var call := OwnCall(ms, s).value;
    StepSound(ms, s.c, call);
    a := ActionOf(ms, s.c, call).value;
  }

  /** A turn of the loop moves the scan on in its block or to the next. */
  lemma {:induction false} TurnFalls(ms: seq<MemInfo>, s: Scan, s': Scan, at: nat, l: Loc)
    requires Scanning(ms, s) && Can(ms, s, Own) && L.PcOf(s.c.sys, s.t).Hold? && s' == Step(ms, s, Own)
    requires Lands(ms, s) == Some(at) && l == LocOf(ms, s.k, at)
    ensures Left(ms, s') < Left(ms, s)
  {
    var h, next := HeapOf(s.c.sys.heads), at + s.c.tabs[s.k].len[at];
    assert s.p <= at < next by { LandsAt(ms, s, at, next, h, l, SpanOf(ms, s.k)); }
    TurnRank(|ms|, s.k, L.Free(l.pos, s.o, s.k), s.p, next, ms[s.k].PageCount());
    if s.c.tabs[s.k].own[at] == Session(s.o) {
      assert FindsHead(ms, s.c, s.k, at, s.o);
      if next <= ms[s.k].PageCount() {
        var _ := FreesInside(ms, s.c, s.t, at, s.o, s.k, l);
      } else {
        var _ := FreesAcross(ms, s.c, s.t, at, s.o, s.k, l);
      }
    }
  }

  lemma {:induction false} LeaveFalls(ms: seq<MemInfo>, s: Scan)
    requires Scanning(ms, s) && Can(ms, s, Own) && L.PcOf(s.c.sys, s.t).Hold? && Lands(ms, s).None?
    ensures Left(ms, Step(ms, s, Own)) < Left(ms, s)
  {
    var s' := Step(ms, s, Own);
    StepSound(ms, s.c, Plain(L.Leave(s.t)));
    assert L.PcOf(s'.c.sys, s.t) == L.Idle && s'.k == s.k + 1 && s'.p == 0;
    LeaveLeft(ms, s.k, s.p);
  }

  lemma {:induction false} PlainFalls(ms: seq<MemInfo>, s: Scan, s': Scan)
    requires Scanning(ms, s) && Can(ms, s, Own) && !L.PcOf(s.c.sys, s.t).Hold? && s' == Step(ms, s, Own)
    ensures Left(ms, s') < Left(ms, s)
  {
    var a := ActsAs(ms, s);
    PlainRank(|ms|, s.c.sys, a, s.p, ms[s.k].PageCount());
  }

  /** Every step of the scan leaves it less to do. */
  lemma {:induction false} OwnFalls(ms: seq<MemInfo>, s: Scan)
    requires Scanning(ms, s) && Can(ms, s, Own)
    ensures Left(ms, Step(ms, s, Own)) < Left(ms, s)
  {
    if !L.PcOf(s.c.sys, s.t).Hold? {
      PlainFalls(ms, s, Step(ms, s, Own));
    } else if Lands(ms, s).Some? {
      var at := Lands(ms, s).value;
      TurnFalls(ms, s, Step(ms, s, Own), at, LocOf(ms, s.k, at));
    } else {
      LeaveFalls(ms, s);
    }
  }

  lemma {:induction false} OtherStays(ms: seq<MemInfo>, s: Scan, call: Call)
    requires Scanning(ms, s) && Can(ms, s, Other(call))
    ensures Left(ms, Step(ms, s, Other(call))) == Left(ms, s)
  {
    StepSound(ms, s.c, call);
    PcStays(ms, s.c, call, s.t);
  }

  function OwnSteps(es: seq<Event>): nat {
    if |es| == 0 then 0 else OwnSteps(es[1..]) + if es[0].Own? then 1 else 0
  }

  /** However the threads interleave, the scan takes no more steps than there are
      left to take when it starts. */
  lemma {:induction false} ScanEnds(ms: seq<MemInfo>, s: Scan, es: seq<Event>)
    requires Scanning(ms, s) && Goes(ms, s, es)
    ensures OwnSteps(es) + Left(ms, After(ms, s, es)) <= Left(ms, s)
    decreases |es|
  {
    if |es| > 0 {
      var s1 := Rest(ms, s, es);
      StepKeepsScanning(ms, s, es[0], s1);
      if es[0].Own? { OwnFalls(ms, s); } else { OtherStays(ms, s, es[0].call); }
      ScanEnds(ms, s1, es[1..]);
    }
  }

  /** Where the thread can go on in the protocol. */
  lemma {:induction false} PlainReady(n: nat, s: L.Sys, t: nat, k: nat)
    requires L.Inv(n, s) && k < n
    requires var w := L.WaitsFor(n, L.PcOf(s, t)); w.Some? ==> s.locks[w.value].None?
    ensures match L.PcOf(s, t)
      case Idle => L.Enabled(n, s, L.Start(t, k))
      case Want(_) => L.Enabled(n, s, L.Take(t))
      case Hold(_) => L.Enabled(n, s, L.Leave(t))
      case Locking(j, _) => if j < n then L.Enabled(n, s, L.Lock(t)) else j == n
      case Copying(_, _) => L.Enabled(n, s, L.Copy(t))
      case CopyBack(_, _, _, _) => L.Enabled(n, s, L.Back(t))
      case Releasing(_, _, _, _) => L.Enabled(n, s, L.Unlock(t))
      case Stuck => true
  {
    assert L.PcOk(n, s, t);
  }

  /** Until it is through, the scan can take its next step unless the lock it
      needs is held, or the step would be a second free. */
  lemma {:induction false} OwnOrWaits(ms: seq<MemInfo>, s: Scan)
    requires Scanning(ms, s) && s.k < |ms|
    requires var w := L.WaitsFor(|ms|, L.PcOf(s.c.sys, s.t)); w.Some? ==> s.c.sys.locks[w.value].None?
    ensures Can(ms, s, Own) <==> OwnCall(ms, s).None? || Single(ms, s.c, OwnCall(ms, s).value)
  {
    PlainReady(|ms|, s.c.sys, s.t, s.k);
    assert L.PcOk(|ms|, s.c.sys, s.t);
    var call := OwnCall(ms, s);
    if call.Some? { assert Guard(ms, s.c, call.value); }
  }
}
