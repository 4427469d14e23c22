/** The MAIN blocks under many threads, tables and all. The threads run the
    protocol of LockProtocol; what they write is computed from the tables they
    see, as the allocator's code does, and in every run the tables stand for a
    map of live ranges that changes one whole call at a time. */
module ConcurrentTables {
  import opened Wrappers
  import opened Bitmaps
  import opened LiveRanges
  import opened Layout
  import opened Memory
  import opened PageTables
  import opened ManagerState
  import L = LockProtocol
  import F = HugeFrees

  /** The tables of a block beside its bitmap. */
  datatype Tab = Tab(len: seq<nat>, own: seq<Owner>, used: int)

  datatype Conc = Conc(sys: L.Sys, tabs: seq<Tab>)

  /** One step of a thread. */
  datatype Call =
    | Plain(a: L.Action)             // start, take or drop a lock, copy
    | Try(t: nat, n: nat, o: nat)    // __malloc_locked on the block held
    | FreeAt(t: nat, p: nat, o: nat) // __free_locked on a page of the block held
    | HugeTry(t: nat, n: nat, o: nat)
    | HugeFree(t: nat)

  predicate AllMain(ms: seq<MemInfo>) {
    forall i :: 0 <= i < |ms| ==> IsMain(ms, i)
  }

  function WithBits(bits: seq<bool>, tab: Tab): Block {
    Block(bits, tab.len, tab.own, tab.used)
  }

  function TabOf(b: Block): Tab {
    Tab(b.len, b.own, b.used)
  }

  /** One bitmap, or region, for each block, as long as the block. */
  predicate BitsSized(ms: seq<MemInfo>, rs: seq<seq<bool>>) {
    |rs| == |ms| && forall k :: 0 <= k < |ms| ==> |rs[k]| == ms[k].PageCount()
  }

  predicate TabsSized(ms: seq<MemInfo>, tabs: seq<Tab>) {
    |tabs| == |ms| && forall k :: 0 <= k < |ms| ==> |tabs[k].len| == |tabs[k].own| == ms[k].PageCount()
  }

  predicate SysSized(ms: seq<MemInfo>, sys: L.Sys) {
    |sys.locks| == |ms| && BitsSized(ms, sys.blocks) && BitsSized(ms, sys.shadow)
  }

  predicate WellSized(ms: seq<MemInfo>, c: Conc) {
    SysSized(ms, c.sys) && TabsSized(ms, c.tabs)
  }

  /** The blocks as they are in memory. */
  ghost function Blocks(c: Conc): seq<Block>
    requires |c.tabs| == |c.sys.blocks|
  {
    seq(|c.tabs|, k requires 0 <= k < |c.tabs| => WithBits(c.sys.blocks[k], c.tabs[k]))
  }

  /** The blocks as every thread will see them once it gets the locks. */
  ghost function Seen(c: Conc): seq<Block>
    requires |c.tabs| == |c.sys.blocks| == |c.sys.shadow|
  {
    seq(|c.tabs|, k requires 0 <= k < |c.tabs| => WithBits(L.Abs(c.sys)[k], c.tabs[k]))
  }

  /** The live ranges, which the protocol keeps by shadow page. */
  ghost function HeapOf(heads: map<nat, L.Entry>): (h: Heap)
    ensures forall l :: l in h <==> l.lane == 0 && l.pos in heads
    ensures forall l :: l in h ==> h[l] == Range(heads[l.pos].len, Session(heads[l.pos].owner))
  {
    if heads == map[] then map[]
    else
      var g :| g in heads;
      HeapOf(heads - {g})[Loc(0, g) := Range(heads[g].len, Session(heads[g].owner))]
  }

  // ----- the shadow bitmap as one -----

  /** The regions one after the other. */
  function Flat(rs: seq<seq<bool>>): seq<bool> {
    if |rs| == 0 then [] else Flat(rs[..|rs| - 1]) + rs[|rs| - 1]
  }

  ghost function Regions(ms: seq<MemInfo>, flat: seq<bool>): (r: seq<seq<bool>>)
    requires AllMain(ms) && |flat| == MainPages(ms)
    ensures |r| == |ms|
  {
    seq(|ms|, i requires 0 <= i < |ms| => Region(ms, flat, i))
  }

  /** Appending a region keeps the others where they are. */
  lemma {:induction false} RegionAppend(flat: seq<bool>, r: seq<bool>, begin: nat, bits: seq<bool>)
    ensures RegionIs(flat + r, |flat|, r)
    ensures RegionIs(flat, begin, bits) ==> RegionIs(flat + r, begin, bits)
  {
  }

  lemma {:induction false} FlatLast(rs: seq<seq<bool>>, upto: nat)
    requires 0 < upto <= |rs|
    ensures Flat(rs[..upto]) == Flat(rs[..upto - 1]) + rs[upto - 1]
  {
    assert rs[..upto][..upto - 1] == rs[..upto - 1];
  }

  lemma {:induction false} RegionsNext(ms: seq<MemInfo>, rs: seq<seq<bool>>, flat: seq<bool>, k: nat)
    requires k < |ms| && IsMain(ms, k) && BitsSized(ms, rs) && |flat| == MainBegin(ms, k)
    requires forall i :: 0 <= i < k ==> RegionIs(flat, MainBegin(ms, i), rs[i])
    ensures |flat + rs[k]| == MainBegin(ms, k + 1)
    ensures forall i :: 0 <= i < k + 1 ==> RegionIs(flat + rs[k], MainBegin(ms, i), rs[i])
  {
    forall i | 0 <= i < k + 1 ensures RegionIs(flat + rs[k], MainBegin(ms, i), rs[i]) {
      RegionAppend(flat, rs[k], MainBegin(ms, i), rs[i]);
    }
  }

  lemma {:induction false} FlatRegions(ms: seq<MemInfo>, rs: seq<seq<bool>>, upto: nat)
    requires AllMain(ms) && BitsSized(ms, rs) && upto <= |ms|
    ensures |Flat(rs[..upto])| == MainBegin(ms, upto)
    ensures forall i :: 0 <= i < upto ==> RegionIs(Flat(rs[..upto]), MainBegin(ms, i), rs[i])
  {
    if upto > 0 {
      FlatRegions(ms, rs, upto - 1);
      FlatLast(rs, upto);
      RegionsNext(ms, rs, Flat(rs[..upto - 1]), upto - 1);
    }
  }

  ghost function FlatShadow(ms: seq<MemInfo>, c: Conc): (r: seq<bool>)
    requires AllMain(ms) && WellSized(ms, c)
    ensures |r| == MainPages(ms)
  {
    FlatRegions(ms, c.sys.shadow, |ms|);
    assert c.sys.shadow[..|ms|] == c.sys.shadow;
    Flat(c.sys.shadow)
  }

  // ----- what the code does -----

  /** The state on which the share loops work. */
  ghost function AsMm(ms: seq<MemInfo>, c: Conc): (r: Mm)
    requires AllMain(ms) && WellSized(ms, c)
    ensures Fits(ms, r)
  {
    var flat := FlatShadow(ms, c);
    Mm(Blocks(c), seq(|ms|, _ => true), Block(flat, seq(|flat|, _ => 0), seq(|flat|, _ => NULL), 0))
  }

  function TabsOf(bs: seq<Block>): seq<Tab> {
    seq(|bs|, k requires 0 <= k < |bs| => TabOf(bs[k]))
  }

  /** The shadow page at which the block with page `g` ends. */
  function BlockEnd(ms: seq<MemInfo>, g: nat, upto: nat): nat
    requires upto <= |ms|
  {
    if upto == 0 then 0
    else if g < MainBegin(ms, upto - 1) then BlockEnd(ms, g, upto - 1)
    else MainBegin(ms, upto)
  }

  lemma {:induction false} BlockEndIs(ms: seq<MemInfo>, k: nat, p: nat, upto: nat)
    requires k < upto <= |ms| && IsMain(ms, k) && p < ms[k].PageCount()
    ensures BlockEnd(ms, MainBegin(ms, k) + p, upto) == MainBegin(ms, k) + ms[k].PageCount()
  {
    MainBeginMono(ms, k, upto - 1);
    if k < upto - 1 { BlockEndIs(ms, k, p, upto - 1); }
  }

  /** The range runs past the end of its first block. */
  predicate Straddles(ms: seq<MemInfo>, g: nat, n: nat) {
    g + n > BlockEnd(ms, g, |ms|)
  }

  /** Where the thread must stand in the code for the step. */
  ghost predicate Guard(ms: seq<MemInfo>, c: Conc, call: Call)
    requires WellSized(ms, c)
  {
    match call
    case Plain(a) =>
      !a.Place? && !a.Release? && !a.HandOff? && !a.Change? && L.Enabled(|ms|, c.sys, a)
    case Try(t, n, o) => var pc := L.PcOf(c.sys, t); pc.Hold? && pc.k < |ms| && n > 0
    case FreeAt(t, p, o) => var pc := L.PcOf(c.sys, t); pc.Hold? && pc.k < |ms| && p < ms[pc.k].PageCount()
    case HugeTry(t, n, o) => var pc := L.PcOf(c.sys, t); pc.Locking? && pc.k == |ms| && pc.job.Alloc? && n > 0
    case HugeFree(t) => var pc := L.PcOf(c.sys, t); pc.Locking? && pc.k == |ms| && pc.job.Free? && pc.job.home < |ms|
  }

  /** Where __malloc_locked finds room, after its look at the use count. */
  ghost function TryFit(ms: seq<MemInfo>, c: Conc, k: nat, n: nat): Option<nat>
    requires WellSized(ms, c) && k < |ms|
  {
    if n + c.tabs[k].used > ms[k].PageCount() then None else FirstFit(c.sys.blocks[k], 0, n)
  }

  /** Both tests of __free_huge_mem pass. */
  ghost predicate Passes(ms: seq<MemInfo>, c: Conc, job: L.Job)
    requires WellSized(ms, c) && job.Free? && job.home < |ms|
  {
    && job.g in c.sys.table
    && MainBegin(ms, job.home) <= job.g < MainBegin(ms, job.home) + ms[job.home].PageCount()
    && c.tabs[job.home].own[job.g - MainBegin(ms, job.home)] == Session(job.owner)
  }

  /** The step of the protocol that the code takes; none when it refuses, or
      when the thread does not stand there. */
  ghost function ActionOf(ms: seq<MemInfo>, c: Conc, call: Call): Option<L.Action>
    requires AllMain(ms) && WellSized(ms, c)
  {
    if !Guard(ms, c, call) then None
    else
      match call
      case Plain(a) => Some(a)
      case Try(t, n, o) =>
        var k := L.PcOf(c.sys, t).k;
        var fit := TryFit(ms, c, k, n);
        if fit.None? then None
        else
          Some(L.Place(t, Fill(c.sys.blocks[k], fit.value, n, true),
                       MainBegin(ms, k) + fit.value, L.Entry(n, o, false)))
      case FreeAt(t, p, o) =>
        var k := L.PcOf(c.sys, t).k;
        var n := c.tabs[k].len[p];
        if n == 0 || c.tabs[k].own[p] != Session(o) then None
        else if p + n > ms[k].PageCount() then Some(L.HandOff(t, MainBegin(ms, k) + p, o))
        else Some(L.Release(t, Fill(c.sys.blocks[k], p, n, false), MainBegin(ms, k) + p, o))
      case HugeTry(t, n, o) =>
        var flat := FlatShadow(ms, c);
        var g := FirstFit(flat, 0, n);
        if g.None? then Some(L.Change(t, c.sys.shadow, None))
        else Some(L.Change(t, Regions(ms, Fill(flat, g.value, n, true)),
                           Some((g.value, L.Entry(n, o, Straddles(ms, g.value, n))))))
      case HugeFree(t) =>
        var job := L.PcOf(c.sys, t).job;
        var flat := FlatShadow(ms, c);
        if Passes(ms, c, job) && job.g + c.sys.table[job.g] <= |flat| then
          Some(L.Change(t, Regions(ms, Fill(flat, job.g, c.sys.table[job.g], false)), None))
        else Some(L.Change(t, c.sys.shadow, None))
  }

  /** The tables after the step. */
  ghost function NextTabs(ms: seq<MemInfo>, c: Conc, call: Call): seq<Tab>
    requires AllMain(ms) && WellSized(ms, c)
  {
    if !Guard(ms, c, call) then c.tabs
    else
      match call
      case Plain(a) => c.tabs
      case Try(t, n, o) =>
        var k := L.PcOf(c.sys, t).k;
        var fit := TryFit(ms, c, k, n);
        if fit.None? then c.tabs else c.tabs[k := TabOf(Taken(Blocks(c)[k], fit.value, n, Session(o)))]
      case FreeAt(t, p, o) =>
        var k := L.PcOf(c.sys, t).k;
        var n := c.tabs[k].len[p];
        if n == 0 || c.tabs[k].own[p] != Session(o) || p + n > ms[k].PageCount() then c.tabs
        else c.tabs[k := TabOf(Released(Blocks(c)[k], p, n))]
      case HugeTry(t, n, o) =>
        var g := FirstFit(FlatShadow(ms, c), 0, n);
        if g.None? then c.tabs
        else TabsOf(ShareRun(ms, Cursor(AsMm(ms, c), g.value, n, true), Session(o), |ms|).s.blocks)
      case HugeFree(t) =>
        var job := L.PcOf(c.sys, t).job;
        if Passes(ms, c, job) && job.g + c.sys.table[job.g] <= MainPages(ms) then
          TabsOf(ShareRun(ms, Cursor(AsMm(ms, c), job.g, c.sys.table[job.g], true), NULL, |ms|).s.blocks)
        else c.tabs
  }

  ghost function Next(ms: seq<MemInfo>, c: Conc, call: Call): Conc
    requires AllMain(ms) && WellSized(ms, c)
  {
    var a := ActionOf(ms, c, call);
    if a.None? || !L.Enabled(|ms|, c.sys, a.value) then c
    else Conc(L.Do(|ms|, c.sys, a.value), NextTabs(ms, c, call))
  }

  lemma {:induction false} DoSized(ms: seq<MemInfo>, sys: L.Sys, a: L.Action)
    requires SysSized(ms, sys) && L.Enabled(|ms|, sys, a)
    requires a.Place? || a.Release? ==> |a.bits| == ms[L.PcOf(sys, a.t).k].PageCount()
    requires a.Change? ==> BitsSized(ms, a.result)
    ensures SysSized(ms, L.Do(|ms|, sys, a))
  {
  }

  lemma {:induction false} ActionOfSized(ms: seq<MemInfo>, c: Conc, call: Call, a: L.Action)
    requires AllMain(ms) && WellSized(ms, c) && ActionOf(ms, c, call) == Some(a) && L.Enabled(|ms|, c.sys, a)
    ensures a.Place? || a.Release? ==> |a.bits| == ms[L.PcOf(c.sys, a.t).k].PageCount()
    ensures a.Change? ==> BitsSized(ms, a.result)
  {
  }

  lemma {:induction false} NextTabsSized(ms: seq<MemInfo>, c: Conc, call: Call)
    requires AllMain(ms) && WellSized(ms, c)
    ensures TabsSized(ms, NextTabs(ms, c, call))
  {
  }

  /** Every step keeps the tables at their lengths. */
  lemma {:induction false} NextSized(ms: seq<MemInfo>, c: Conc, call: Call)
    requires AllMain(ms) && WellSized(ms, c)
    ensures WellSized(ms, Next(ms, c, call))
  {
    var a := ActionOf(ms, c, call);
    if a.Some? && L.Enabled(|ms|, c.sys, a.value) {
      ActionOfSized(ms, c, call, a.value);
      DoSized(ms, c.sys, a.value);
      NextTabsSized(ms, c, call);
    }
  }

  // ----- the invariant -----

  /** The protocol's flag says whether the range runs past its block. */
  ghost predicate FlagOk(ms: seq<MemInfo>, g: nat, e: L.Entry) {
    e.straddles <==> Straddles(ms, g, e.len)
  }

  ghost predicate FlagsOk(ms: seq<MemInfo>, heads: map<nat, L.Entry>) {
    forall g :: g in heads ==> FlagOk(ms, g, heads[g])
  }

  /** A free under way remembers the block its first page is in. */
  ghost predicate HomeOk(ms: seq<MemInfo>, sys: L.Sys, t: nat) {
    var j := L.Pending(L.PcOf(sys, t));
    j.Some? && j.value.Free? ==>
      && j.value.home < |ms|
      && MainBegin(ms, j.value.home) <= j.value.g < MainBegin(ms, j.value.home) + ms[j.value.home].PageCount()
  }

  /** The blocks, as every thread will see them, hold exactly the live ranges. */
  ghost predicate Exact(ms: seq<MemInfo>, c: Conc) {
    && WellSized(ms, c) && Refines(ms, Seen(c), HeapOf(c.sys.heads)) && FlagsOk(ms, c.sys.heads)
  }

  ghost predicate Sound(ms: seq<MemInfo>, c: Conc) {
    && AllMain(ms) && Exact(ms, c)
    && L.Inv(|ms|, c.sys) && F.FreesOk(c.sys)
    && (forall t: nat :: HomeOk(ms, c.sys, t))
  }

  /** The step starts no second free of an allocation whose first is under way. */
  ghost predicate Single(ms: seq<MemInfo>, c: Conc, call: Call)
    requires AllMain(ms) && WellSized(ms, c)
  {
    ActionOf(ms, c, call).Some? ==> F.FirstFree(c.sys, ActionOf(ms, c, call).value)
  }

  // ----- what a call does to the map -----

  /** A call as its caller knows it, at the step where it takes effect. */
  datatype Effect =
    | Silent
    | TryIn(k: nat, n: nat, o: nat)
    | FreeIn(k: nat, p: nat, o: nat)
    | Huge(n: nat, o: nat)
    | HugeGone(g: nat, o: nat)

  ghost function EffectOf(ms: seq<MemInfo>, c: Conc, call: Call): Effect
    requires WellSized(ms, c)
  {
    if !Guard(ms, c, call) then Silent
    else
      match call
      case Plain(_) => Silent
      case Try(t, n, o) => TryIn(L.PcOf(c.sys, t).k, n, o)
      case FreeAt(t, p, o) => FreeIn(L.PcOf(c.sys, t).k, p, o)
      case HugeTry(_, n, o) => Huge(n, o)
      case HugeFree(t) => HugeGone(L.PcOf(c.sys, t).job.g, L.PcOf(c.sys, t).job.owner)
  }

  /** The lowest page of the block where `n` pages of it are vacant. */
  ghost predicate LowestIn(ms: seq<MemInfo>, h: Heap, k: nat, n: nat, p: nat)
    requires k < |ms|
  {
    && p + n <= ms[k].PageCount() && Vacant(h, LocOf(ms, k, p), n)
    && forall q: nat :: q < p ==> !Vacant(h, LocOf(ms, k, q), n)
  }

  ghost predicate NoneIn(ms: seq<MemInfo>, h: Heap, k: nat, n: nat)
    requires k < |ms|
  {
    forall q: nat :: q + n <= ms[k].PageCount() ==> !Vacant(h, LocOf(ms, k, q), n)
  }

  /** What the call does to the map of live ranges, all at once. */
  ghost predicate MapMove(ms: seq<MemInfo>, h: Heap, h': Heap, e: Effect) {
    match e
    case Silent => h' == h
    case TryIn(k, n, o) =>
      && k < |ms|
      && ((exists p: nat :: LowestIn(ms, h, k, n, p) && h' == h[LocOf(ms, k, p) := Range(n, Session(o))])
          || (NoneIn(ms, h, k, n) && h' == h))
    case FreeIn(k, p, o) =>
      && k < |ms|
      && var l := LocOf(ms, k, p);
         h' == if l in h && h[l].owner == Session(o) && p + h[l].len <= ms[k].PageCount() then h - {l} else h
    case Huge(n, o) =>
      (exists g: nat :: LowestVacant(ms, h, n, g) && h' == h[Loc(0, g) := Range(n, Session(o))])
      || (NoneVacant(ms, h, n) && h' == h)
    case HugeGone(g, o) =>
      Loc(0, g) in h && h[Loc(0, g)].owner == Session(o) && h' == h - {Loc(0, g)}
  }

  lemma {:induction false} HeapOfAdd(heads: map<nat, L.Entry>, g: nat, e: L.Entry)
    ensures HeapOf(heads[g := e]) == HeapOf(heads)[Loc(0, g) := Range(e.len, Session(e.owner))]
  {
  }

  lemma {:induction false} HeapOfRemove(heads: map<nat, L.Entry>, g: nat)
    ensures HeapOf(heads - {g}) == HeapOf(heads) - {Loc(0, g)}
  {
  }

  /** The block a thread works on under its lock is as everybody will see it. */
  lemma {:induction false} HeldIsSeen(ms: seq<MemInfo>, c: Conc, t: nat)
    requires WellSized(ms, c) && L.Inv(|ms|, c.sys) && L.PcOf(c.sys, t).Hold?
    ensures L.PcOf(c.sys, t).k < |ms|
    ensures Blocks(c)[L.PcOf(c.sys, t).k] == Seen(c)[L.PcOf(c.sys, t).k]
  {
    L.SeesCurrent(|ms|, c.sys, t);
  }

  /** Writing one block under its lock changes that block for everybody. */
  lemma {:induction false} OneBlock(ms: seq<MemInfo>, c: Conc, a: L.Action, k: nat, b: Block, c': Conc)
    requires WellSized(ms, c) && L.Inv(|ms|, c.sys) && L.Enabled(|ms|, c.sys, a)
    requires a.Place? || a.Release?
    requires L.PcOf(c.sys, a.t).Hold? && L.PcOf(c.sys, a.t).k == k < |ms| && a.bits == b.bits
    requires c' == Conc(L.Do(|ms|, c.sys, a), c.tabs[k := TabOf(b)]) && Sized(SpanOf(ms, k), b)
    ensures WellSized(ms, c') && Seen(c') == Seen(c)[k := b]
  {
    L.StepIsAtomic(|ms|, c.sys, a);
    assert L.Abs(c'.sys) == L.Abs(c.sys)[k := b.bits];
    assert WithBits(b.bits, TabOf(b)) == b;
  }

  /** A step of the protocol that has no effect of its own, tables left alone,
      changes nothing that anyone will see. */
  lemma {:induction false} SameSeen(ms: seq<MemInfo>, c: Conc, a: L.Action)
    requires WellSized(ms, c) && L.Inv(|ms|, c.sys) && L.Enabled(|ms|, c.sys, a)
    requires L.OpOf(|ms|, c.sys, a) == L.Nothing
    ensures Seen(Conc(L.Do(|ms|, c.sys, a), c.tabs)) == Seen(c)
  {
    L.StepIsAtomic(|ms|, c.sys, a);
    assert L.Abs(L.Do(|ms|, c.sys, a)) == L.Abs(c.sys);
  }

  lemma {:induction false} SameHeads(n: nat, sys: L.Sys, a: L.Action)
    requires |sys.locks| == |sys.blocks| == |sys.shadow| == n && L.Enabled(n, sys, a) && L.OpOf(n, sys, a) == L.Nothing
    ensures L.Do(n, sys, a).heads == sys.heads
  {
  }

  lemma {:induction false} SameExact(ms: seq<MemInfo>, c: Conc, a: L.Action)
    requires Exact(ms, c) && L.Inv(|ms|, c.sys) && L.Enabled(|ms|, c.sys, a)
    requires L.OpOf(|ms|, c.sys, a) == L.Nothing && (a.Change? ==> a.result == c.sys.shadow)
    ensures var c' := Conc(L.Do(|ms|, c.sys, a), c.tabs);
      Exact(ms, c') && c'.sys.heads == c.sys.heads
  {
    assert WellSized(ms, Conc(L.Do(|ms|, c.sys, a), c.tabs)) by { DoSized(ms, c.sys, a); }
    SameHeads(|ms|, c.sys, a);
    SameSeen(ms, c, a);
  }

  /** The early test turns nothing away that would fit. */
  lemma {:induction false} TryFitIsFirst(ms: seq<MemInfo>, c: Conc, k: nat, n: nat)
    requires Exact(ms, c) && k < |ms| && Blocks(c)[k] == Seen(c)[k]
    ensures TryFit(ms, c, k, n) == FirstFit(c.sys.blocks[k], 0, n)
  {
    assert Represents(SpanOf(ms, k), Seen(c)[k], HeapOf(c.sys.heads));
    var fit := FirstFit(c.sys.blocks[k], 0, n);
    if fit.Some? { FreeRunLeavesRoom(c.sys.blocks[k], fit.value, n); }
  }

  /** First fit in the block is the lowest vacant page of it. */
  lemma {:induction false} FitIsLowest(ms: seq<MemInfo>, bs: seq<Block>, h: Heap, k: nat, n: nat)
    requires Refines(ms, bs, h) && k < |ms| && n > 0
    ensures var fit := FirstFit(bs[k].bits, 0, n);
      if fit.Some? then LowestIn(ms, h, k, n, fit.value) else NoneIn(ms, h, k, n)
  {
    assert Represents(SpanOf(ms, k), bs[k], h);
    forall q: nat | q + n <= ms[k].PageCount()
      ensures FreeRun(bs[k].bits, q, n) <==> Vacant(h, LocOf(ms, k, q), n)
    {
      ClearIffVacant(SpanOf(ms, k), bs[k], h, q, n);
    }
  }

  lemma {:induction false} FlagsAdd(ms: seq<MemInfo>, heads: map<nat, L.Entry>, g: nat, e: L.Entry)
    requires FlagsOk(ms, heads) && FlagOk(ms, g, e)
    ensures FlagsOk(ms, heads[g := e])
  {
  }

  lemma {:induction false} HeapOfHas(heads: map<nat, L.Entry>, g: nat)
    ensures g in heads <==> Loc(0, g) in HeapOf(heads)
    ensures g in heads ==> HeapOf(heads)[Loc(0, g)] == Range(heads[g].len, Session(heads[g].owner))
  {
  }

  /** An allocation inside block `k` as the protocol's entries record it. */
  lemma {:induction false} AddedInside(ms: seq<MemInfo>, bs: seq<Block>, heads: map<nat, L.Entry>,
                                       k: nat, p: nat, n: nat, o: nat)
    requires IsMain(ms, k) && Refines(ms, bs, HeapOf(heads)) && n > 0 && FreeRun(bs[k].bits, p, n)
    ensures Sized(SpanOf(ms, k), bs[k]) && p + n <= ms[k].PageCount() && MainBegin(ms, k) + p !in heads
    ensures var heads' := heads[MainBegin(ms, k) + p := L.Entry(n, o, false)];
      && HeapOf(heads') == HeapOf(heads)[LocOf(ms, k, p) := Range(n, Session(o))]
      && Refines(ms, bs[k := Taken(bs[k], p, n, Session(o))], HeapOf(heads'))
  {
    TakenRefines(ms, bs, HeapOf(heads), k, p, n, o);
    HeapOfHas(heads, MainBegin(ms, k) + p);
    HeapOfAdd(heads, MainBegin(ms, k) + p, L.Entry(n, o, false));
  }

  lemma {:induction false} FlagsAddInside(ms: seq<MemInfo>, heads: map<nat, L.Entry>, heads': map<nat, L.Entry>,
                                          k: nat, p: nat, n: nat, o: nat)
    requires IsMain(ms, k) && FlagsOk(ms, heads) && n > 0 && p + n <= ms[k].PageCount()
    requires heads' == heads[MainBegin(ms, k) + p := L.Entry(n, o, false)]
    ensures FlagsOk(ms, heads')
  {
    BlockEndIs(ms, k, p, |ms|);
    FlagsAdd(ms, heads, MainBegin(ms, k) + p, L.Entry(n, o, false));
  }

  /** A free inside block `k`. */
  lemma {:induction false} RemovedInside(ms: seq<MemInfo>, bs: seq<Block>, heads: map<nat, L.Entry>, k: nat, p: nat)
    requires AllMain(ms) && Refines(ms, bs, HeapOf(heads)) && FlagsOk(ms, heads)
    requires k < |ms| && Sized(SpanOf(ms, k), bs[k]) && MainBegin(ms, k) + p in heads
    requires p < ms[k].PageCount() && p + heads[MainBegin(ms, k) + p].len <= ms[k].PageCount()
    ensures var g := MainBegin(ms, k) + p;
      var n := heads[g].len;
      && n > 0 && FlagsOk(ms, heads - {g}) && HeapOf(heads - {g}) == HeapOf(heads) - {LocOf(ms, k, p)}
      && Refines(ms, bs[k := Released(bs[k], p, n)], HeapOf(heads - {g}))
  {
    var h := HeapOf(heads);
    var g := MainBegin(ms, k) + p;
    assert IsMain(ms, k) && LocOf(ms, k, p) == Loc(0, g) && Loc(0, g) in h && h[Loc(0, g)].len == heads[g].len;
    ReleasedIsUnmark(ms, bs, k, p, heads[g].len);
    UnmarkAllRefines(ms, bs, h, Loc(0, g));
    HeapOfRemove(heads, g);
  }

  /** The call is one the protocol allows, keeps the tables exact, and does to
      the map what its caller asked for. */
  ghost predicate Keeps(ms: seq<MemInfo>, c: Conc, call: Call)
    requires AllMain(ms) && WellSized(ms, c)
  {
    var a := ActionOf(ms, c, call);
    && (a.Some? ==> L.Enabled(|ms|, c.sys, a.value))
    && Exact(ms, Next(ms, c, call))
    && MapMove(ms, HeapOf(c.sys.heads), HeapOf(Next(ms, c, call).sys.heads), EffectOf(ms, c, call))
  }

  lemma {:induction false} PlacedExact(ms: seq<MemInfo>, c: Conc, c': Conc, k: nat, p: nat, n: nat, o: nat)
    requires IsMain(ms, k) && Exact(ms, c) && n > 0 && FreeRun(Seen(c)[k].bits, p, n)
    requires Sized(SpanOf(ms, k), Seen(c)[k]) && WellSized(ms, c')
    requires Seen(c') == Seen(c)[k := Taken(Seen(c)[k], p, n, Session(o))]
    requires c'.sys.heads == c.sys.heads[MainBegin(ms, k) + p := L.Entry(n, o, false)]
    ensures Exact(ms, c')
    ensures HeapOf(c'.sys.heads) == HeapOf(c.sys.heads)[LocOf(ms, k, p) := Range(n, Session(o))]
  {
    AddedInside(ms, Seen(c), c.sys.heads, k, p, n, o);
    FlagsAddInside(ms, c.sys.heads, c'.sys.heads, k, p, n, o);
  }

  lemma {:induction false} ReleasedExact(ms: seq<MemInfo>, c: Conc, c': Conc, k: nat, p: nat, n: nat)
    requires AllMain(ms) && k < |ms| && Exact(ms, c) && p < ms[k].PageCount() && p + n <= ms[k].PageCount() && n > 0
    requires MainBegin(ms, k) + p in c.sys.heads && c.sys.heads[MainBegin(ms, k) + p].len == n
    requires Sized(SpanOf(ms, k), Seen(c)[k]) && WellSized(ms, c')
    requires Seen(c') == Seen(c)[k := Released(Seen(c)[k], p, n)]
    requires c'.sys.heads == c.sys.heads - {MainBegin(ms, k) + p}
    ensures Exact(ms, c')
    ensures HeapOf(c'.sys.heads) == HeapOf(c.sys.heads) - {LocOf(ms, k, p)}
  {
    RemovedInside(ms, Seen(c), c.sys.heads, k, p);
  }

  lemma {:induction false} TryActs(ms: seq<MemInfo>, c: Conc, t: nat, n: nat, o: nat, k: nat, p: nat, b: Block)
    returns (a: L.Action)
    requires AllMain(ms) && WellSized(ms, c) && Guard(ms, c, Try(t, n, o)) && k == L.PcOf(c.sys, t).k
    requires |c.sys.locks| == |c.sys.blocks| == |c.sys.shadow| == |ms|
    requires TryFit(ms, c, k, n) == Some(p) && MainBegin(ms, k) + p !in c.sys.heads
    requires p + n <= |Blocks(c)[k].bits| && b == Taken(Blocks(c)[k], p, n, Session(o))
    ensures a == L.Place(t, b.bits, MainBegin(ms, k) + p, L.Entry(n, o, false))
    ensures ActionOf(ms, c, Try(t, n, o)) == Some(a) && L.Enabled(|ms|, c.sys, a)
    ensures NextTabs(ms, c, Try(t, n, o)) == c.tabs[k := TabOf(b)]
  {
    a := L.Place(t, b.bits, MainBegin(ms, k) + p, L.Entry(n, o, false));
  }

  lemma {:induction false} PlaceIs(ms: seq<MemInfo>, c: Conc, t: nat, n: nat, o: nat, k: nat, p: nat) returns (c': Conc)
    requires AllMain(ms) && WellSized(ms, c) && L.Inv(|ms|, c.sys) && Guard(ms, c, Try(t, n, o))
    requires k == L.PcOf(c.sys, t).k && Blocks(c)[k] == Seen(c)[k]
    requires TryFit(ms, c, k, n) == Some(p) && MainBegin(ms, k) + p !in c.sys.heads
    ensures L.Enabled(|ms|, c.sys, ActionOf(ms, c, Try(t, n, o)).value)
    ensures c' == Next(ms, c, Try(t, n, o)) && WellSized(ms, c')
    ensures Sized(SpanOf(ms, k), Seen(c)[k]) && p + n <= |Seen(c)[k].bits|
    ensures Seen(c') == Seen(c)[k := Taken(Seen(c)[k], p, n, Session(o))]
    ensures c'.sys.heads == c.sys.heads[MainBegin(ms, k) + p := L.Entry(n, o, false)]
  {
    var b := Taken(Blocks(c)[k], p, n, Session(o));
    var a := TryActs(ms, c, t, n, o, k, p, b);
    c' := Conc(L.Do(|ms|, c.sys, a), c.tabs[k := TabOf(b)]);
    OneBlock(ms, c, a, k, b, c');
  }

  /** The room `TryFit` finds is room in the block as everybody sees it. */
  lemma {:induction false} TryFinds(ms: seq<MemInfo>, c: Conc, k: nat, n: nat, o: nat, p: nat)
    requires AllMain(ms) && Exact(ms, c) && k < |ms| && n > 0
    requires Blocks(c)[k] == Seen(c)[k] && TryFit(ms, c, k, n) == Some(p)
    ensures FreeRun(Seen(c)[k].bits, p, n) && MainBegin(ms, k) + p !in c.sys.heads
  {
    assert FreeRun(Seen(c)[k].bits, p, n) by { assert Blocks(c)[k].bits == Seen(c)[k].bits; }
    assert IsMain(ms, k);
    AddedInside(ms, Seen(c), c.sys.heads, k, p, n, o);
  }

  lemma {:induction false} TryTakes(ms: seq<MemInfo>, c: Conc, t: nat, n: nat, o: nat, k: nat, p: nat)
    returns (c': Conc)
    requires AllMain(ms) && Exact(ms, c) && L.Inv(|ms|, c.sys) && Guard(ms, c, Try(t, n, o))
    requires k == L.PcOf(c.sys, t).k && Blocks(c)[k] == Seen(c)[k] && TryFit(ms, c, k, n) == Some(p)
    ensures L.Enabled(|ms|, c.sys, ActionOf(ms, c, Try(t, n, o)).value)
    ensures c' == Next(ms, c, Try(t, n, o)) && Exact(ms, c')
    ensures HeapOf(c'.sys.heads) == HeapOf(c.sys.heads)[LocOf(ms, k, p) := Range(n, Session(o))]
  {
    assert IsMain(ms, k) && n > 0;
    TryFinds(ms, c, k, n, o, p);
    c' := PlaceIs(ms, c, t, n, o, k, p);
    PlacedExact(ms, c, c', k, p, n, o);
  }

  lemma {:induction false} TryKeeps(ms: seq<MemInfo>, c: Conc, t: nat, n: nat, o: nat)
    requires AllMain(ms) && Exact(ms, c) && L.Inv(|ms|, c.sys) && Guard(ms, c, Try(t, n, o))
    ensures Keeps(ms, c, Try(t, n, o))
  {
    var k := L.PcOf(c.sys, t).k;
    HeldIsSeen(ms, c, t);
    TryFitIsFirst(ms, c, k, n);
    FitIsLowest(ms, Seen(c), HeapOf(c.sys.heads), k, n);
    var fit := TryFit(ms, c, k, n);
    if fit.Some? { var _ := TryTakes(ms, c, t, n, o, k, fit.value); }
  }

  /** What the tables of exact blocks say of a page. */
  lemma {:induction false} HeadTests(ms: seq<MemInfo>, bs: seq<Block>, heads: map<nat, L.Entry>,
                                     k: nat, p: nat, g: nat, o: nat)
    requires IsMain(ms, k) && p < ms[k].PageCount() && Refines(ms, bs, HeapOf(heads)) && FlagsOk(ms, heads)
    requires g == MainBegin(ms, k) + p
    ensures |bs[k].len| == |bs[k].own| == ms[k].PageCount()
    ensures
      && (bs[k].len[p] != 0 && bs[k].own[p] == Session(o) <==> g in heads && heads[g].owner == o)
      && (g in heads ==> bs[k].len[p] == heads[g].len
                         && (heads[g].straddles <==> p + heads[g].len > ms[k].PageCount()))
  {
    assert LocOf(ms, k, p) == Loc(0, g);
    assert Represents(SpanOf(ms, k), bs[k], HeapOf(heads)) && PageOk(SpanOf(ms, k), bs[k], HeapOf(heads), p);
    if g in heads {
      assert FlagOk(ms, g, heads[g]);
      BlockEndIs(ms, k, p, |ms|);
    }
  }

  /** What the two tests of __free_locked establish. */
  lemma {:induction false} TestsFindHead(ms: seq<MemInfo>, c: Conc, k: nat, p: nat, g: nat, o: nat)
    requires AllMain(ms) && Exact(ms, c) && k < |ms| && p < ms[k].PageCount() && g == MainBegin(ms, k) + p
    ensures
      && LocOf(ms, k, p) == Loc(0, g)
      && (c.tabs[k].len[p] != 0 && c.tabs[k].own[p] == Session(o) <==> g in c.sys.heads && c.sys.heads[g].owner == o)
      && (g in c.sys.heads ==> c.tabs[k].len[p] == c.sys.heads[g].len)
      && (g in c.sys.heads ==> (c.sys.heads[g].straddles <==> p + c.sys.heads[g].len > ms[k].PageCount()))
  {
    assert IsMain(ms, k);
    HeadTests(ms, Seen(c), c.sys.heads, k, p, g, o);
    assert Seen(c)[k].len == c.tabs[k].len && Seen(c)[k].own == c.tabs[k].own;
  }

  lemma {:induction false} ReleaseIs(ms: seq<MemInfo>, c: Conc, t: nat, p: nat, o: nat, k: nat, n: nat)
    returns (c': Conc)
    requires AllMain(ms) && WellSized(ms, c) && L.Inv(|ms|, c.sys) && Guard(ms, c, FreeAt(t, p, o))
    requires k == L.PcOf(c.sys, t).k && Blocks(c)[k] == Seen(c)[k]
    requires c.tabs[k].len[p] == n != 0 && c.tabs[k].own[p] == Session(o) && p + n <= ms[k].PageCount()
    requires var g := MainBegin(ms, k) + p;
      g in c.sys.heads && c.sys.heads[g].owner == o && !c.sys.heads[g].straddles
    ensures L.Enabled(|ms|, c.sys, ActionOf(ms, c, FreeAt(t, p, o)).value)
    ensures c' == Next(ms, c, FreeAt(t, p, o)) && WellSized(ms, c')
    ensures Sized(SpanOf(ms, k), Seen(c)[k]) && p + n <= |Seen(c)[k].bits|
    ensures Seen(c') == Seen(c)[k := Released(Seen(c)[k], p, n)]
    ensures c'.sys.heads == c.sys.heads - {MainBegin(ms, k) + p}
  {
    var b := Released(Blocks(c)[k], p, n);
    c' := Next(ms, c, FreeAt(t, p, o));
    OneBlock(ms, c, ActionOf(ms, c, FreeAt(t, p, o)).value, k, b, c');
  }

  /** Where the tests find the first page of a range of this owner. */
  ghost predicate FindsHead(ms: seq<MemInfo>, c: Conc, k: nat, p: nat, o: nat)
    requires WellSized(ms, c) && k < |ms| && p < ms[k].PageCount()
  {
    c.tabs[k].len[p] != 0 && c.tabs[k].own[p] == Session(o)
  }

  lemma {:induction false} FreeReleases(ms: seq<MemInfo>, c: Conc, t: nat, p: nat, o: nat, k: nat)
    requires AllMain(ms) && Exact(ms, c) && L.Inv(|ms|, c.sys) && Guard(ms, c, FreeAt(t, p, o))
    requires k == L.PcOf(c.sys, t).k && FindsHead(ms, c, k, p, o) && p + c.tabs[k].len[p] <= ms[k].PageCount()
    ensures L.Enabled(|ms|, c.sys, ActionOf(ms, c, FreeAt(t, p, o)).value)
    ensures var c' := Next(ms, c, FreeAt(t, p, o));
      Exact(ms, c') && HeapOf(c'.sys.heads) == HeapOf(c.sys.heads) - {LocOf(ms, k, p)}
  {
    HeldIsSeen(ms, c, t);
    TestsFindHead(ms, c, k, p, MainBegin(ms, k) + p, o);
    var c' := ReleaseIs(ms, c, t, p, o, k, c.tabs[k].len[p]);
    ReleasedExact(ms, c, c', k, p, c.tabs[k].len[p]);
  }

  lemma {:induction false} FreeActs(ms: seq<MemInfo>, c: Conc, t: nat, p: nat, g: nat, o: nat, k: nat)
    returns (a: L.Action)
    requires AllMain(ms) && WellSized(ms, c) && Guard(ms, c, FreeAt(t, p, o)) && k == L.PcOf(c.sys, t).k
    requires FindsHead(ms, c, k, p, o) && p + c.tabs[k].len[p] > ms[k].PageCount()
    requires g == MainBegin(ms, k) + p
    requires g in c.sys.heads && c.sys.heads[g].straddles && c.sys.heads[g].owner == o
    ensures a == L.HandOff(t, g, o)
    ensures ActionOf(ms, c, FreeAt(t, p, o)) == Some(a) && L.Enabled(|ms|, c.sys, a)
    ensures Next(ms, c, FreeAt(t, p, o)) == Conc(L.Do(|ms|, c.sys, a), c.tabs)
  {
    a := L.HandOff(t, g, o);
  }

  lemma {:induction false} FreeHandsOff(ms: seq<MemInfo>, c: Conc, t: nat, p: nat, o: nat, k: nat)
    requires AllMain(ms) && Exact(ms, c) && L.Inv(|ms|, c.sys) && Guard(ms, c, FreeAt(t, p, o))
    requires k == L.PcOf(c.sys, t).k && FindsHead(ms, c, k, p, o) && p + c.tabs[k].len[p] > ms[k].PageCount()
    ensures L.Enabled(|ms|, c.sys, ActionOf(ms, c, FreeAt(t, p, o)).value)
    ensures var c' := Next(ms, c, FreeAt(t, p, o));
      Exact(ms, c') && c'.sys.heads == c.sys.heads
  {
    var g := MainBegin(ms, k) + p;
    TestsFindHead(ms, c, k, p, g, o);
    var a := FreeActs(ms, c, t, p, g, o, k);
    SameExact(ms, c, a);
  }

  /** What the two entries of a page say of the map. */
  ghost predicate TellsLive(ms: seq<MemInfo>, h: Heap, k: nat, p: nat, o: nat, len: nat, own: Owner)
    requires k < |ms|
  {
    var l := LocOf(ms, k, p);
    && (len != 0 && own == Session(o) <==> l in h && h[l].owner == Session(o))
    && (l in h ==> h[l].len == len)
  }

  lemma {:induction false} PageTells(ms: seq<MemInfo>, bs: seq<Block>, h: Heap, k: nat, p: nat, o: nat)
    requires IsMain(ms, k) && p < ms[k].PageCount() && Refines(ms, bs, h)
    ensures |bs[k].len| == |bs[k].own| == ms[k].PageCount() && TellsLive(ms, h, k, p, o, bs[k].len[p], bs[k].own[p])
  {
    assert Represents(SpanOf(ms, k), bs[k], h) && PageOk(SpanOf(ms, k), bs[k], h, p);
  }

  /** What the tests find is what the map says of the page. */
  lemma {:induction false} FindsLive(ms: seq<MemInfo>, c: Conc, p: nat, o: nat, k: nat)
    requires AllMain(ms) && Exact(ms, c) && k < |ms| && p < ms[k].PageCount()
    ensures TellsLive(ms, HeapOf(c.sys.heads), k, p, o, c.tabs[k].len[p], c.tabs[k].own[p])
  {
    assert IsMain(ms, k);
    PageTells(ms, Seen(c), HeapOf(c.sys.heads), k, p, o);
    assert Seen(c)[k].len == c.tabs[k].len && Seen(c)[k].own == c.tabs[k].own;
  }

  lemma {:induction false} FreeAtKeeps(ms: seq<MemInfo>, c: Conc, t: nat, p: nat, o: nat)
    requires AllMain(ms) && Exact(ms, c) && L.Inv(|ms|, c.sys) && Guard(ms, c, FreeAt(t, p, o))
    ensures Keeps(ms, c, FreeAt(t, p, o))
  {
    var k := L.PcOf(c.sys, t).k;
    FindsLive(ms, c, p, o, k);
    if FindsHead(ms, c, k, p, o) {
      if p + c.tabs[k].len[p] <= ms[k].PageCount() { FreeReleases(ms, c, t, p, o, k); }
      else { FreeHandsOff(ms, c, t, p, o, k); }
    }
  }

  // ----- the huge calls -----

  /** With all locks held the blocks in memory and the shadow are as everybody
      will see them. */
  lemma {:induction false} AllHeldIsSeen(ms: seq<MemInfo>, c: Conc, t: nat)
    requires AllMain(ms) && WellSized(ms, c) && L.Inv(|ms|, c.sys)
    requires L.PcOf(c.sys, t).Locking? && L.PcOf(c.sys, t).k == |ms|
    ensures Blocks(c) == Seen(c)
    ensures Synced(ms, Seen(c), FlatShadow(ms, c))
  {
    L.SeesCurrent(|ms|, c.sys, t);
    assert L.PcOk(|ms|, c.sys, t);
    assert c.sys.shadow == c.sys.blocks;
    FlatRegions(ms, c.sys.shadow, |ms|);
    assert c.sys.shadow[..|ms|] == c.sys.shadow;
    forall i | 0 <= i < |ms| ensures RegionIs(FlatShadow(ms, c), MainBegin(ms, i), Seen(c)[i].bits) {
      assert RegionIs(Flat(c.sys.shadow), MainBegin(ms, i), c.sys.shadow[i]);
    }
  }

  /** The bits copied back and the tables the share loop writes are together the
      range written down, or erased, everywhere. */
  lemma {:induction false} SharesAndBits(ms: seq<MemInfo>, u: Mm, g: nat, n: nat, o: Owner, i: nat)
    requires Fits(ms, u) && IsMain(ms, i) && n > 0 && g + n <= MainPages(ms)
    requires RegionIs(u.shadow.bits, MainBegin(ms, i), u.blocks[i].bits)
    ensures var r := ShareRun(ms, Cursor(u, g, n, true), o, |ms|).s.blocks;
      WithBits(Region(ms, Fill(u.shadow.bits, g, n, o != NULL), i), TabOf(r[i]))
      == if o == NULL then Unmark(SpanOf(ms, i), u.blocks[i], Loc(0, g), n)
         else Mark(SpanOf(ms, i), u.blocks[i], Loc(0, g), n, o)
  {
    ShareRunExact(ms, u, g, n, o, |ms|);
    CopiedBackBits(ms, i, u.blocks[i], u.shadow.bits, g, n, o != NULL);
  }

  /** The same for all blocks at once. */
  lemma {:induction false} AllSharesAndBits(ms: seq<MemInfo>, u: Mm, g: nat, n: nat, o: Owner)
    requires AllMain(ms) && Fits(ms, u) && n > 0 && g + n <= MainPages(ms)
    requires Synced(ms, u.blocks, u.shadow.bits)
    ensures var bits := Regions(ms, Fill(u.shadow.bits, g, n, o != NULL));
      var tabs := TabsOf(ShareRun(ms, Cursor(u, g, n, true), o, |ms|).s.blocks);
      forall i :: 0 <= i < |ms| ==>
        WithBits(bits[i], tabs[i])
        == if o == NULL then UnmarkAll(ms, u.blocks, Loc(0, g), n)[i] else MarkAll(ms, u.blocks, Loc(0, g), n, o)[i]
  {
    var bits := Regions(ms, Fill(u.shadow.bits, g, n, o != NULL));
    var tabs := TabsOf(ShareRun(ms, Cursor(u, g, n, true), o, |ms|).s.blocks);
    forall i | 0 <= i < |ms|
      ensures WithBits(bits[i], tabs[i])
        == if o == NULL then UnmarkAll(ms, u.blocks, Loc(0, g), n)[i] else MarkAll(ms, u.blocks, Loc(0, g), n, o)[i]
    {
      assert IsMain(ms, i);
      SharesAndBits(ms, u, g, n, o, i);
    }
  }

  /** A huge step whose bits and tables are those of `bs`. */
  lemma {:induction false} AllBlocks(ms: seq<MemInfo>, c: Conc, a: L.Action, tabs: seq<Tab>, bs: seq<Block>)
    requires AllMain(ms) && WellSized(ms, c) && L.Inv(|ms|, c.sys) && L.Enabled(|ms|, c.sys, a)
    requires a.Change? && L.OpOf(|ms|, c.sys, a) == L.SetAll(a.result)
    requires AllSized(ms, bs) && |tabs| == |a.result| == |ms|
    requires forall i :: 0 <= i < |ms| ==> WithBits(a.result[i], tabs[i]) == bs[i]
    ensures var c' := Conc(L.Do(|ms|, c.sys, a), tabs);
      WellSized(ms, c') && Seen(c') == bs
  {
    L.StepIsAtomic(|ms|, c.sys, a);
    var c' := Conc(L.Do(|ms|, c.sys, a), tabs);
    assert L.Abs(c'.sys) == a.result;
    assert c'.sys.shadow == a.result && c'.sys.blocks == c.sys.blocks;
    forall i | 0 <= i < |ms| ensures |a.result[i]| == |tabs[i].len| == |tabs[i].own| == ms[i].PageCount() {
      assert WithBits(a.result[i], tabs[i]) == bs[i] && Sized(SpanOf(ms, i), bs[i]);
      assert Sized(SpanOf(ms, i), WithBits(c.sys.blocks[i], c.tabs[i]));
    }
  }

  lemma {:induction false} HugeFits(ms: seq<MemInfo>, c: Conc, t: nat, n: nat)
    requires AllMain(ms) && Exact(ms, c) && L.Inv(|ms|, c.sys) && n > 0
    requires L.PcOf(c.sys, t).Locking? && L.PcOf(c.sys, t).k == |ms|
    ensures var h := HeapOf(c.sys.heads);
      match FirstFit(FlatShadow(ms, c), 0, n) {
        case Some(g) => LowestVacant(ms, h, n, g) && g !in c.sys.heads
        case None => NoneVacant(ms, h, n)
      }
  {
    var h := HeapOf(c.sys.heads);
    AllHeldIsSeen(ms, c, t);
    forall q: nat | q + n <= MainPages(ms) ensures FreeRun(FlatShadow(ms, c), q, n) <==> Vacant(h, Loc(0, q), n) {
      ShadowClearIffVacant(ms, Seen(c), h, FlatShadow(ms, c), q, n);
    }
    var fit := FirstFit(FlatShadow(ms, c), 0, n);
    if fit.Some? { VacantNotLive(h, Loc(0, fit.value), n); }
  }

  /** The step of a huge allocation that finds room, in the tables. */
  lemma {:induction false} HugeTryIs(ms: seq<MemInfo>, c: Conc, t: nat, n: nat, o: nat, g: nat) returns (c': Conc)
    requires AllMain(ms) && WellSized(ms, c) && L.Inv(|ms|, c.sys) && Guard(ms, c, HugeTry(t, n, o))
    requires FirstFit(FlatShadow(ms, c), 0, n) == Some(g) && g !in c.sys.heads && AllSized(ms, Seen(c))
    ensures L.Enabled(|ms|, c.sys, ActionOf(ms, c, HugeTry(t, n, o)).value)
    ensures c' == Next(ms, c, HugeTry(t, n, o)) && WellSized(ms, c')
    ensures Seen(c') == MarkAll(ms, Seen(c), Loc(0, g), n, Session(o))
    ensures c'.sys.heads == c.sys.heads[g := L.Entry(n, o, Straddles(ms, g, n))]
  {
    var call := HugeTry(t, n, o);
    AllHeldIsSeen(ms, c, t);
    AllSharesAndBits(ms, AsMm(ms, c), g, n, Session(o));
    var bs := MarkAll(ms, Seen(c), Loc(0, g), n, Session(o));
    AllBlocks(ms, c, ActionOf(ms, c, call).value, NextTabs(ms, c, call), bs);
    c' := Next(ms, c, call);
  }

  lemma {:induction false} HugeTakes(ms: seq<MemInfo>, c: Conc, t: nat, n: nat, o: nat, g: nat)
    requires AllMain(ms) && Exact(ms, c) && L.Inv(|ms|, c.sys) && Guard(ms, c, HugeTry(t, n, o))
    requires FirstFit(FlatShadow(ms, c), 0, n) == Some(g)
    requires Vacant(HeapOf(c.sys.heads), Loc(0, g), n) && g !in c.sys.heads
    ensures L.Enabled(|ms|, c.sys, ActionOf(ms, c, HugeTry(t, n, o)).value)
    ensures var c' := Next(ms, c, HugeTry(t, n, o));
      Exact(ms, c') && HeapOf(c'.sys.heads) == HeapOf(c.sys.heads)[Loc(0, g) := Range(n, Session(o))]
  {
    var e := L.Entry(n, o, Straddles(ms, g, n));
    var c' := HugeTryIs(ms, c, t, n, o, g);
    MarkAllRefines(ms, Seen(c), HeapOf(c.sys.heads), Loc(0, g), n, Session(o));
    HeapOfAdd(c.sys.heads, g, e);
    FlagsAdd(ms, c.sys.heads, g, e);
  }

  lemma {:induction false} HugeTryKeeps(ms: seq<MemInfo>, c: Conc, t: nat, n: nat, o: nat)
    requires AllMain(ms) && Exact(ms, c) && L.Inv(|ms|, c.sys) && Guard(ms, c, HugeTry(t, n, o))
    ensures Keeps(ms, c, HugeTry(t, n, o))
  {
    HugeFits(ms, c, t, n);
    var fit := FirstFit(FlatShadow(ms, c), 0, n);
    if fit.Some? {
      HugeTakes(ms, c, t, n, o, fit.value);
    } else {
      SameExact(ms, c, ActionOf(ms, c, HugeTry(t, n, o)).value);
    }
  }

  /** The tables of the block a live range starts in name its owner. */
  lemma {:induction false} HeadInTabs(ms: seq<MemInfo>, bs: seq<Block>, heads: map<nat, L.Entry>,
                                      k: nat, p: nat, g: nat)
    requires IsMain(ms, k) && Refines(ms, bs, HeapOf(heads)) && g in heads
    requires p < ms[k].PageCount() && g == MainBegin(ms, k) + p
    ensures |bs[k].own| == ms[k].PageCount() && bs[k].own[p] == Session(heads[g].owner)
    ensures heads[g].len > 0 && g + heads[g].len <= MainPages(ms)
  {
    var h := HeapOf(heads);
    assert Loc(0, g) in h && h[Loc(0, g)] == Range(heads[g].len, Session(heads[g].owner));
    assert Represents(SpanOf(ms, k), bs[k], h);
    assert PageOk(SpanOf(ms, k), bs[k], h, p);
  }

  lemma {:induction false} PendingPasses(sys: L.Sys, t: nat, job: L.Job)
    requires F.TableOk(sys) && F.PendingOk(sys, t) && L.Pending(L.PcOf(sys, t)) == Some(job) && job.Free?
    ensures L.Accepted(sys, job) && sys.table[job.g] == sys.heads[job.g].len
  {
  }

  /** A huge free whose allocation is still there passes both tests, and the
      shadow's length is the one the allocation was recorded with. */
  lemma {:induction false} HugeFreePasses(ms: seq<MemInfo>, c: Conc, t: nat, job: L.Job)
    requires AllMain(ms) && Exact(ms, c) && Guard(ms, c, HugeFree(t)) && job == L.PcOf(c.sys, t).job
    requires F.TableOk(c.sys) && F.PendingOk(c.sys, t) && HomeOk(ms, c.sys, t)
    ensures Passes(ms, c, job) && L.Accepted(c.sys, job)
    ensures c.sys.table[job.g] == c.sys.heads[job.g].len > 0 && job.g + c.sys.table[job.g] <= MainPages(ms)
  {
    assert L.Pending(L.PcOf(c.sys, t)) == Some(job);
    PendingPasses(c.sys, t, job);
    var p := job.g - MainBegin(ms, job.home);
    assert IsMain(ms, job.home) && p < ms[job.home].PageCount();
    HeadInTabs(ms, Seen(c), c.sys.heads, job.home, p, job.g);
    assert Seen(c)[job.home].own == c.tabs[job.home].own;
  }

  lemma {:induction false} HugeFreeActs(ms: seq<MemInfo>, c: Conc, t: nat, g: nat, n: nat)
    returns (a: L.Action, tabs: seq<Tab>)
    requires AllMain(ms) && WellSized(ms, c) && Guard(ms, c, HugeFree(t)) && g + n <= MainPages(ms)
    requires var job := L.PcOf(c.sys, t).job;
      Passes(ms, c, job) && L.Accepted(c.sys, job) && job.g == g && c.sys.table[g] == n
    ensures a == L.Change(t, Regions(ms, Fill(FlatShadow(ms, c), g, n, false)), None)
    ensures tabs == TabsOf(ShareRun(ms, Cursor(AsMm(ms, c), g, n, true), NULL, |ms|).s.blocks)
    ensures ActionOf(ms, c, HugeFree(t)) == Some(a) && L.Enabled(|ms|, c.sys, a)
    ensures L.OpOf(|ms|, c.sys, a) == L.SetAll(a.result) && L.Do(|ms|, c.sys, a).heads == c.sys.heads - {g}
    ensures Next(ms, c, HugeFree(t)) == Conc(L.Do(|ms|, c.sys, a), tabs)
  {
    a := L.Change(t, Regions(ms, Fill(FlatShadow(ms, c), g, n, false)), None);
    tabs := NextTabs(ms, c, HugeFree(t));
  }

  lemma {:induction false} HugeFreeIs(ms: seq<MemInfo>, c: Conc, t: nat, g: nat, n: nat) returns (c': Conc)
    requires AllMain(ms) && WellSized(ms, c) && L.Inv(|ms|, c.sys) && Guard(ms, c, HugeFree(t))
    requires AllSized(ms, Seen(c)) && n > 0 && g + n <= MainPages(ms)
    requires var job := L.PcOf(c.sys, t).job;
      Passes(ms, c, job) && L.Accepted(c.sys, job) && job.g == g && c.sys.table[g] == n
    ensures L.Enabled(|ms|, c.sys, ActionOf(ms, c, HugeFree(t)).value)
    ensures c' == Next(ms, c, HugeFree(t)) && WellSized(ms, c')
    ensures Seen(c') == UnmarkAll(ms, Seen(c), Loc(0, g), n)
    ensures c'.sys.heads == c.sys.heads - {g}
  {
    var a, tabs := HugeFreeActs(ms, c, t, g, n);
    var bs := UnmarkAll(ms, Seen(c), Loc(0, g), n);
    assert forall i :: 0 <= i < |ms| ==> WithBits(a.result[i], tabs[i]) == bs[i] by {
      AllHeldIsSeen(ms, c, t);
      AllSharesAndBits(ms, AsMm(ms, c), g, n, NULL);
    }
    c' := Conc(L.Do(|ms|, c.sys, a), tabs);
    AllBlocks(ms, c, a, tabs, bs);
  }

  lemma {:induction false} HugeFreeKeeps(ms: seq<MemInfo>, c: Conc, t: nat)
    requires AllMain(ms) && Exact(ms, c) && L.Inv(|ms|, c.sys) && Guard(ms, c, HugeFree(t))
    requires F.TableOk(c.sys) && F.PendingOk(c.sys, t) && HomeOk(ms, c.sys, t)
    ensures Keeps(ms, c, HugeFree(t))
  {
    var g := L.PcOf(c.sys, t).job.g;
    HugeFreePasses(ms, c, t, L.PcOf(c.sys, t).job);
    var c' := HugeFreeIs(ms, c, t, g, c.sys.table[g]);
    UnmarkAllRefines(ms, Seen(c), HeapOf(c.sys.heads), Loc(0, g));
    HeapOfRemove(c.sys.heads, g);
  }

  // ----- every step and every run -----

  lemma {:induction false} StepKeeps(ms: seq<MemInfo>, c: Conc, call: Call)
    requires Sound(ms, c) && Guard(ms, c, call)
    ensures Keeps(ms, c, call)
  {
    match call
    case Plain(a) => SameExact(ms, c, a);
    case Try(t, n, o) => TryKeeps(ms, c, t, n, o);
    case FreeAt(t, p, o) => FreeAtKeeps(ms, c, t, p, o);
    case HugeTry(t, n, o) => HugeTryKeeps(ms, c, t, n, o);
    case HugeFree(t) =>
      assert F.PendingOk(c.sys, t) && HomeOk(ms, c.sys, t);
      HugeFreeKeeps(ms, c, t);
  }

  lemma {:induction false} HomesKept(ms: seq<MemInfo>, c: Conc, call: Call, a: L.Action, t: nat)
    requires AllMain(ms) && WellSized(ms, c) && L.Inv(|ms|, c.sys) && Guard(ms, c, call)
    requires ActionOf(ms, c, call) == Some(a) && L.Enabled(|ms|, c.sys, a) && HomeOk(ms, c.sys, t)
    ensures HomeOk(ms, L.Do(|ms|, c.sys, a), t)
  {
    F.PendingAfter(|ms|, c.sys, a, t);
    if call.FreeAt? { assert a.HandOff? ==> a.t == call.t && L.PcOf(c.sys, a.t).Hold?; }
  }

  /** Every step of every thread that starts no second free of an allocation
      keeps everything and is its whole call on the map, or none of it. */
  lemma {:induction false} StepSound(ms: seq<MemInfo>, c: Conc, call: Call)
    requires Sound(ms, c) && Guard(ms, c, call) && Single(ms, c, call)
    ensures Keeps(ms, c, call) && Sound(ms, Next(ms, c, call))
  {
    StepKeeps(ms, c, call);
    var a := ActionOf(ms, c, call);
    if a.Some? {
      forall t: nat ensures HomeOk(ms, L.Do(|ms|, c.sys, a.value), t) { HomesKept(ms, c, call, a.value, t); }
      L.InvStep(|ms|, c.sys, a.value);
      F.FreesStep(|ms|, c.sys, a.value);
    }
  }

  /** The steps can be taken one after the other. */
  ghost predicate Goes(ms: seq<MemInfo>, c: Conc, calls: seq<Call>)
    requires AllMain(ms) && WellSized(ms, c)
    decreases |calls|
  {
    |calls| > 0 ==>
      Guard(ms, c, calls[0]) && (NextSized(ms, c, calls[0]); Goes(ms, Next(ms, c, calls[0]), calls[1..]))
  }

  /** None of them starts a second free of an allocation. */
  ghost predicate Singles(ms: seq<MemInfo>, c: Conc, calls: seq<Call>)
    requires AllMain(ms) && WellSized(ms, c)
    decreases |calls|
  {
    |calls| > 0 ==>
      Single(ms, c, calls[0]) && (NextSized(ms, c, calls[0]); Singles(ms, Next(ms, c, calls[0]), calls[1..]))
  }

  ghost function After(ms: seq<MemInfo>, c: Conc, calls: seq<Call>): (r: Conc)
    requires AllMain(ms) && WellSized(ms, c) && Goes(ms, c, calls)
    ensures WellSized(ms, r)
    decreases |calls|
  {
    if |calls| == 0 then c
    else NextSized(ms, c, calls[0]); After(ms, Next(ms, c, calls[0]), calls[1..])
  }

  /** The calls of a run where they take effect, in order. */
  ghost function Effects(ms: seq<MemInfo>, c: Conc, calls: seq<Call>): (r: seq<Effect>)
    requires AllMain(ms) && WellSized(ms, c) && Goes(ms, c, calls)
    ensures |r| == |calls|
    decreases |calls|
  {
    if |calls| == 0 then []
    else
      NextSized(ms, c, calls[0]);
      [EffectOf(ms, c, calls[0])] + Effects(ms, Next(ms, c, calls[0]), calls[1..])
  }

  /** The calls, made one at a time, lead from the one map to the other. */
  ghost predicate MapRun(ms: seq<MemInfo>, h: Heap, es: seq<Effect>, h': Heap)
    decreases |es|
  {
    if |es| == 0 then h' == h
    else exists h1 :: MapMove(ms, h, h1, es[0]) && MapRun(ms, h1, es[1..], h')
  }

  /** However the threads interleave, the map of live ranges goes through whole
      calls one at a time, in the order in which they take effect, and in the end
      the tables, as everybody will see them, hold exactly that map. */
  lemma {:induction false} RunRefines(ms: seq<MemInfo>, c: Conc, calls: seq<Call>)
    requires Sound(ms, c) && Goes(ms, c, calls) && Singles(ms, c, calls)
    ensures var r := After(ms, c, calls);
      && Sound(ms, r) && Refines(ms, Seen(r), HeapOf(r.sys.heads))
      && MapRun(ms, HeapOf(c.sys.heads), Effects(ms, c, calls), HeapOf(r.sys.heads))
    decreases |calls|
  {
    if |calls| > 0 {
      StepSound(ms, c, calls[0]);
      var c1 := Next(ms, c, calls[0]);
      RunRefines(ms, c1, calls[1..]);
      assert Effects(ms, c, calls)[1..] == Effects(ms, c1, calls[1..]);
    }
  }

  /** What the threads do in terms of the protocol. */
  ghost function Actions(ms: seq<MemInfo>, c: Conc, calls: seq<Call>): seq<L.Action>
    requires AllMain(ms) && WellSized(ms, c) && Goes(ms, c, calls)
    decreases |calls|
  {
    if |calls| == 0 then []
    else
      NextSized(ms, c, calls[0]);
      var a := ActionOf(ms, c, calls[0]);
      var rest := Actions(ms, Next(ms, c, calls[0]), calls[1..]);
      if a.None? then rest else [a.value] + rest
  }

  /** Every run with single frees is a run of the protocol, so what holds of those holds here: no
      update is lost, nobody waits in a circle and nobody returns early. */
  lemma {:induction false} RunsTheProtocol(ms: seq<MemInfo>, c: Conc, calls: seq<Call>)
    requires Sound(ms, c) && Goes(ms, c, calls) && Singles(ms, c, calls)
    ensures L.Runs(|ms|, c.sys, Actions(ms, c, calls))
    ensures F.SingleFrees(|ms|, c.sys, Actions(ms, c, calls))
    ensures L.After(|ms|, c.sys, Actions(ms, c, calls)) == After(ms, c, calls).sys
    decreases |calls|
  {
    if |calls| > 0 {
      StepSound(ms, c, calls[0]);
      var c1 := Next(ms, c, calls[0]);
      RunsTheProtocol(ms, c1, calls[1..]);
      var a := ActionOf(ms, c, calls[0]);
      if a.Some? { F.Prepend(|ms|, c.sys, a.value, Actions(ms, c1, calls[1..])); }
    }
  }

  /** With nobody in a call, it is the tables in memory that hold the map. */
  lemma {:induction false} QuietIsExact(ms: seq<MemInfo>, c: Conc)
    requires Sound(ms, c) && L.Quiet(c.sys)
    ensures Refines(ms, Blocks(c), HeapOf(c.sys.heads))
  {
    assert L.Abs(c.sys) == c.sys.blocks;
    assert Blocks(c) == Seen(c);
  }

  /** The state kl_mm_init leaves is sound. */
  lemma {:induction false} StartIsSound(ms: seq<MemInfo>, c: Conc)
    requires AllMain(ms) && WellSized(ms, c)
    requires forall k :: 0 <= k < |ms| ==> Blocks(c)[k] == EmptyBlock(ms[k].PageCount()) && c.sys.locks[k] == None
    requires c.sys.pcs == map[] && c.sys.heads == map[] && c.sys.table == map[]
    ensures Sound(ms, c)
  {
    L.InvInit(|ms|, c.sys);
    assert L.Abs(c.sys) == c.sys.blocks;
    assert Blocks(c) == Seen(c);
    EmptyRefines(ms, Seen(c));
  }
}
