/** Two frees of one straddling allocation, in the tables the code computes: how
    the second comes to return early with every lock held, and which runs are
    safe from that. */
module TwoFrees {
  import opened Wrappers
  import opened Bitmaps
  import opened LiveRanges
  import opened Layout
  import opened Memory
  import opened PageTables
  import opened ConcurrentTables
  import L = LockProtocol
  import F = HugeFrees

  /** All that `Sound` asks but that no two frees of one allocation are under way. */
  ghost predicate Ready(ms: seq<MemInfo>, c: Conc) {
    && AllMain(ms) && Exact(ms, c) && L.Inv(|ms|, c.sys)
    && F.TableOk(c.sys) && L.NoneStuck(c.sys) && F.AllPendingOk(c.sys)
    && (forall t: nat :: HomeOk(ms, c.sys, t))
  }

  /** The free under way will find its allocation, or its page is free. */
  ghost predicate FoundOrGone(sys: L.Sys, t: nat) {
    var j := L.Pending(L.PcOf(sys, t));
    j.Some? && !F.PendingOk(sys, t) ==> j.value.Free? && j.value.g !in sys.heads
  }

  /** What draining asks of the frees under way. */
  ghost predicate FreesKnown(ms: seq<MemInfo>, s: L.Sys) {
    F.TableOk(s) && L.NoneStuck(s) && forall w: nat :: HomeOk(ms, s, w) && FoundOrGone(s, w)
  }

  /** What letting the calls under way come to their end keeps. */
  ghost predicate Draining(ms: seq<MemInfo>, c: Conc) {
    AllMain(ms) && Exact(ms, c) && L.Inv(|ms|, c.sys) && FreesKnown(ms, c.sys)
  }

  // ----- the tests of the code and those of the protocol -----

  /** The owner table names exactly the owners of first pages. */
  lemma {:induction false} OwnTells(ms: seq<MemInfo>, bs: seq<Block>, heads: map<nat, L.Entry>,
                                    k: nat, p: nat, g: nat, o: nat)
    requires IsMain(ms, k) && p < ms[k].PageCount() && Refines(ms, bs, HeapOf(heads))
    requires g == MainBegin(ms, k) + p
    ensures |bs[k].own| == ms[k].PageCount()
    ensures bs[k].own[p] == Session(o) <==> g in heads && heads[g].owner == o
  {
    assert Represents(SpanOf(ms, k), bs[k], HeapOf(heads));
    assert PageOk(SpanOf(ms, k), bs[k], HeapOf(heads), p);
    HeapOfHas(heads, g);
  }

  /** The tests of __free_huge_mem on the tables pass exactly when the
      allocation is live and the shadow has its length. */
  lemma {:induction false} PassesIff(ms: seq<MemInfo>, c: Conc, job: L.Job)
    requires AllMain(ms) && Exact(ms, c) && job.Free? && job.home < |ms|
    requires MainBegin(ms, job.home) <= job.g < MainBegin(ms, job.home) + ms[job.home].PageCount()
    ensures Passes(ms, c, job) <==> L.Accepted(c.sys, job)
  {
    assert IsMain(ms, job.home);
    OwnTells(ms, Seen(c), c.sys.heads, job.home, job.g - MainBegin(ms, job.home), job.g, job.owner);
    assert Seen(c)[job.home].own == c.tabs[job.home].own;
  }

  // ----- letting the calls under way come to their end -----

  /** The call that takes the thread of `a` on as `a` does in the protocol; an
      allocation is one for which there is no room anywhere. */
  function DrainCall(ms: seq<MemInfo>, sys: L.Sys, a: L.Action): Call {
    if !a.Change? then Plain(a)
    else if L.PcOf(sys, a.t).Locking? && L.PcOf(sys, a.t).job.Free? then HugeFree(a.t)
    else HugeTry(a.t, MainPages(ms) + 1, 0)
  }

  /** The step `a'` that the code takes for it. */
  ghost predicate Drained(ms: seq<MemInfo>, c: Conc, a: L.Action, a': L.Action)
    requires AllMain(ms) && WellSized(ms, c)
  {
    var call := DrainCall(ms, c.sys, a);
    && Guard(ms, c, call) && ActionOf(ms, c, call) == Some(a') && L.Enabled(|ms|, c.sys, a')
    && L.Drains(a') && a'.t == a.t && (a'.Change? <==> a.Change?)
  }

  lemma {:induction false} DrainPlain(ms: seq<MemInfo>, c: Conc, a: L.Action)
    requires Draining(ms, c) && L.Enabled(|ms|, c.sys, a) && L.Drains(a) && !a.Change?
    ensures Drained(ms, c, a, a) && Exact(ms, Next(ms, c, Plain(a)))
  {
    SameExact(ms, c, a);
  }

  lemma {:induction false} DrainAlloc(ms: seq<MemInfo>, c: Conc, a: L.Action)
    requires Draining(ms, c) && L.Enabled(|ms|, c.sys, a) && a.Change? && !L.PcOf(c.sys, a.t).job.Free?
    ensures Drained(ms, c, a, L.Change(a.t, c.sys.shadow, None))
    ensures Exact(ms, Next(ms, c, DrainCall(ms, c.sys, a)))
  {
    assert FirstFit(FlatShadow(ms, c), 0, MainPages(ms) + 1) == None;
    SameExact(ms, c, L.Change(a.t, c.sys.shadow, None));
  }

  lemma {:induction false} DrainFound(ms: seq<MemInfo>, c: Conc, a: L.Action) returns (a': L.Action)
    requires Draining(ms, c) && L.Enabled(|ms|, c.sys, a) && a.Change? && L.PcOf(c.sys, a.t).job.Free?
    requires F.PendingOk(c.sys, a.t)
    ensures Drained(ms, c, a, a') && Exact(ms, Next(ms, c, HugeFree(a.t)))
  {
    assert L.PcOk(|ms|, c.sys, a.t) && HomeOk(ms, c.sys, a.t);
    var job := L.PcOf(c.sys, a.t).job;
    HugeFreePasses(ms, c, a.t, job);
    var b, _ := HugeFreeActs(ms, c, a.t, job.g, c.sys.table[job.g]);
    HugeFreeKeeps(ms, c, a.t);
    a' := b;
  }

  lemma {:induction false} DrainGone(ms: seq<MemInfo>, c: Conc, a: L.Action)
    requires Draining(ms, c) && L.Enabled(|ms|, c.sys, a) && a.Change? && L.PcOf(c.sys, a.t).job.Free?
    requires !F.PendingOk(c.sys, a.t)
    ensures Drained(ms, c, a, L.Change(a.t, c.sys.shadow, None))
    ensures L.PcOf(Next(ms, c, HugeFree(a.t)).sys, a.t).Stuck?
  {
    var job := L.PcOf(c.sys, a.t).job;
    assert L.PcOk(|ms|, c.sys, a.t) && HomeOk(ms, c.sys, a.t) && FoundOrGone(c.sys, a.t);
    assert L.Pending(L.PcOf(c.sys, a.t)) == Some(job);
    PassesIff(ms, c, job);
  }

  /** A free that would find its allocation still does, or its page is free. */
  lemma {:induction false} FoundStep(n: nat, s: L.Sys, a: L.Action, t: nat)
    requires L.Inv(n, s) && L.Enabled(n, s, a) && L.Drains(a) && F.TableOk(s) && FoundOrGone(s, t)
    ensures FoundOrGone(L.Do(n, s, a), t)
  {
    F.PendingAfter(n, s, a, t);
  }

  lemma {:induction false} DrainKeeps(ms: seq<MemInfo>, c: Conc, a: L.Action, a': L.Action)
    requires Draining(ms, c) && Drained(ms, c, a, a')
    requires var c' := Next(ms, c, DrainCall(ms, c.sys, a)); Exact(ms, c') && L.NoneStuck(c'.sys)
    ensures Draining(ms, Next(ms, c, DrainCall(ms, c.sys, a)))
  {
    var call := DrainCall(ms, c.sys, a);
    L.InvStep(|ms|, c.sys, a');
    F.TableStep(|ms|, c.sys, a');
    forall t: nat ensures HomeOk(ms, L.Do(|ms|, c.sys, a'), t) && FoundOrGone(L.Do(|ms|, c.sys, a'), t) {
      assert HomeOk(ms, c.sys, t) && FoundOrGone(c.sys, t);
      HomesKept(ms, c, call, a', t);
      FoundStep(|ms|, c.sys, a', t);
    }
  }

  /** Some thread can be taken on, whichever thread is in a call. */
  lemma {:induction false} DrainStep(ms: seq<MemInfo>, c: Conc, t: nat) returns (call: Call, a: L.Action)
    requires Draining(ms, c) && !L.PcOf(c.sys, t).Idle?
    ensures Guard(ms, c, call) && ActionOf(ms, c, call) == Some(a) && L.Enabled(|ms|, c.sys, a) && L.Drains(a)
    ensures Single(ms, c, call) && Next(ms, c, call).sys == L.Do(|ms|, c.sys, a)
    ensures F.TotalWork(|ms|, Next(ms, c, call).sys.pcs) < F.TotalWork(|ms|, c.sys.pcs)
    ensures L.NoneStuck(Next(ms, c, call).sys) ==> Draining(ms, Next(ms, c, call))
  {
    var b := L.Progress(|ms|, c.sys, t);
    call, a := DrainCall(ms, c.sys, b), b;
    if !b.Change? {
      DrainPlain(ms, c, b);
    } else if L.PcOf(c.sys, b.t).job.Free? {
      if F.PendingOk(c.sys, b.t) {
        a := DrainFound(ms, c, b);
      } else {
        DrainGone(ms, c, b);
        a := L.Change(b.t, c.sys.shadow, None);
      }
    } else {
      DrainAlloc(ms, c, b);
      a := L.Change(b.t, c.sys.shadow, None);
    }
    F.WorkFalls(|ms|, c.sys, a);
    if L.NoneStuck(Next(ms, c, call).sys) { DrainKeeps(ms, c, b, a); }
  }

  lemma {:induction false} First(ms: seq<MemInfo>, c: Conc, call: Call, calls: seq<Call>)
    requires AllMain(ms) && WellSized(ms, c) && Guard(ms, c, call) && WellSized(ms, Next(ms, c, call))
    requires Goes(ms, Next(ms, c, call), calls)
    ensures Goes(ms, c, [call] + calls) && After(ms, c, [call] + calls) == After(ms, Next(ms, c, call), calls)
    ensures Single(ms, c, call) && Singles(ms, Next(ms, c, call), calls) ==> Singles(ms, c, [call] + calls)
  {
    assert ([call] + calls)[1..] == calls;
  }

  /** A free whose allocation is gone ends in an early return when the calls
      under way come to their end. */
  lemma {:induction false} OrphanSticks(ms: seq<MemInfo>, c: Conc, u: nat) returns (calls: seq<Call>)
    requires Draining(ms, c) && L.Pending(L.PcOf(c.sys, u)).Some?
    requires !L.Accepted(c.sys, L.Pending(L.PcOf(c.sys, u)).value)
    ensures Goes(ms, c, calls) && Singles(ms, c, calls) && !L.NoneStuck(After(ms, c, calls).sys)
    decreases F.TotalWork(|ms|, c.sys.pcs)
  {
    var call, a := DrainStep(ms, c, u);
    var c' := Next(ms, c, call);
    F.DrainKeepsPending(|ms|, c.sys, a, u);
    NextSized(ms, c, call);
    calls := [];
    if L.NoneStuck(c'.sys) { calls := OrphanSticks(ms, c', u); }
    First(ms, c, call, calls);
    calls := [call] + calls;
  }

  /** So does one of two frees of the same allocation. */
  lemma {:induction false} ClashSticks(ms: seq<MemInfo>, c: Conc, t: nat, u: nat) returns (calls: seq<Call>)
    requires Draining(ms, c) && F.Clash(c.sys, t, u)
    ensures Goes(ms, c, calls) && Singles(ms, c, calls) && !L.NoneStuck(After(ms, c, calls).sys)
    decreases F.TotalWork(|ms|, c.sys.pcs)
  {
    var call, a := DrainStep(ms, c, t);
    var c' := Next(ms, c, call);
    F.DrainKeepsPending(|ms|, c.sys, a, t);
    F.DrainKeepsPending(|ms|, c.sys, a, u);
    NextSized(ms, c, call);
    calls := [];
    if L.NoneStuck(c'.sys) {
      if a.Change? && a.t == t { calls := OrphanSticks(ms, c', u); }
      else if a.Change? && a.t == u { calls := OrphanSticks(ms, c', t); }
      else { calls := ClashSticks(ms, c', t, u); }
    }
    First(ms, c, call, calls);
    calls := [call] + calls;
  }

  // ----- the exact condition -----

  /** Whatever the threads do from here on, short of starting a second free of
      an allocation, nobody returns early. */
  ghost predicate Safe(ms: seq<MemInfo>, c: Conc)
    requires AllMain(ms) && WellSized(ms, c)
  {
    forall calls: seq<Call> :: Goes(ms, c, calls) && Singles(ms, c, calls) ==> L.NoneStuck(After(ms, c, calls).sys)
  }

  /** A state is safe exactly when no two frees of one allocation are under way. */
  lemma {:induction false} SafeIff(ms: seq<MemInfo>, c: Conc)
    requires Ready(ms, c)
    ensures Safe(ms, c) <==> F.OneFreeEach(c.sys)
  {
    if F.OneFreeEach(c.sys) {
      forall calls: seq<Call> | Goes(ms, c, calls) && Singles(ms, c, calls)
        ensures L.NoneStuck(After(ms, c, calls).sys)
      {
        RunRefines(ms, c, calls);
      }
    } else {
      var t: nat, u: nat :| F.Clash(c.sys, t, u);
      forall w: nat ensures FoundOrGone(c.sys, w) { assert F.PendingOk(c.sys, w); }
      var calls := ClashSticks(ms, c, t, u);
    }
  }

  lemma {:induction false} HandOffFrees(n: nat, s: L.Sys, a: L.Action)
    requires L.Inv(n, s) && a.HandOff? && L.Enabled(n, s, a)
    requires F.TableOk(s) && L.NoneStuck(s) && F.AllPendingOk(s)
    ensures var r := L.Do(n, s, a); F.TableOk(r) && L.NoneStuck(r) && F.AllPendingOk(r)
  {
    F.TableStep(n, s, a);
    forall t: nat ensures F.PendingOk(L.Do(n, s, a), t) && !L.PcOf(L.Do(n, s, a), t).Stuck? {
      assert F.PendingOk(s, t) && !L.PcOf(s, t).Stuck?;
    }
  }

  /** A hand-off keeps all but that no two frees of one allocation are under way. */
  lemma {:induction false} HandOffReady(ms: seq<MemInfo>, c: Conc, call: Call, a: L.Action)
    requires Ready(ms, c) && Guard(ms, c, call) && ActionOf(ms, c, call) == Some(a) && a.HandOff?
    ensures Ready(ms, Next(ms, c, call)) && L.Enabled(|ms|, c.sys, a)
    ensures Next(ms, c, call).sys == L.Do(|ms|, c.sys, a)
  {
    FreeAtKeeps(ms, c, call.t, call.p, call.o);
    L.InvStep(|ms|, c.sys, a);
    HandOffFrees(|ms|, c.sys, a);
    forall t: nat ensures HomeOk(ms, L.Do(|ms|, c.sys, a), t) {
      assert HomeOk(ms, c.sys, t);
      HomesKept(ms, c, call, a, t);
    }
  }

  /** Whether it does is seen from the frees under way before it. */
  lemma {:induction false} HandOffClash(n: nat, s: L.Sys, a: L.Action)
    requires L.Inv(n, s) && a.HandOff? && L.Enabled(n, s, a) && F.OneFreeEach(s)
    ensures F.OneFreeEach(L.Do(n, s, a)) <==> F.FirstFree(s, a)
  {
    if F.FirstFree(s, a) {
      F.NoClashStep(n, s, a);
    } else {
      var u: nat :| L.Pending(L.PcOf(s, u)).Some? && L.Pending(L.PcOf(s, u)).value.g == a.g;
      assert F.Clash(L.Do(n, s, a), a.t, u);
    }
  }

  /** A free may be handed to the huge path exactly when no other free of the
      allocation is on its way there. */
  lemma {:induction false} HandOffSafeIff(ms: seq<MemInfo>, c: Conc, call: Call)
    requires Sound(ms, c) && Guard(ms, c, call)
    requires ActionOf(ms, c, call).Some? && ActionOf(ms, c, call).value.HandOff?
    ensures WellSized(ms, Next(ms, c, call)) && (Safe(ms, Next(ms, c, call)) <==> Single(ms, c, call))
  {
    var a := ActionOf(ms, c, call).value;
    HandOffReady(ms, c, call, a);
    HandOffClash(|ms|, c.sys, a);
    SafeIff(ms, Next(ms, c, call));
  }

  /** The state and every later one of the run is safe. */
  ghost predicate SafeAlong(ms: seq<MemInfo>, c: Conc, calls: seq<Call>)
    requires AllMain(ms) && WellSized(ms, c)
    decreases |calls|
  {
    Safe(ms, c)
    && (|calls| > 0 ==> (NextSized(ms, c, calls[0]); SafeAlong(ms, Next(ms, c, calls[0]), calls[1..])))
  }

  /** A run of the code stays safe throughout exactly when it never starts a
      second free of an allocation whose first is under way. */
  lemma {:induction false} SafeAlongIff(ms: seq<MemInfo>, c: Conc, calls: seq<Call>)
    requires Sound(ms, c) && Goes(ms, c, calls)
    ensures SafeAlong(ms, c, calls) <==> Singles(ms, c, calls)
    decreases |calls|
  {
    SafeIff(ms, c);
    if |calls| > 0 {
      NextSized(ms, c, calls[0]);
      if Single(ms, c, calls[0]) {
        StepSound(ms, c, calls[0]);
        SafeAlongIff(ms, Next(ms, c, calls[0]), calls[1..]);
      } else {
        HandOffSafeIff(ms, c, calls[0]);
      }
    }
  }

  // ----- a run that gets there -----

  lemma {:induction false} Rest(ms: seq<MemInfo>, c: Conc, calls: seq<Call>)
    requires AllMain(ms) && WellSized(ms, c) && Goes(ms, c, calls) && |calls| > 0
    ensures Guard(ms, c, calls[0]) && WellSized(ms, Next(ms, c, calls[0]))
    ensures Goes(ms, Next(ms, c, calls[0]), calls[1..])
    ensures After(ms, c, calls) == After(ms, Next(ms, c, calls[0]), calls[1..])
  {
    NextSized(ms, c, calls[0]);
  }

  lemma {:induction false} Joined<T>(a: seq<T>, b: seq<T>)
    requires |a| > 0
    ensures a + b == [a[0]] + (a[1..] + b)
  {
  }

  /** Runs can be put one after the other. */
  lemma {:induction false} Then(ms: seq<MemInfo>, c: Conc, calls: seq<Call>, more: seq<Call>, joined: seq<Call>)
    requires AllMain(ms) && WellSized(ms, c) && Goes(ms, c, calls) && Goes(ms, After(ms, c, calls), more)
    requires joined == calls + more
    ensures Goes(ms, c, joined) && After(ms, c, joined) == After(ms, After(ms, c, calls), more)
    decreases |calls|
  {
    if |calls| == 0 {
      assert calls + more == more;
    } else {
      Rest(ms, c, calls);
      var c1, rest := Next(ms, c, calls[0]), calls[1..] + more;
      Then(ms, c1, calls[1..], more, rest);
      First(ms, c, calls[0], rest);
      Joined(calls, more);
    }
  }

  lemma {:induction false} Last(ms: seq<MemInfo>, c: Conc, calls: seq<Call>, call: Call)
    requires AllMain(ms) && WellSized(ms, c) && Goes(ms, c, calls) && Guard(ms, After(ms, c, calls), call)
    ensures Goes(ms, c, calls + [call]) && After(ms, c, calls + [call]) == Next(ms, After(ms, c, calls), call)
  {
    var c1 := After(ms, c, calls);
    NextSized(ms, c1, call);
    First(ms, c1, call, []);
    assert [call] + [] == [call];
    Then(ms, c, calls, [call], calls + [call]);
  }

  /** The state with the thread working on block `k` under its lock... */
  function Holding(s: L.Sys, t: nat, k: nat): L.Sys
    requires k < |s.locks|
  {
    s.(pcs := s.pcs[t := L.Hold(k)], locks := s.locks[k := Some(t)])
  }

  /** ...and on its way to the huge path with the range at shadow page `g`. */
  function UnderWay(s: L.Sys, t: nat, k: nat, g: nat, o: nat): L.Sys {
    s.(pcs := s.pcs[t := L.Locking(0, L.Free(g, o, k))])
  }

  lemma {:induction false} EnterSteps(n: nat, s: L.Sys, t: nat, k: nat)
    requires |s.locks| == |s.blocks| == |s.shadow| == n && L.PcOf(s, t).Idle? && k < n && s.locks[k].None?
    ensures L.Enabled(n, s, L.Start(t, k)) && L.Enabled(n, L.Do(n, s, L.Start(t, k)), L.Take(t))
    ensures L.Do(n, L.Do(n, s, L.Start(t, k)), L.Take(t)) == Holding(s, t, k)
  {
    assert s.pcs[t := L.Want(k)][t := L.Hold(k)] == s.pcs[t := L.Hold(k)];
  }

  lemma {:induction false} LeaveStep(n: nat, s: L.Sys, t: nat, k: nat, g: nat, o: nat)
    requires |s.locks| == |s.blocks| == |s.shadow| == n && k < n && s.locks[k].None?
    requires g in s.heads && s.heads[g].owner == o && s.heads[g].straddles
    ensures L.Enabled(n, Holding(s, t, k), L.HandOff(t, g, o))
    ensures L.Do(n, Holding(s, t, k), L.HandOff(t, g, o)) == UnderWay(s, t, k, g, o)
  {
    var pc := L.Locking(0, L.Free(g, o, k));
    assert s.pcs[t := L.Hold(k)][t := pc] == s.pcs[t := pc];
    assert s.locks[k := Some(t)][k := None] == s.locks;
  }

  /** A step of the protocol that is no effect, taken in the tables. */
  lemma {:induction false} PlainStep(ms: seq<MemInfo>, c: Conc, a: L.Action)
    requires AllMain(ms) && Exact(ms, c) && L.Inv(|ms|, c.sys) && L.Enabled(|ms|, c.sys, a)
    requires !a.Place? && !a.Release? && !a.HandOff? && !a.Change?
    ensures var c' := Conc(L.Do(|ms|, c.sys, a), c.tabs);
      Exact(ms, c') && L.Inv(|ms|, c'.sys) && Guard(ms, c, Plain(a)) && Next(ms, c, Plain(a)) == c'
  {
    SameExact(ms, c, a);
    L.InvStep(|ms|, c.sys, a);
  }

  /** A call of an idle thread takes the lock of a block that nobody holds. */
  lemma {:induction false} Enters(ms: seq<MemInfo>, c: Conc, t: nat, k: nat, c': Conc)
    requires AllMain(ms) && Exact(ms, c) && L.Inv(|ms|, c.sys) && L.PcOf(c.sys, t).Idle?
    requires k < |ms| && c.sys.locks[k].None? && c' == Conc(Holding(c.sys, t, k), c.tabs)
    ensures Exact(ms, c') && L.Inv(|ms|, c'.sys)
    ensures var calls := [Plain(L.Start(t, k)), Plain(L.Take(t))];
      Goes(ms, c, calls) && After(ms, c, calls) == c'
  {
    EnterSteps(|ms|, c.sys, t, k);
    var start, take := L.Start(t, k), L.Take(t);
    PlainStep(ms, c, start);
    var c1 := Conc(L.Do(|ms|, c.sys, start), c.tabs);
    PlainStep(ms, c1, take);
    Last(ms, c, [], Plain(start));
    Last(ms, c, [Plain(start)], Plain(take));
    assert [] + [Plain(start)] == [Plain(start)] && [Plain(start)] + [Plain(take)] == [Plain(start), Plain(take)];
  }

  /** Both tests pass for the range, and the lock is dropped again. */
  lemma {:induction false} Leaves(ms: seq<MemInfo>, c: Conc, t: nat, k: nat, p: nat, g: nat, o: nat, c': Conc)
    requires AllMain(ms) && Exact(ms, c) && L.Inv(|ms|, c.sys) && L.PcOf(c.sys, t) == L.Hold(k)
    requires k < |ms| && p < ms[k].PageCount()
    requires g == MainBegin(ms, k) + p
    requires g in c.sys.heads && c.sys.heads[g].owner == o && c.sys.heads[g].straddles
    requires L.Enabled(|ms|, c.sys, L.HandOff(t, g, o))
    requires c' == Conc(L.Do(|ms|, c.sys, L.HandOff(t, g, o)), c.tabs)
    ensures Guard(ms, c, FreeAt(t, p, o)) && Next(ms, c, FreeAt(t, p, o)) == c'
    ensures Exact(ms, c') && L.Inv(|ms|, c'.sys)
  {
    TestsFindHead(ms, c, k, p, g, o);
    var a := FreeActs(ms, c, t, p, g, o, k);
    SameExact(ms, c, a);
    L.InvStep(|ms|, c.sys, a);
  }

  /** The first part of a free of a straddling allocation: the block's lock is
      taken, both tests pass, and the lock is dropped again. */
  lemma {:induction false} FreeBegins(ms: seq<MemInfo>, c: Conc, t: nat, k: nat, p: nat, g: nat, o: nat)
    returns (calls: seq<Call>)
    requires AllMain(ms) && Exact(ms, c) && L.Inv(|ms|, c.sys) && L.PcOf(c.sys, t).Idle?
    requires k < |ms| && c.sys.locks[k].None? && p < ms[k].PageCount()
    requires g == MainBegin(ms, k) + p
    requires g in c.sys.heads && c.sys.heads[g].owner == o && c.sys.heads[g].straddles
    ensures Goes(ms, c, calls)
    ensures var c' := Conc(UnderWay(c.sys, t, k, g, o), c.tabs);
      After(ms, c, calls) == c' && Exact(ms, c') && L.Inv(|ms|, c'.sys)
  {
    var c2 := Conc(Holding(c.sys, t, k), c.tabs);
    Enters(ms, c, t, k, c2);
    LeaveStep(|ms|, c.sys, t, k, g, o);
    Leaves(ms, c2, t, k, p, g, o, Conc(UnderWay(c.sys, t, k, g, o), c.tabs));
    calls := [Plain(L.Start(t, k)), Plain(L.Take(t))];
    Last(ms, c, calls, FreeAt(t, p, o));
    calls := calls + [FreeAt(t, p, o)];
  }

  lemma {:induction false} UnderWayKnown(ms: seq<MemInfo>, s: L.Sys, t: nat, k: nat, g: nat, o: nat)
    requires FreesKnown(ms, s) && k < |ms| && MainBegin(ms, k) <= g < MainBegin(ms, k) + ms[k].PageCount()
    requires g in s.heads && s.heads[g].owner == o && s.heads[g].straddles
    ensures FreesKnown(ms, UnderWay(s, t, k, g, o))
  {
    var r := UnderWay(s, t, k, g, o);
    forall w: nat ensures HomeOk(ms, r, w) && FoundOrGone(r, w) && !L.PcOf(r, w).Stuck? {
      assert HomeOk(ms, s, w) && FoundOrGone(s, w) && !L.PcOf(s, w).Stuck?;
    }
  }

  /** From any state with a straddling allocation whose block nobody holds, two
      idle threads can bring two frees of it under way. */
  lemma {:induction false} ClashHappens(ms: seq<MemInfo>, c: Conc, t: nat, u: nat, k: nat, p: nat, g: nat, o: nat)
    returns (calls: seq<Call>)
    requires Draining(ms, c) && t != u && L.PcOf(c.sys, t).Idle? && L.PcOf(c.sys, u).Idle?
    requires k < |ms| && c.sys.locks[k].None? && p < ms[k].PageCount() && g == MainBegin(ms, k) + p
    requires g in c.sys.heads && c.sys.heads[g].owner == o && c.sys.heads[g].straddles
    ensures Goes(ms, c, calls) && Draining(ms, After(ms, c, calls)) && F.Clash(After(ms, c, calls).sys, t, u)
  {
    var c1 := Conc(UnderWay(c.sys, t, k, g, o), c.tabs);
    UnderWayKnown(ms, c.sys, t, k, g, o);
    UnderWayKnown(ms, c1.sys, u, k, g, o);
    var first := FreeBegins(ms, c, t, k, p, g, o);
    var second := FreeBegins(ms, c1, u, k, p, g, o);
    calls := first + second;
    Then(ms, c, first, second, calls);
  }

  // ----- the same from the state kl_mm_init leaves -----

  /** Nobody but the thread is in a call. */
  ghost predicate Alone(s: L.Sys, t: nat) {
    forall u: nat :: u != t ==> L.PcOf(s, u).Idle?
  }

  lemma {:induction false} StaysAlone(n: nat, s: L.Sys, a: L.Action)
    requires |s.locks| == |s.blocks| == |s.shadow| == n && L.Enabled(n, s, a) && Alone(s, a.t)
    ensures Alone(L.Do(n, s, a), a.t)
  {
    forall u: nat | u != a.t ensures L.PcOf(L.Do(n, s, a), u).Idle? {
      assert L.PcOf(L.Do(n, s, a), u) == L.PcOf(s, u);
    }
  }

  lemma {:induction false} AloneStep(ms: seq<MemInfo>, c: Conc, a: L.Action)
    requires Sound(ms, c) && L.Enabled(|ms|, c.sys, a) && Alone(c.sys, a.t)
    requires a.StartHuge? || a.Lock? || a.Copy? || a.Back? || a.Unlock?
    ensures var c' := Conc(L.Do(|ms|, c.sys, a), c.tabs);
      && Guard(ms, c, Plain(a)) && Next(ms, c, Plain(a)) == c'
      && Sound(ms, c') && Alone(c'.sys, a.t) && c'.sys.heads == c.sys.heads
  {
    StepSound(ms, c, Plain(a));
    StaysAlone(|ms|, c.sys, a);
  }

  lemma {:induction false} NobodyHolds(n: nat, s: L.Sys, k: nat)
    requires L.Inv(n, s) && k < n && forall t: nat :: !L.Holds(n, L.PcOf(s, t), k)
    ensures s.locks[k].None?
  {
    forall t: nat ensures s.locks[k] != Some(t) { assert !L.Holds(n, L.PcOf(s, t), k); }
  }

  /** A huge allocation that nobody disturbs gets all the locks. */
  lemma {:induction false} LocksAll(ms: seq<MemInfo>, c: Conc, t: nat, k: nat) returns (calls: seq<Call>)
    requires Sound(ms, c) && Alone(c.sys, t) && k <= |ms| && L.PcOf(c.sys, t) == L.Locking(k, L.Alloc)
    ensures Goes(ms, c, calls)
    ensures var r := After(ms, c, calls);
      && Sound(ms, r) && Alone(r.sys, t) && r.sys.heads == c.sys.heads
      && L.PcOf(r.sys, t) == L.Locking(|ms|, L.Alloc)
    decreases |ms| - k
  {
    calls := [];
    if k < |ms| {
      NobodyHolds(|ms|, c.sys, k);
      AloneStep(ms, c, L.Lock(t));
      var c1 := Next(ms, c, Plain(L.Lock(t)));
      AloneStep(ms, c1, L.Copy(t));
      var c2 := Next(ms, c1, Plain(L.Copy(t)));
      var rest := LocksAll(ms, c2, t, k + 1);
      First(ms, c1, Plain(L.Copy(t)), rest);
      First(ms, c, Plain(L.Lock(t)), [Plain(L.Copy(t))] + rest);
      calls := [Plain(L.Lock(t))] + ([Plain(L.Copy(t))] + rest);
    }
  }

  /** Once it has changed the shadow, it comes to its end. */
  lemma {:induction false} ComesBack(ms: seq<MemInfo>, c: Conc, t: nat) returns (calls: seq<Call>)
    requires Sound(ms, c) && Alone(c.sys, t)
    requires var pc := L.PcOf(c.sys, t); pc.Idle? || ((pc.CopyBack? || pc.Releasing?) && pc.job == L.Alloc)
    ensures Goes(ms, c, calls)
    ensures var r := After(ms, c, calls); Sound(ms, r) && L.Quiet(r.sys) && r.sys.heads == c.sys.heads
    decreases F.TotalWork(|ms|, c.sys.pcs)
  {
    var pc := L.PcOf(c.sys, t);
    calls := [];
    if !pc.Idle? {
      assert L.PcOk(|ms|, c.sys, t);
      var a := if pc.CopyBack? then L.Back(t) else L.Unlock(t);
      AloneStep(ms, c, a);
      F.WorkFalls(|ms|, c.sys, a);
      calls := ComesBack(ms, Next(ms, c, Plain(a)), t);
      First(ms, c, Plain(a), calls);
      calls := [Plain(a)] + calls;
    }
  }

  /** The state kl_mm_init leaves. */
  ghost predicate Fresh(ms: seq<MemInfo>, c: Conc) {
    && AllMain(ms) && WellSized(ms, c)
    && (forall k :: 0 <= k < |ms| ==> Blocks(c)[k] == EmptyBlock(ms[k].PageCount()) && c.sys.locks[k] == None)
    && c.sys.pcs == map[] && c.sys.heads == map[] && c.sys.table == map[]
  }

  /** On free blocks one page more than the first has is a straddling range at page 0. */
  lemma {:induction false} OnePageMore(ms: seq<MemInfo>, c: Conc, t: nat, n: nat)
    requires AllMain(ms) && Exact(ms, c) && L.Inv(|ms|, c.sys) && c.sys.heads == map[]
    requires |ms| >= 2 && ms[0].PageCount() > 0 && ms[1].PageCount() > 0 && n == ms[0].PageCount() + 1
    requires L.PcOf(c.sys, t).Locking? && L.PcOf(c.sys, t).k == |ms|
    ensures FirstFit(FlatShadow(ms, c), 0, n) == Some(0) && Straddles(ms, 0, n)
  {
    assert IsMain(ms, 0) && IsMain(ms, 1);
    MainBeginMono(ms, 1, |ms|);
    BlockEndIs(ms, 0, 0, |ms|);
    HugeFits(ms, c, t, n);
    assert Vacant(HeapOf(c.sys.heads), Loc(0, 0), n);
  }

  /** The allocation itself, with all locks held. */
  lemma {:induction false} HugeTryAlone(ms: seq<MemInfo>, c: Conc, t: nat, n: nat, o: nat) returns (c': Conc)
    requires Sound(ms, c) && Alone(c.sys, t) && c.sys.heads == map[] && L.PcOf(c.sys, t) == L.Locking(|ms|, L.Alloc)
    requires |ms| > 0 && n > 0 && FirstFit(FlatShadow(ms, c), 0, n) == Some(0) && Straddles(ms, 0, n)
    ensures Guard(ms, c, HugeTry(t, n, o)) && c' == Next(ms, c, HugeTry(t, n, o))
    ensures Sound(ms, c') && Alone(c'.sys, t) && L.PcOf(c'.sys, t).CopyBack? && L.PcOf(c'.sys, t).job == L.Alloc
    ensures 0 in c'.sys.heads && c'.sys.heads[0].owner == o && c'.sys.heads[0].straddles
  {
    c' := HugeTryIs(ms, c, t, n, o, 0);
    StepSound(ms, c, HugeTry(t, n, o));
    StaysAlone(|ms|, c.sys, ActionOf(ms, c, HugeTry(t, n, o)).value);
  }

  /** A straddling allocation is made and comes to its end. */
  lemma {:induction false} StraddlingMade(ms: seq<MemInfo>, c: Conc, t: nat, o: nat) returns (calls: seq<Call>)
    requires Sound(ms, c) && Alone(c.sys, t) && c.sys.heads == map[] && L.PcOf(c.sys, t) == L.Locking(|ms|, L.Alloc)
    requires |ms| >= 2 && ms[0].PageCount() > 0 && ms[1].PageCount() > 0
    ensures Goes(ms, c, calls)
    ensures var r := After(ms, c, calls);
      && Sound(ms, r) && L.Quiet(r.sys)
      && 0 in r.sys.heads && r.sys.heads[0].owner == o && r.sys.heads[0].straddles
  {
    var n := ms[0].PageCount() + 1;
    OnePageMore(ms, c, t, n);
    var c1 := HugeTryAlone(ms, c, t, n, o);
    var back := ComesBack(ms, c1, t);
    First(ms, c, HugeTry(t, n, o), back);
    calls := [HugeTry(t, n, o)] + back;
  }

  /** All this from the beginning. */
  lemma {:induction false} StraddlingHappens(ms: seq<MemInfo>, c: Conc, o: nat) returns (calls: seq<Call>)
    requires Fresh(ms, c) && |ms| >= 2 && ms[0].PageCount() > 0 && ms[1].PageCount() > 0
    ensures Goes(ms, c, calls)
    ensures var r := After(ms, c, calls);
      && Sound(ms, r) && L.Quiet(r.sys)
      && 0 in r.sys.heads && r.sys.heads[0].owner == o && r.sys.heads[0].straddles
  {
    StartIsSound(ms, c);
    var start := L.StartHuge(0);
    AloneStep(ms, c, start);
    var c1 := Conc(L.Do(|ms|, c.sys, start), c.tabs);
    var locks := LocksAll(ms, c1, 0, 0);
    var rest := StraddlingMade(ms, After(ms, c1, locks), 0, o);
    Then(ms, c1, locks, rest, locks + rest);
    First(ms, c, Plain(start), locks + rest);
    calls := [Plain(start)] + (locks + rest);
  }

  /** So in every layout with two non-empty MAIN blocks the code, started from
      the state kl_mm_init leaves, can come to an early return: one session
      makes a straddling allocation and frees it from two threads at once. */
  lemma {:induction false} TwoFreesStick(ms: seq<MemInfo>, c: Conc, o: nat) returns (calls: seq<Call>)
    requires Fresh(ms, c) && |ms| >= 2 && ms[0].PageCount() > 0 && ms[1].PageCount() > 0
    ensures Goes(ms, c, calls) && !L.NoneStuck(After(ms, c, calls).sys)
  {
    var made := StraddlingHappens(ms, c, o);
    var c1 := After(ms, c, made);
    NobodyHolds(|ms|, c1.sys, 0);
    forall t: nat ensures FoundOrGone(c1.sys, t) { assert F.PendingOk(c1.sys, t); }
    var clash := ClashHappens(ms, c1, 0, 1, 0, 0, 0, o);
    var c2 := After(ms, c1, clash);
    var stuck := ClashSticks(ms, c2, 0, 1);
    Then(ms, c1, clash, stuck, clash + stuck);
    calls := made + (clash + stuck);
    Then(ms, c, made, clash + stuck, calls);
  }
}
