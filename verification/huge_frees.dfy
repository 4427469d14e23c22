/** Frees of straddling allocations: the lock of the block is dropped between
    the check and the huge path, and two tests there return early with every
    lock held. Which runs are safe from that, exactly. */
module HugeFrees {
  import opened Wrappers
  import opened LockProtocol

  /** Straddling allocations are in the shadow's table with their length. */
  ghost predicate TableOk(s: Sys) {
    forall g: nat :: g in s.heads && s.heads[g].straddles ==> g in s.table && s.table[g] == s.heads[g].len
  }

  /** A free on its way to the huge path will still find what it checked. */
  ghost predicate PendingOk(s: Sys, t: nat) {
    var j := Pending(PcOf(s, t));
    j.Some? ==> j.value.Free? && Accepted(s, j.value) && s.heads[j.value.g].straddles
  }

  ghost predicate AllPendingOk(s: Sys) {
    forall t: nat :: PendingOk(s, t)
  }

  /** The two threads are on their way to free the same allocation. */
  predicate Clash(s: Sys, t: nat, u: nat) {
    && t != u && Pending(PcOf(s, t)).Some? && Pending(PcOf(s, u)).Some?
    && Pending(PcOf(s, t)).value.g == Pending(PcOf(s, u)).value.g
  }

  /** No two frees of one allocation are on their way. */
  ghost predicate OneFreeEach(s: Sys) {
    forall t: nat, u: nat :: !Clash(s, t, u)
  }

  ghost predicate FreesOk(s: Sys) {
    TableOk(s) && NoneStuck(s) && OneFreeEach(s) && AllPendingOk(s)
  }

  /** The hand-off does not start a second free of an allocation. */
  ghost predicate FirstFree(s: Sys, a: Action) {
    a.HandOff? ==> forall u: nat :: Pending(PcOf(s, u)).Some? ==> Pending(PcOf(s, u)).value.g != a.g
  }

  lemma {:induction false} TableStep(n: nat, s: Sys, a: Action)
    requires Inv(n, s) && Enabled(n, s, a) && TableOk(s)
    ensures TableOk(Do(n, s, a))
  {
  }

  /** Only a hand-off puts a thread on its way to free a straddling range. */
  lemma {:induction false} PendingAfter(n: nat, s: Sys, a: Action, t: nat)
    requires Inv(n, s) && Enabled(n, s, a)
    ensures var j := Pending(PcOf(Do(n, s, a), t));
      j.None? || j == Pending(PcOf(s, t))
      || (a.HandOff? && t == a.t && j == Some(Free(a.g, a.owner, PcOf(s, t).k)))
  {
  }

  lemma {:induction false} NoClashStep(n: nat, s: Sys, a: Action)
    requires Inv(n, s) && Enabled(n, s, a) && OneFreeEach(s) && FirstFree(s, a)
    ensures OneFreeEach(Do(n, s, a))
  {
    forall t: nat, u: nat ensures !Clash(Do(n, s, a), t, u) {
      PendingAfter(n, s, a, t);
      PendingAfter(n, s, a, u);
      assert !Clash(s, t, u);
    }
  }

  /** A free under way will still find what it checked after the step of another
      thread that frees something else, and its own step does not get stuck. */
  lemma {:induction false} PendingStep(n: nat, s: Sys, a: Action, t: nat)
    requires Inv(n, s) && Enabled(n, s, a) && TableOk(s) && PendingOk(s, t) && PendingOk(s, a.t)
    requires !Clash(s, a.t, t) && !PcOf(s, t).Stuck?
    ensures PendingOk(Do(n, s, a), t) && !PcOf(Do(n, s, a), t).Stuck?
  {
  }

  lemma {:induction false} FreesStep(n: nat, s: Sys, a: Action)
    requires Inv(n, s) && Enabled(n, s, a) && FreesOk(s) && FirstFree(s, a)
    ensures FreesOk(Do(n, s, a))
  {
    var r := Do(n, s, a);
    NoClashStep(n, s, a);
    TableStep(n, s, a);
    assert PendingOk(s, a.t);
    forall t: nat ensures PendingOk(r, t) && !PcOf(r, t).Stuck? {
      assert !Clash(s, a.t, t) && PendingOk(s, t);
      PendingStep(n, s, a, t);
    }
  }

  /** The run never starts a second free of an allocation whose first is under way. */
  ghost predicate SingleFrees(n: nat, s: Sys, acts: seq<Action>)
    requires Inv(n, s) && Runs(n, s, acts)
    decreases |acts|
  {
    |acts| > 0 ==>
      FirstFree(s, acts[0])
      && (InvStep(n, s, acts[0]); SingleFrees(n, Do(n, s, acts[0]), acts[1..]))
  }

  /** In every run with at most one free of each allocation in flight, no
      thread ever takes an early return with the locks held. */
  lemma {:induction false} NeverStuck(n: nat, s: Sys, acts: seq<Action>)
    requires Inv(n, s) && Runs(n, s, acts) && FreesOk(s) && SingleFrees(n, s, acts)
    ensures FreesOk(After(n, s, acts))
    decreases |acts|
  {
    if |acts| > 0 {
      InvStep(n, s, acts[0]);
      FreesStep(n, s, acts[0]);
      NeverStuck(n, Do(n, s, acts[0]), acts[1..]);
    }
  }

  /** A thread that returned early keeps every lock for ever. */
  lemma {:induction false} StuckForEver(n: nat, s: Sys, acts: seq<Action>, t: nat)
    requires Inv(n, s) && Runs(n, s, acts) && PcOf(s, t).Stuck?
    ensures PcOf(After(n, s, acts), t).Stuck?
    ensures forall k :: 0 <= k < n ==> After(n, s, acts).locks[k] == Some(t)
    decreases |acts|
  {
    forall k: nat | k < n ensures s.locks[k] == Some(t) { assert Holds(n, PcOf(s, t), k); }
    if |acts| > 0 {
      InvStep(n, s, acts[0]);
      StuckForEver(n, Do(n, s, acts[0]), acts[1..], t);
    }
  }

  /** The branch that returns early. */
  lemma {:induction false} StuckIff(n: nat, s: Sys, a: Action)
    requires Inv(n, s) && Enabled(n, s, a) && !PcOf(s, a.t).Stuck?
    ensures PcOf(Do(n, s, a), a.t).Stuck? <==>
      a.Change? && PcOf(s, a.t).job.Free? && !Accepted(s, PcOf(s, a.t).job)
  {
  }

  // ----- letting the calls under way come to their end -----

  /** A bound on the steps a thread can still take in its call. */
  function Work(n: nat, pc: Pc): nat {
    match pc
    case Idle => 0
    case Stuck => 0
    case Hold(_) => 1
    case Want(_) => 2
    case Releasing(k, _, _, _) => if k < n then 2 * (n - k) + 2 else 0
    case CopyBack(k, _, _, _) => if k < n then 2 * (n - k) + 3 else 0
    case Copying(k, _) => if k < n then 2 * (n - k) + 2 * n + 3 else 0
    case Locking(k, _) => if k <= n then 2 * (n - k) + 2 * n + 4 else 0
  }

  ghost function TotalWork(n: nat, pcs: map<nat, Pc>): nat {
    if pcs == map[] then 0
    else
      var t :| t in pcs;
      Work(n, pcs[t]) + TotalWork(n, pcs - {t})
  }

  lemma {:induction false} WorkSplit(n: nat, pcs: map<nat, Pc>, t: nat)
    requires t in pcs
    ensures TotalWork(n, pcs) == Work(n, pcs[t]) + TotalWork(n, pcs - {t})
    decreases |pcs|
  {
    var u :| u in pcs && TotalWork(n, pcs) == Work(n, pcs[u]) + TotalWork(n, pcs - {u});
    if u != t {
      WorkSplit(n, pcs - {u}, t);
      WorkSplit(n, pcs - {t}, u);
      assert pcs - {u} - {t} == pcs - {t} - {u};
    }
  }

  /** A step towards the end of a call lowers the work that is left. */
  lemma {:induction false} WorkFalls(n: nat, s: Sys, a: Action)
    requires Inv(n, s) && Enabled(n, s, a) && Drains(a)
    ensures TotalWork(n, Do(n, s, a).pcs) < TotalWork(n, s.pcs)
  {
    var r := Do(n, s, a);
    assert PcOk(n, s, a.t);
    assert a.t in s.pcs && r.pcs == s.pcs[a.t := r.pcs[a.t]];
    assert Work(n, r.pcs[a.t]) < Work(n, s.pcs[a.t]);
    WorkSplit(n, s.pcs, a.t);
    WorkSplit(n, r.pcs, a.t);
    assert r.pcs - {a.t} == s.pcs - {a.t};
  }

  /** What such a step leaves of the frees under way: a thread that is not
      stuck by it goes on with its own, unless this step was its change. */
  lemma {:induction false} DrainKeepsPending(n: nat, s: Sys, a: Action, u: nat)
    requires Inv(n, s) && Enabled(n, s, a) && Drains(a) && Pending(PcOf(s, u)).Some?
    ensures !(a.Change? && a.t == u) ==> Pending(PcOf(Do(n, s, a), u)) == Pending(PcOf(s, u))
    ensures !Accepted(s, Pending(PcOf(s, u)).value) ==> !Accepted(Do(n, s, a), Pending(PcOf(s, u)).value)
    ensures a.Change? && a.t == u ==>
      if Accepted(s, Pending(PcOf(s, u)).value) then Pending(PcOf(s, u)).value.g !in Do(n, s, a).heads
      else PcOf(Do(n, s, a), u).Stuck?
  {
    if !PcOf(s, a.t).Stuck? { StuckIff(n, s, a); }
  }

  /** A first action and a run from there, none of it a second free. */
  lemma {:induction false} Prepend(n: nat, s: Sys, a: Action, acts: seq<Action>)
    requires Inv(n, s) && Enabled(n, s, a) && Inv(n, Do(n, s, a)) && Runs(n, Do(n, s, a), acts)
    requires FirstFree(s, a) && SingleFrees(n, Do(n, s, a), acts)
    ensures Runs(n, s, [a] + acts) && SingleFrees(n, s, [a] + acts)
    ensures After(n, s, [a] + acts) == After(n, Do(n, s, a), acts)
  {
    assert ([a] + acts)[1..] == acts;
  }

  /** A free whose allocation is gone ends in an early return when the calls
      under way come to their end. */
  lemma {:induction false} OrphanSticks(n: nat, s: Sys, u: nat) returns (acts: seq<Action>)
    requires Inv(n, s) && NoneStuck(s)
    requires Pending(PcOf(s, u)).Some? && !Accepted(s, Pending(PcOf(s, u)).value)
    ensures Runs(n, s, acts) && SingleFrees(n, s, acts) && !NoneStuck(After(n, s, acts))
    decreases TotalWork(n, s.pcs)
  {
    var a := Progress(n, s, u);
    InvStep(n, s, a);
    WorkFalls(n, s, a);
    DrainKeepsPending(n, s, a, u);
    acts := [];
    if NoneStuck(Do(n, s, a)) { acts := OrphanSticks(n, Do(n, s, a), u); }
    Prepend(n, s, a, acts);
    acts := [a] + acts;
  }

  /** So does one of two frees of the same allocation. */
  lemma {:induction false} ClashSticks(n: nat, s: Sys, t: nat, u: nat) returns (acts: seq<Action>)
    requires Inv(n, s) && NoneStuck(s) && Clash(s, t, u)
    ensures Runs(n, s, acts) && SingleFrees(n, s, acts) && !NoneStuck(After(n, s, acts))
    decreases TotalWork(n, s.pcs)
  {
    var a := Progress(n, s, t);
    var r := Do(n, s, a);
    InvStep(n, s, a);
    WorkFalls(n, s, a);
    DrainKeepsPending(n, s, a, t);
    DrainKeepsPending(n, s, a, u);
    acts := [];
    if NoneStuck(r) {
      if a.Change? && a.t == t { acts := OrphanSticks(n, r, u); }
      else if a.Change? && a.t == u { acts := OrphanSticks(n, r, t); }
      else { acts := ClashSticks(n, r, t, u); }
    }
    Prepend(n, s, a, acts);
    acts := [a] + acts;
  }

  // ----- the exact condition -----

  /** Whatever the threads do from here on, short of starting a second free of
      an allocation, nobody returns early. */
  ghost predicate Safe(n: nat, s: Sys)
    requires Inv(n, s)
  {
    forall acts: seq<Action> :: Runs(n, s, acts) && SingleFrees(n, s, acts) ==> NoneStuck(After(n, s, acts))
  }

  /** A state is safe exactly when no two frees of one allocation are under way. */
  lemma {:induction false} SafeIff(n: nat, s: Sys)
    requires Inv(n, s) && TableOk(s) && NoneStuck(s) && AllPendingOk(s)
    ensures Safe(n, s) <==> OneFreeEach(s)
  {
    if OneFreeEach(s) {
      forall acts: seq<Action> | Runs(n, s, acts) && SingleFrees(n, s, acts) ensures NoneStuck(After(n, s, acts)) {
        NeverStuck(n, s, acts);
      }
    } else {
      var t: nat, u: nat :| Clash(s, t, u);
      var acts := ClashSticks(n, s, t, u);
    }
  }

  /** A free may be handed to the huge path exactly when no other free of the
      allocation is on its way there: a test that could be made before. */
  lemma {:induction false} HandOffSafeIff(n: nat, s: Sys, a: Action)
    requires Inv(n, s) && FreesOk(s) && a.HandOff? && Enabled(n, s, a)
    ensures Inv(n, Do(n, s, a)) && (Safe(n, Do(n, s, a)) <==> FirstFree(s, a))
  {
    InvStep(n, s, a);
    var r := Do(n, s, a);
    forall t: nat ensures PendingOk(r, t) { assert PendingOk(s, t); }
    forall t: nat ensures !PcOf(r, t).Stuck? { assert !PcOf(s, t).Stuck?; }
    SafeIff(n, r);
    if FirstFree(s, a) {
      FreesStep(n, s, a);
    } else {
      var u: nat :| Pending(PcOf(s, u)).Some? && Pending(PcOf(s, u)).value.g == a.g;
      assert Clash(r, a.t, u);
    }
  }

  /** The state and every later one of the run is safe. */
  ghost predicate SafeAlong(n: nat, s: Sys, acts: seq<Action>)
    requires Inv(n, s) && Runs(n, s, acts)
    decreases |acts|
  {
    Safe(n, s)
    && (|acts| > 0 ==> (InvStep(n, s, acts[0]); SafeAlong(n, Do(n, s, acts[0]), acts[1..])))
  }

  /** A run stays safe throughout exactly when it never starts a second free of
      an allocation whose first is under way. */
  lemma {:induction false} SafeAlongIff(n: nat, s: Sys, acts: seq<Action>)
    requires Inv(n, s) && FreesOk(s) && Runs(n, s, acts)
    ensures SafeAlong(n, s, acts) <==> SingleFrees(n, s, acts)
    decreases |acts|
  {
    SafeIff(n, s);
    if |acts| > 0 {
      var a := acts[0];
      InvStep(n, s, a);
      if FirstFree(s, a) {
        FreesStep(n, s, a);
        SafeAlongIff(n, Do(n, s, a), acts[1..]);
      } else {
        HandOffSafeIff(n, s, a);
      }
    }
  }

  /** The action allocates at shadow page `g`. */
  predicate AllocatesAt(a: Action, g: nat) {
    match a
    case Place(_, _, g', _) => g == g'
    case Change(_, _, at) => at.Some? && at.value.0 == g
    case _ => false
  }

  /** Of two frees of one allocation in flight the second is lost: once the
      allocation is gone, and unless its page is allocated anew, the other
      thread's turn can only end in an early return. */
  lemma {:induction false} SecondFreeSticks(n: nat, s: Sys, acts: seq<Action>, u: nat, a: Action)
    requires Inv(n, s) && Runs(n, s, acts)
    requires Pending(PcOf(s, u)).Some? && Pending(PcOf(s, u)).value.g !in s.heads
    requires forall i :: 0 <= i < |acts| ==> !AllocatesAt(acts[i], Pending(PcOf(s, u)).value.g)
    requires forall i :: 0 <= i < |acts| ==> !(acts[i].Change? && acts[i].t == u)
    requires a.Change? && a.t == u && Enabled(n, After(n, s, acts), a)
    ensures PcOf(Do(n, After(n, s, acts), a), u).Stuck?
    decreases |acts|
  {
    if |acts| > 0 {
      InvStep(n, s, acts[0]);
      var r := Do(n, s, acts[0]);
      assert !AllocatesAt(acts[0], Pending(PcOf(s, u)).value.g);
      assert Pending(PcOf(r, u)) == Pending(PcOf(s, u));
      SecondFreeSticks(n, r, acts[1..], u, a);
    }
  }
}
