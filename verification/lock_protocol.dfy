/** Many threads interleaving at the granularity of one lock or one memcpy.

    The MAIN blocks are numbered 0..n in index order. An ordinary call works on
    one block under that block's lock. A huge call takes all locks in index
    order, copying each bitmap into the shadow as it goes, changes the shadow,
    and then, block by block, copies it back and gives the lock up. */
module LockProtocol {
  import opened Wrappers

  type Bits = seq<bool>

  /** The block tables' entry for the first page of an allocation. */
  datatype Entry = Entry(len: nat, owner: nat, straddles: bool)

  /** What a huge call is for; a free remembers the block it was found in. */
  datatype Job = Alloc | Free(g: nat, owner: nat, home: nat)

  datatype Pc =
    | Idle
    | Want(k: nat)                       // spinning on lock k, holding none
    | Hold(k: nat)                       // working on block k under its lock
    | Locking(k: nat, job: Job)          // blocks below k locked and copied
    | Copying(k: nat, job: Job)          // lock k just taken, copy still to do
    | CopyBack(k: nat, seen: seq<Bits>, result: seq<Bits>, job: Job)
    | Releasing(k: nat, seen: seq<Bits>, result: seq<Bits>, job: Job)
    | Stuck                              // returned early, holding every lock

  datatype Sys = Sys(
    blocks: seq<Bits>, shadow: seq<Bits>, locks: seq<Option<nat>>, pcs: map<nat, Pc>,
    heads: map<nat, Entry>,   // free_table and owner_table of the blocks, by shadow page
    table: map<nat, nat>)     // non-zero entries of the shadow's free_table

  datatype Action =
    | Start(t: nat, k: nat)
    | StartHuge(t: nat)
    | Take(t: nat)
    | Place(t: nat, bits: Bits, g: nat, e: Entry)   // ordinary malloc
    | Release(t: nat, bits: Bits, g: nat, owner: nat)  // ordinary free
    | HandOff(t: nat, g: nat, owner: nat)           // a free that turns out to straddle
    | Leave(t: nat)
    | Lock(t: nat)
    | Copy(t: nat)
    | Change(t: nat, result: seq<Bits>, at: Option<(nat, Entry)>)
    | Back(t: nat)
    | Unlock(t: nat)

  predicate Holds(n: nat, pc: Pc, k: nat) {
    k < n && match pc
    case Idle => false
    case Want(_) => false
    case Hold(j) => k == j
    case Locking(j, _) => k < j
    case Copying(j, _) => k <= j
    case CopyBack(j, _, _, _) => k >= j
    case Releasing(j, _, _, _) => k >= j
    case Stuck => true
  }

  function PcOf(s: Sys, t: nat): Pc {
    if t in s.pcs then s.pcs[t] else Idle
  }

  /** The free of a straddling allocation that the thread has still to do. */
  function Pending(pc: Pc): Option<Job> {
    match pc
    case Locking(_, job) => if job.Free? then Some(job) else None
    case Copying(_, job) => if job.Free? then Some(job) else None
    case _ => None
  }

  /** The tests of __free_huge_mem pass. */
  predicate Accepted(s: Sys, job: Job)
    requires job.Free?
  {
    job.g in s.table && job.g in s.heads && s.heads[job.g].owner == job.owner
  }

  ghost predicate Enabled(n: nat, s: Sys, a: Action)
    requires |s.locks| == |s.blocks| == |s.shadow| == n
  {
    var pc := PcOf(s, a.t);
    match a
    case Start(_, k) => pc.Idle? && k < n
    case StartHuge(_) => pc.Idle?
    case Take(_) => pc.Want? && pc.k < n && s.locks[pc.k].None?
    case Place(_, _, g, e) => pc.Hold? && pc.k < n && g !in s.heads && !e.straddles
    case Release(_, _, g, owner) =>
      pc.Hold? && pc.k < n && g in s.heads && !s.heads[g].straddles && s.heads[g].owner == owner
    case HandOff(_, g, owner) =>
      pc.Hold? && pc.k < n && g in s.heads && s.heads[g].straddles && s.heads[g].owner == owner
    case Leave(_) => pc.Hold? && pc.k < n
    case Lock(_) => pc.Locking? && pc.k < n && s.locks[pc.k].None?
    case Copy(_) => pc.Copying? && pc.k < n
    case Change(_, result, at) => pc.Locking? && pc.k == n && |result| == n && (at.Some? ==> at.value.0 !in s.heads)
    case Back(_) => pc.CopyBack? && pc.k < n && |pc.result| == n
    case Unlock(_) => pc.Releasing? && pc.k < n
  }

  /** The next pc of a thread that has copied back `k` blocks. */
  function AfterBack(n: nat, k: nat, seen: seq<Bits>, result: seq<Bits>, job: Job): Pc {
    if k < n then CopyBack(k, seen, result, job)
    else if job.Free? then Want(job.home)   // spin_lock(&mem->lock) again
    else Idle
  }

  ghost function Do(n: nat, s: Sys, a: Action): (r: Sys)
    requires |s.locks| == |s.blocks| == |s.shadow| == n && Enabled(n, s, a)
    ensures |r.locks| == |r.blocks| == |r.shadow| == n
  {
    var pc := PcOf(s, a.t);
    match a
    case Start(t, k) => s.(pcs := s.pcs[t := Want(k)])
    case StartHuge(t) => s.(pcs := s.pcs[t := Locking(0, Alloc)])
    case Take(t) => s.(pcs := s.pcs[t := Hold(pc.k)], locks := s.locks[pc.k := Some(t)])
    case Place(t, bits, g, e) => s.(blocks := s.blocks[pc.k := bits], heads := s.heads[g := e])
    case Release(t, bits, g, _) => s.(blocks := s.blocks[pc.k := bits], heads := s.heads - {g})
    case HandOff(t, g, owner) =>
      s.(pcs := s.pcs[t := Locking(0, Free(g, owner, pc.k))], locks := s.locks[pc.k := None])
    case Leave(t) => s.(pcs := s.pcs[t := Idle], locks := s.locks[pc.k := None])
    case Lock(t) => s.(pcs := s.pcs[t := Copying(pc.k, pc.job)], locks := s.locks[pc.k := Some(t)])
    case Copy(t) => s.(pcs := s.pcs[t := Locking(pc.k + 1, pc.job)], shadow := s.shadow[pc.k := s.blocks[pc.k]])
    case Change(t, result, at) =>
      if pc.job.Free? && !Accepted(s, pc.job) then s.(pcs := s.pcs[t := Stuck])
      else
        var s1 := s.(pcs := s.pcs[t := AfterBack(n, 0, s.shadow, result, pc.job)], shadow := result);
        if pc.job.Free? then s1.(heads := s.heads - {pc.job.g}, table := s.table - {pc.job.g})
        else if at.Some? then
          s1.(heads := s.heads[at.value.0 := at.value.1], table := s.table[at.value.0 := at.value.1.len])
        else s1.(shadow := s.shadow, pcs := s.pcs[t := AfterBack(n, 0, s.shadow, s.shadow, pc.job)])
    case Back(t) =>
      s.(pcs := s.pcs[t := Releasing(pc.k, pc.seen, pc.result, pc.job)], blocks := s.blocks[pc.k := s.shadow[pc.k]])
    case Unlock(t) =>
      s.(pcs := s.pcs[t := AfterBack(n, pc.k + 1, pc.seen, pc.result, pc.job)], locks := s.locks[pc.k := None])
  }

  // ----- the invariant -----

  ghost predicate LocksOk(n: nat, s: Sys) {
    && |s.locks| == |s.blocks| == |s.shadow| == n
    && forall t: nat, k: nat :: k < n ==> (s.locks[k] == Some(t) <==> Holds(n, PcOf(s, t), k))
  }

  ghost predicate PcOk(n: nat, s: Sys, t: nat)
    requires |s.locks| == |s.blocks| == |s.shadow| == n
  {
    match PcOf(s, t)
    case Idle => true
    case Want(k) => k < n
    case Hold(k) => k < n
    // what has been copied is still the same
    case Locking(j, job) =>
      j <= n && (job.Free? ==> job.home < n) && forall k :: 0 <= k < j ==> s.shadow[k] == s.blocks[k]
    case Copying(j, job) =>
      j < n && (job.Free? ==> job.home < n) && forall k :: 0 <= k < j ==> s.shadow[k] == s.blocks[k]
    // what has not been copied back is still what was seen, and the shadow has the result
    case CopyBack(j, seen, result, job) =>
      j < n && |seen| == |result| == n && (job.Free? ==> job.home < n)
      && forall k :: j <= k < n ==> s.blocks[k] == seen[k] && s.shadow[k] == result[k]
    case Releasing(j, seen, result, job) =>
      j < n && |seen| == |result| == n && (job.Free? ==> job.home < n) && s.blocks[j] == result[j]
      && forall k :: j < k < n ==> s.blocks[k] == seen[k] && s.shadow[k] == result[k]
    case Stuck => true
  }

  ghost predicate Inv(n: nat, s: Sys) {
    LocksOk(n, s) && forall t: nat :: PcOk(n, s, t)
  }

  lemma {:induction false} InvInit(n: nat, s: Sys)
    requires |s.locks| == |s.blocks| == |s.shadow| == n && s.pcs == map[]
    requires forall k :: 0 <= k < n ==> s.locks[k] == None
    ensures Inv(n, s)
  {
  }

  /** Only the holder of lock `k` touches block `k` or its shadow region. */
  lemma {:induction false} OnlyUnderLock(n: nat, s: Sys, a: Action, k: nat)
    requires Inv(n, s) && Enabled(n, s, a) && k < n
    requires Do(n, s, a).blocks[k] != s.blocks[k] || Do(n, s, a).shadow[k] != s.shadow[k]
    ensures s.locks[k] == Some(a.t)
  {
  }

  /** Another thread's step keeps what a thread relies on. */
  lemma {:induction false} OtherKeeps(n: nat, s: Sys, a: Action, t: nat)
    requires Inv(n, s) && Enabled(n, s, a) && t != a.t
    ensures PcOk(n, Do(n, s, a), t)
  {
    var r := Do(n, s, a);
    assert PcOk(n, s, t) && PcOf(r, t) == PcOf(s, t);
    forall k: nat | k < n && Holds(n, PcOf(s, t), k)
      ensures r.blocks[k] == s.blocks[k] && r.shadow[k] == s.shadow[k]
    {
      assert s.locks[k] == Some(t);
      if r.blocks[k] != s.blocks[k] || r.shadow[k] != s.shadow[k] { OnlyUnderLock(n, s, a, k); }
    }
  }

  lemma {:induction false} OwnKeeps(n: nat, s: Sys, a: Action)
    requires Inv(n, s) && Enabled(n, s, a)
    ensures PcOk(n, Do(n, s, a), a.t)
  {
    assert PcOk(n, s, a.t);
  }

  lemma {:induction false} LocksKept(n: nat, s: Sys, a: Action)
    requires LocksOk(n, s) && PcOk(n, s, a.t) && Enabled(n, s, a)
    ensures LocksOk(n, Do(n, s, a))
  {
    var r := Do(n, s, a);
    forall t: nat, k: nat | k < n ensures r.locks[k] == Some(t) <==> Holds(n, PcOf(r, t), k) {
      assert s.locks[k] == Some(t) <==> Holds(n, PcOf(s, t), k);
      assert s.locks[k] == Some(a.t) <==> Holds(n, PcOf(s, a.t), k);
    }
  }

  lemma {:induction false} InvStep(n: nat, s: Sys, a: Action)
    requires Inv(n, s) && Enabled(n, s, a)
    ensures Inv(n, Do(n, s, a))
  {
    assert PcOk(n, s, a.t);
    LocksKept(n, s, a);
    forall t: nat ensures PcOk(n, Do(n, s, a), t) {
      if t == a.t { OwnKeeps(n, s, a); } else { OtherKeeps(n, s, a, t); }
    }
  }

  // ----- runs -----

  /** The actions can be taken one after the other. */
  ghost predicate Runs(n: nat, s: Sys, acts: seq<Action>)
    requires Inv(n, s)
    decreases |acts|
  {
    |acts| > 0 ==>
      Enabled(n, s, acts[0]) && (InvStep(n, s, acts[0]); Runs(n, Do(n, s, acts[0]), acts[1..]))
  }

  ghost function After(n: nat, s: Sys, acts: seq<Action>): (r: Sys)
    requires Inv(n, s) && Runs(n, s, acts)
    ensures Inv(n, r)
    decreases |acts|
  {
    if |acts| == 0 then s
    else InvStep(n, s, acts[0]); After(n, Do(n, s, acts[0]), acts[1..])
  }

  // ----- the shadow is in step whenever all locks are held -----

  /** In every state of every run, a thread that has finished locking sees in
      the shadow exactly the current bitmaps of all blocks. */
  lemma {:induction false} SyncedWhenAllLocked(n: nat, s: Sys, acts: seq<Action>, t: nat)
    requires Inv(n, s) && Runs(n, s, acts)
    requires PcOf(After(n, s, acts), t).Locking? && PcOf(After(n, s, acts), t).k == n
    ensures After(n, s, acts).shadow == After(n, s, acts).blocks
  {
    var r := After(n, s, acts);
    assert PcOk(n, r, t);
    assert r.shadow == r.blocks;
  }

  /** A copy-back overwrites exactly what its thread had seen, so no other
      thread's update is lost, and puts the thread's own result there. */
  lemma {:induction false} CopyBackLosesNothing(n: nat, s: Sys, acts: seq<Action>, t: nat)
    requires Inv(n, s) && Runs(n, s, acts)
    requires Enabled(n, After(n, s, acts), Back(t))
    ensures var r := After(n, s, acts);
      var pc := PcOf(r, t);
      && |pc.seen| == n
      && r.blocks[pc.k] == pc.seen[pc.k]
      && Do(n, r, Back(t)).blocks == r.blocks[pc.k := pc.result[pc.k]]
  {
    var r := After(n, s, acts);
    assert PcOk(n, r, t);
  }

  // ----- all calls act on the bitmaps at one instant -----

  /** The thread has changed the shadow but block `k` does not show it yet. */
  predicate Owes(pc: Pc, k: nat) {
    match pc
    case CopyBack(j, _, _, _) => j <= k
    case Releasing(j, _, _, _) => j < k
    case _ => false
  }

  ghost predicate Owed(s: Sys, k: nat) {
    exists t: nat :: Owes(PcOf(s, t), k)
  }

  /** The bitmaps as every thread will see them once it gets the locks. */
  ghost function Abs(s: Sys): seq<Bits>
    requires |s.blocks| == |s.shadow|
  {
    seq(|s.blocks|, k requires 0 <= k < |s.blocks| => if Owed(s, k) then s.shadow[k] else s.blocks[k])
  }

  /** Only the thread that owes block `k` holds its lock. */
  lemma {:induction false} OwedByHolder(n: nat, s: Sys, k: nat, t: nat)
    requires Inv(n, s) && k < n && Owes(PcOf(s, t), k)
    ensures s.locks[k] == Some(t)
  {
    assert PcOk(n, s, t);
    assert Holds(n, PcOf(s, t), k);
  }

  /** Of a locked block only its holder can owe it, of a free one nobody. */
  lemma {:induction false} OwedIffHolderOwes(n: nat, s: Sys, k: nat)
    requires Inv(n, s) && k < n
    ensures Owed(s, k) <==> s.locks[k].Some? && Owes(PcOf(s, s.locks[k].value), k)
  {
    if Owed(s, k) {
      var t: nat :| Owes(PcOf(s, t), k);
      OwedByHolder(n, s, k, t);
    }
  }

  /** What one call does to the bitmaps, if it did it all at once. */
  datatype Op = Nothing | SetBlock(k: nat, bits: Bits) | SetAll(result: seq<Bits>)

  function ApplyOp(b: seq<Bits>, op: Op): seq<Bits> {
    match op
    case Nothing => b
    case SetBlock(k, bits) => if k < |b| then b[k := bits] else b
    case SetAll(result) => result
  }

  /** The step at which each call takes effect: a huge call when it changes the
      shadow, an ordinary call when it changes its block. */
  ghost function OpOf(n: nat, s: Sys, a: Action): Op
    requires |s.locks| == |s.blocks| == |s.shadow| == n && Enabled(n, s, a)
  {
    match a
    case Place(t, bits, _, _) => SetBlock(PcOf(s, t).k, bits)
    case Release(t, bits, _, _) => SetBlock(PcOf(s, t).k, bits)
    case Change(t, result, at) =>
      var job := PcOf(s, t).job;
      if (if job.Free? then Accepted(s, job) else at.Some?) then SetAll(result) else Nothing
    case _ => Nothing
  }

  ghost function Effect(n: nat, s: Sys, a: Action): seq<Bits>
    requires |s.locks| == |s.blocks| == |s.shadow| == n && Enabled(n, s, a)
  {
    ApplyOp(Abs(s), OpOf(n, s, a))
  }

  /** What a call looks at when it decides is the bitmaps as they stand: its
      block under the block's lock, the shadow once all locks are held. */
  lemma {:induction false} SeesCurrent(n: nat, s: Sys, t: nat)
    requires Inv(n, s)
    ensures PcOf(s, t).Hold? ==> PcOf(s, t).k < n && s.blocks[PcOf(s, t).k] == Abs(s)[PcOf(s, t).k]
    ensures PcOf(s, t).Locking? && PcOf(s, t).k == n ==> s.shadow == Abs(s)
  {
    assert PcOk(n, s, t);
    forall k: nat | k < n && Holds(n, PcOf(s, t), k) && !Owes(PcOf(s, t), k) ensures !Owed(s, k) {
      assert s.locks[k] == Some(t);
      OwedIffHolderOwes(n, s, k);
    }
    if PcOf(s, t).Locking? && PcOf(s, t).k == n {
      forall k: nat | k < n ensures s.shadow[k] == Abs(s)[k] { assert Holds(n, PcOf(s, t), k); }
    }
  }

  lemma {:induction false} StepOfOther(n: nat, s: Sys, a: Action, k: nat)
    requires Inv(n, s) && Enabled(n, s, a) && k < n && s.locks[k] != Some(a.t)
    requires var r := Do(n, s, a);
      && (Owed(s, k) <==> s.locks[k].Some? && Owes(PcOf(s, s.locks[k].value), k))
      && (Owed(r, k) <==> r.locks[k].Some? && Owes(PcOf(r, r.locks[k].value), k))
    ensures Abs(Do(n, s, a))[k] == Effect(n, s, a)[k]
  {
    assert !Holds(n, PcOf(s, a.t), k);
  }

  lemma {:induction false} StepOfHolder(n: nat, s: Sys, a: Action, k: nat)
    requires Inv(n, s) && Enabled(n, s, a) && k < n && s.locks[k] == Some(a.t)
    requires var r := Do(n, s, a);
      && (Owed(s, k) <==> s.locks[k].Some? && Owes(PcOf(s, s.locks[k].value), k))
      && (Owed(r, k) <==> r.locks[k].Some? && Owes(PcOf(r, r.locks[k].value), k))
    ensures Abs(Do(n, s, a))[k] == Effect(n, s, a)[k]
  {
    assert PcOk(n, s, a.t) && Holds(n, PcOf(s, a.t), k);
  }

  lemma {:induction false} StepAt(n: nat, s: Sys, a: Action, k: nat)
    requires Inv(n, s) && Enabled(n, s, a) && Inv(n, Do(n, s, a)) && k < n
    ensures Abs(Do(n, s, a))[k] == Effect(n, s, a)[k]
  {
    OwedIffHolderOwes(n, s, k);
    OwedIffHolderOwes(n, Do(n, s, a), k);
    if s.locks[k] == Some(a.t) { StepOfHolder(n, s, a, k); } else { StepOfOther(n, s, a, k); }
  }

  /** Every step of every thread refines its atomic effect. */
  lemma {:induction false} StepIsAtomic(n: nat, s: Sys, a: Action)
    requires Inv(n, s) && Enabled(n, s, a)
    ensures Abs(Do(n, s, a)) == Effect(n, s, a)
  {
    InvStep(n, s, a);
    forall k: nat | k < n ensures Abs(Do(n, s, a))[k] == Effect(n, s, a)[k] {
      StepAt(n, s, a, k);
    }
  }

  /** The atomic effects of a run, in order. */
  ghost function Ops(n: nat, s: Sys, acts: seq<Action>): seq<Op>
    requires Inv(n, s) && Runs(n, s, acts)
    decreases |acts|
  {
    if |acts| == 0 then []
    else InvStep(n, s, acts[0]); [OpOf(n, s, acts[0])] + Ops(n, Do(n, s, acts[0]), acts[1..])
  }

  function ApplyOps(b: seq<Bits>, ops: seq<Op>): seq<Bits>
    decreases |ops|
  {
    if |ops| == 0 then b else ApplyOps(ApplyOp(b, ops[0]), ops[1..])
  }

  /** However the threads interleave, the run leaves the bitmaps as if its calls
      had been made one at a time, in the order in which they took effect. */
  lemma {:induction false} RunIsAtomic(n: nat, s: Sys, acts: seq<Action>)
    requires Inv(n, s) && Runs(n, s, acts)
    ensures Abs(After(n, s, acts)) == ApplyOps(Abs(s), Ops(n, s, acts))
    decreases |acts|
  {
    if |acts| > 0 {
      InvStep(n, s, acts[0]);
      StepIsAtomic(n, s, acts[0]);
      RunIsAtomic(n, Do(n, s, acts[0]), acts[1..]);
    }
  }

  /** Nobody is in a call. */
  ghost predicate Quiet(s: Sys) {
    forall t: nat :: PcOf(s, t).Idle?
  }

  /** So between quiet states the block bitmaps themselves are what the calls
      leave when they are made one at a time. */
  lemma {:induction false} QuietRunIsSequential(n: nat, s: Sys, acts: seq<Action>)
    requires Inv(n, s) && Runs(n, s, acts) && Quiet(s) && Quiet(After(n, s, acts))
    ensures After(n, s, acts).blocks == ApplyOps(s.blocks, Ops(n, s, acts))
  {
    RunIsAtomic(n, s, acts);
    assert Abs(s) == s.blocks;
    assert Abs(After(n, s, acts)) == After(n, s, acts).blocks;
  }

  // ----- no deadlock -----

  /** The lock the thread is waiting for. */
  function WaitsFor(n: nat, pc: Pc): Option<nat> {
    match pc
    case Want(k) => if k < n then Some(k) else None
    case Locking(k, _) => if k < n then Some(k) else None
    case _ => None
  }

  /** `t` waits for a lock that `u` holds. */
  ghost predicate Blocks(n: nat, s: Sys, t: nat, u: nat)
    requires |s.locks| == n
  {
    var w := WaitsFor(n, PcOf(s, t));
    w.Some? && s.locks[w.value] == Some(u)
  }

  /** Each thread of the sequence waits for a lock that the next one holds. */
  ghost predicate Chain(n: nat, s: Sys, ts: seq<nat>)
    requires |s.locks| == n
  {
    |ts| > 1 ==> Blocks(n, s, ts[0], ts[1]) && Chain(n, s, ts[1..])
  }

  /** Along a chain of waiting threads the lock waited for only goes up. */
  lemma {:induction false} WaitChainClimbs(n: nat, s: Sys, ts: seq<nat>)
    requires Inv(n, s) && |ts| > 1 && Chain(n, s, ts)
    ensures WaitsFor(n, PcOf(s, ts[0])).Some?
    ensures var last := WaitsFor(n, PcOf(s, ts[|ts| - 1]));
      last.Some? ==> WaitsFor(n, PcOf(s, ts[0])).value < last.value
    decreases |ts|
  {
    assert Holds(n, PcOf(s, ts[1]), WaitsFor(n, PcOf(s, ts[0])).value);
    if |ts| > 2 { WaitChainClimbs(n, s, ts[1..]); }
  }

  /** Index order admits no cycle of threads waiting for one another. */
  lemma {:induction false} NoWaitCycle(n: nat, s: Sys, acts: seq<Action>, ts: seq<nat>)
    requires Inv(n, s) && Runs(n, s, acts)
    requires |ts| > 1 && ts[0] == ts[|ts| - 1]
    ensures !Chain(n, After(n, s, acts), ts)
  {
    if Chain(n, After(n, s, acts), ts) { WaitChainClimbs(n, After(n, s, acts), ts); }
  }

  ghost predicate NoneStuck(s: Sys) {
    forall t: nat :: !PcOf(s, t).Stuck?
  }

  /** The action brings a call that is under way nearer to its end. */
  predicate Drains(a: Action) {
    a.Take? || a.Leave? || a.Lock? || a.Copy? || a.Back? || a.Unlock? || (a.Change? && a.at.None?)
  }

  /** While no thread has returned early, some thread inside a call can always
      take its next step. */
  lemma {:induction false} Progress(n: nat, s: Sys, t: nat) returns (a: Action)
    requires Inv(n, s) && NoneStuck(s) && !PcOf(s, t).Idle?
    ensures Enabled(n, s, a) && !PcOf(s, a.t).Idle? && Drains(a)
    decreases n - if WaitsFor(n, PcOf(s, t)).Some? then WaitsFor(n, PcOf(s, t)).value else n
  {
    assert PcOk(n, s, t);
    match PcOf(s, t) {
      case Want(k) =>
        if s.locks[k].None? { a := Take(t); }
        else { assert Holds(n, PcOf(s, s.locks[k].value), k); a := Progress(n, s, s.locks[k].value); }
      case Hold(k) => a := Leave(t);
      case Locking(k, job) =>
        if k == n { a := Change(t, s.shadow, None); }
        else if s.locks[k].None? { a := Lock(t); }
        else { assert Holds(n, PcOf(s, s.locks[k].value), k); a := Progress(n, s, s.locks[k].value); }
      case Copying(k, job) => a := Copy(t);
      case CopyBack(k, seen, result, job) => a := Back(t);
      case Releasing(k, seen, result, job) => a := Unlock(t);
    }
  }
}
