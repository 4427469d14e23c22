/** Runs of kl_create_device and kl_destroy_device on the two bitmaps, and for
    which sizes of device the search for ids can fail after the search for
    minors has succeeded. */
module DeviceRuns {
  import opened Wrappers
  import opened Bitmaps
  import opened DeviceNodes

  /** The ids and the number of nodes of a live device. */
  datatype Live = Live(id: nat, count: nat)

  /** The bitmaps and the live devices by their first minor. */
  datatype Tables = Tables(minors: seq<bool>, ids: seq<bool>, live: map<nat, Live>)

  datatype NodeOp = Make(start: nat, count: nat) | Unmake(minor: nat)

  predicate Sound(n: nat, t: Tables) {
    && |t.minors| == |t.ids| == n
    && forall m :: m in t.live ==> m + t.live[m].count <= n && t.live[m].id + t.live[m].count <= n
  }

  /** One call; None is the BUG_ON. */
  function StepOp(n: nat, t: Tables, op: NodeOp): (r: Option<Tables>)
    requires Sound(n, t)
    ensures r.Some? ==> Sound(n, r.value)
  {
    match op
    case Make(start, count) =>
      var m := FirstFit(t.minors, start, count);
      if m.None? then Some(t)
      else
        var p := FirstFit(t.ids, 0, count);
        if p.None? then None
        else Some(Tables(Fill(t.minors, m.value, count, true), Fill(t.ids, p.value, count, true),
                         t.live[m.value := Live(p.value, count)]))
    case Unmake(m) =>
      if m !in t.live then Some(t)
      else Some(Tables(Fill(t.minors, m, t.live[m].count, false),
                       Fill(t.ids, t.live[m].id, t.live[m].count, false), t.live - {m}))
  }

  /** The calls one after the other on empty tables; None once a BUG_ON is hit. */
  function RunOps(n: nat, ops: seq<NodeOp>): (r: Option<Tables>)
    ensures r.Some? ==> Sound(n, r.value)
    decreases |ops|
  {
    if |ops| == 0 then Some(Tables(Clear(n), Clear(n), map[]))
    else
      var t := RunOps(n, ops[..|ops| - 1]);
      if t.None? then None else StepOp(n, t.value, ops[|ops| - 1])
  }

  /** The devices created have sizes in `sizes`. */
  predicate Sizes(ops: seq<NodeOp>, sizes: set<nat>) {
    forall i :: 0 <= i < |ops| && ops[i].Make? ==> ops[i].count in sizes
  }

  // ----- sizes that are safe -----

  /** All live devices have `c` nodes, with ids at multiples of `c`. */
  ghost predicate Uniform(n: nat, t: Tables, c: nat, g: Groups, used: set<nat>) {
    && Sound(n, t) && BitsOk(n, c, t.minors, t.ids, g, used)
    && t.live.Keys == g.Keys && forall m :: m in g ==> t.live[m] == Live(Slot(g[m], c), c)
  }

  lemma {:induction false} UniformStart(n: nat, c: nat)
    requires c > 0
    ensures Uniform(n, Tables(Clear(n), Clear(n), map[]), c, map[], {})
  {
    CountUniform(Clear(n), false);
  }

  lemma {:induction false} UniformMake(n: nat, t: Tables, start: nat, c: nat, g: Groups, used: set<nat>)
    returns (g': Groups, used': set<nat>)
    requires Uniform(n, t, c, g, used)
    ensures StepOp(n, t, Make(start, c)).Some? && Uniform(n, StepOp(n, t, Make(start, c)).value, c, g', used')
  {
    g', used' := g, used;
    var m := FirstFit(t.minors, start, c);
    if m.Some? {
      MinorsImplyIds(n, c, t.minors, t.ids, g, used, m.value);
      var s := FitIsSlot(n, c, t.minors, t.ids, g, used);
      AddKeepsBits(n, c, t.minors, t.ids, g, used, m.value, s);
      g', used' := g[m.value := s], used + {s};
    }
  }

  lemma {:induction false} UniformUnmake(n: nat, t: Tables, m: nat, c: nat, g: Groups, used: set<nat>)
    returns (g': Groups, used': set<nat>)
    requires Uniform(n, t, c, g, used)
    ensures StepOp(n, t, Unmake(m)).Some? && Uniform(n, StepOp(n, t, Unmake(m)).value, c, g', used')
  {
    g', used' := g, used;
    if m in g {
      RemoveKeepsBits(n, c, t.minors, t.ids, g, used, m);
      g', used' := g - {m}, used - {g[m]};
    }
  }

  /** Any two different sizes are too much for the table together. */
  predicate Exclusive(n: nat, sizes: set<nat>) {
    forall a, b :: a in sizes && b in sizes && a < b ==> a + b > n
  }

  /** Then all live devices have one size at any time. */
  lemma {:induction false} ExclusiveRun(n: nat, ops: seq<NodeOp>, sizes: set<nat>)
    returns (c: nat, g: Groups, used: set<nat>)
    requires Sizes(ops, sizes) && Exclusive(n, sizes) && forall a :: a in sizes ==> a > 0
    ensures RunOps(n, ops).Some? && Uniform(n, RunOps(n, ops).value, c, g, used) && (g == map[] || c in sizes)
    decreases |ops|
  {
    if |ops| == 0 {
      c, g, used := 1, map[], {};
      UniformStart(n, c);
    } else {
      var before := ops[..|ops| - 1];
      c, g, used := ExclusiveRun(n, before, sizes);
      var t := RunOps(n, before).value;
      match ops[|ops| - 1]
      case Unmake(m) => g, used := UniformUnmake(n, t, m, c, g, used);
      case Make(start, count) =>
        if g == map[] {
          EmptyFitsAnyCount(n, c, t.minors, t.ids, used, count);
          c := count;
        }
        if c == count {
          g, used := UniformMake(n, t, start, c, g, used);
        } else {
          NoRoomForOther(n, c, t.minors, t.ids, g, used, start, count);
        }
    }
  }

  // ----- sizes that are not -----

  /** `k` devices of `a` nodes, made from minor `base` upwards. */
  function MakeMany(base: nat, a: nat, k: nat): (r: seq<NodeOp>)
    ensures forall i :: 0 <= i < |r| ==> r[i].Make? && r[i].count == a
  {
    if k == 0 then [] else MakeMany(base, a, k - 1) + [Make(base + Slot(k - 1, a), a)]
  }

  lemma {:induction false} FreeBehind(n: nat, base: nat, k: nat, a: nat)
    requires a > 0 && base + k + a <= n
    ensures FirstFit(Fill(Clear(n), base, k, true), base + k, a) == Some(base + k)
    ensures base == 0 ==> FirstFit(Fill(Clear(n), base, k, true), 0, a) == Some(k)
    ensures Fill(Fill(Clear(n), base, k, true), base + k, a, true) == Fill(Clear(n), base, k + a, true)
  {
    var bits := Fill(Clear(n), base, k, true);
    FirstFitIs(bits, base + k, a, base + k);
    if base == 0 {
      forall q: nat | q < k ensures !FreeRun(bits, q, a) { assert bits[q]; }
      FirstFitIs(bits, 0, a, k);
    }
  }

  /** The next device goes right behind the ones before. */
  lemma {:induction false} MakeNext(n: nat, base: nat, at: nat, a: nat, t: Tables)
    requires a > 0 && base + at + a <= n && Sound(n, t)
    requires t.minors == Fill(Clear(n), base, at, true) && t.ids == Fill(Clear(n), 0, at, true)
    ensures StepOp(n, t, Make(base + at, a)) == Some(Tables(Fill(Clear(n), base, at + a, true),
                                                            Fill(Clear(n), 0, at + a, true),
                                                            t.live[base + at := Live(at, a)]))
  {
    FreeBehind(n, base, at, a);
    FreeBehind(n, 0, at, a);
  }

  /** `k` devices of `a` nodes side by side, from minor `base` and id 0 on. */
  ghost predicate SideBySide(n: nat, base: nat, a: nat, k: nat, t: Tables) {
    && base + Slot(k, a) <= n
    && t.minors == Fill(Clear(n), base, Slot(k, a), true)
    && t.ids == Fill(Clear(n), 0, Slot(k, a), true)
    && (k > 0 ==> base in t.live && t.live[base] == Live(0, a))
  }

  lemma {:induction false} OneMore(n: nat, base: nat, a: nat, k: nat, k1: nat, t: Tables, op: NodeOp)
    returns (t': Tables)
    requires a > 0 && k1 == k + 1 && Sound(n, t) && SideBySide(n, base, a, k, t) && base + Slot(k1, a) <= n
    requires op == Make(base + Slot(k, a), a)
    ensures StepOp(n, t, op) == Some(t') && SideBySide(n, base, a, k1, t')
  {
    MakeNext(n, base, Slot(k, a), a, t);
    t' := StepOp(n, t, op).value;
    if k > 0 { SlotMono(a, 1, k); }
  }

  lemma {:induction false} RunLast(n: nat, ops: seq<NodeOp>, op: NodeOp, all: seq<NodeOp>, t: Tables)
    requires RunOps(n, ops) == Some(t) && all == ops + [op]
    ensures RunOps(n, all) == StepOp(n, t, op)
  {
    assert all[..|all| - 1] == ops;
  }

  lemma {:induction false} NoneMade(n: nat, base: nat, a: nat)
    requires base <= n
    ensures SideBySide(n, base, a, 0, Tables(Clear(n), Clear(n), map[]))
  {
    assert Fill(Clear(n), base, 0, true) == Clear(n);
    assert Fill(Clear(n), 0, 0, true) == Clear(n);
  }

  lemma {:induction false} MakeManyLast(base: nat, a: nat, k: nat, k1: nat)
    requires k1 == k + 1
    ensures MakeMany(base, a, k1) == MakeMany(base, a, k) + [Make(base + Slot(k, a), a)]
  {
  }

  /** After the calls that make them. */
  ghost predicate Made(n: nat, base: nat, a: nat, k: nat, t: Tables) {
    RunOps(n, MakeMany(base, a, k)) == Some(t) && SideBySide(n, base, a, k, t)
  }

  lemma {:induction false} MadeOne(n: nat, base: nat, a: nat, k: nat, k1: nat, t: Tables) returns (t1: Tables)
    requires a > 0 && k1 == k + 1 && Made(n, base, a, k, t) && base + Slot(k1, a) <= n
    ensures Made(n, base, a, k1, t1)
  {
    var op := Make(base + Slot(k, a), a);
    assert RunOps(n, MakeMany(base, a, k1)) == StepOp(n, t, op) by {
      MakeManyLast(base, a, k, k1);
      RunLast(n, MakeMany(base, a, k), op, MakeMany(base, a, k1), t);
    }
    t1 := OneMore(n, base, a, k, k1, t, op);
  }

  lemma {:induction false} MadeMany(n: nat, base: nat, a: nat, k: nat) returns (t: Tables)
    requires a > 0 && base + Slot(k, a) <= n
    ensures Made(n, base, a, k, t)
  {
    if k == 0 {
      t := Tables(Clear(n), Clear(n), map[]);
      NoneMade(n, base, a);
    } else {
      t := MadeMany(n, base, a, k - 1);
      t := MadeOne(n, base, a, k - 1, k, t);
    }
  }

  /** How many devices of `a` nodes leave room for one of `b`, but not for that
      and one more of `a`. */
  lemma {:induction false} Leaving(n: nat, a: nat, b: nat) returns (k: nat)
    requires 0 < a && a + b <= n
    ensures k > 0 && Slot(k, a) + b <= n < Slot(k + 1, a) + b
    decreases n
  {
    if a + b <= n < a + a + b {
      k := 1;
      assert Slot(1, a) == Slot(0, a) + a && Slot(2, a) == Slot(1, a) + a;
    } else {
      k := Leaving(n - a, a, b);
      k := k + 1;
    }
  }

  /** Two sizes that fit side by side: fill both tables with the smaller, free
      the first, and ask for the larger. */
  lemma {:induction false} MixedSizesFail(n: nat, a: nat, b: nat) returns (ops: seq<NodeOp>)
    requires 0 < a < b && a + b <= n
    ensures Sizes(ops, {a, b}) && RunOps(n, ops) == None
  {
    var k := Leaving(n, a, b);
    var base := n - Slot(k + 1, a);
    var made := MakeMany(base, a, k + 1);
    var all := MadeMany(n, base, a, k + 1);
    var freed := made + [Unmake(base)];
    ops := freed + [Make(0, b)];
    assert freed[..|freed| - 1] == made && ops[..|ops| - 1] == freed;
    var t := RunOps(n, freed).value;
    SlotMono(a, 1, k + 1);
    assert FreeRun(t.minors, 0, b);
    forall q: nat ensures !FreeRun(t.ids, q, b) {
      if q + b <= n { assert t.ids[if q < a then a else q]; }
    }
  }

  /** The code's "no extra check needed" is right for a set of sizes exactly
      when any two different ones are together larger than the table. */
  lemma {:induction false} NoCheckNeededIff(n: nat, sizes: set<nat>)
    requires forall a :: a in sizes ==> a > 0
    ensures (forall ops :: Sizes(ops, sizes) ==> RunOps(n, ops).Some?) <==> Exclusive(n, sizes)
  {
    if Exclusive(n, sizes) {
      forall ops | Sizes(ops, sizes) ensures RunOps(n, ops).Some? {
        var c, g, used := ExclusiveRun(n, ops, sizes);
      }
    } else {
      var a, b :| a in sizes && b in sizes && a < b && a + b <= n;
      var ops := MixedSizesFail(n, a, b);
      assert Sizes(ops, sizes);
    }
  }

  // ----- the driver's tables take these steps -----

  ghost function LiveOf(g: Groups, c: nat): (r: map<nat, Live>)
    ensures r.Keys == g.Keys && forall m :: m in g ==> r[m] == Live(Slot(g[m], c), c)
  {
    map m | m in g :: Live(Slot(g[m], c), c)
  }

  lemma {:induction false} LiveAfter(g: Groups, c: nat, c': nat, m: nat, s: nat)
    requires g == map[] || c' == c
    ensures LiveOf(g, c') == LiveOf(g, c)
    ensures LiveOf(g[m := s], c') == LiveOf(g, c)[m := Live(Slot(s, c'), c')]
    ensures LiveOf(g - {m}, c) == LiveOf(g, c) - {m}
  {
  }

  ghost function TablesOf(t: DeviceTable): Tables
    reads t, t.minors, t.ids
  {
    Tables(t.minors[..], t.ids[..], LiveOf(t.groups, t.c))
  }

  /** A create whose nodes can all be made is one such step; one that fails
      leaves the bitmaps and the live devices as they were. */
  method CreateStep(t: DeviceTable, start: nat, count: nat, kdev: nat, made: seq<bool>) returns (r: Created)
    requires t.Valid() && 0 < count <= |made|
    requires t.groups == map[] || count == t.c || count + t.c > t.n
    modifies t`c, t`groups, t`used, t`kdevs, t.minors, t.ids, t.inodes, t.id2minor
    ensures t.Valid() && Sound(t.n, old(TablesOf(t)))
    ensures r == DevInit ==> TablesOf(t) == old(TablesOf(t))
    ensures r != DevInit ==> StepOp(t.n, old(TablesOf(t)), Make(start, count)) == Some(TablesOf(t))
  {
    ghost var g, c := t.groups, t.c;
    if g != map[] && count != c { NoRoomForOther(t.n, c, t.minors[..], t.ids[..], g, t.used, start, count); }
    ghost var failed;
    r, failed := t.Create(start, count, kdev, made);
    if r.Minor? { LiveAfter(g, c, t.c, r.minor, t.groups[r.minor]); } else { LiveAfter(g, c, t.c, 0, 0); }
  }

  /** So is a destroy. */
  method DestroyStep(t: DeviceTable, minor: nat, count: nat)
    requires t.Valid() && count == t.c && minor in t.groups
    modifies t`groups, t`used, t`kdevs, t.minors, t.ids, t.inodes, t.id2minor
    ensures t.Valid() && Sound(t.n, old(TablesOf(t)))
    ensures StepOp(t.n, old(TablesOf(t)), Unmake(minor)) == Some(TablesOf(t))
  {
    LiveAfter(t.groups, t.c, t.c, minor, 0);
    t.Destroy(minor, count);
  }
}
