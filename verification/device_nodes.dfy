/** kl_create_device and kl_destroy_device: two id spaces handed out first fit.
    Minors are searched from a caller's start, device file ids from zero. */
module DeviceNodes {
  import opened Wrappers
  import opened Bitmaps

  const MAX_DEVINODE_NUM: nat := 128

  /** The part of `struct kl_inode` that creation and destruction write. */
  datatype Inode = Inode(devfileId: int, device: bool, kdev: Option<nat>)

  /** Live devices of `c` nodes each: first minor to the slot of `c` ids it has. */
  type Groups = map<nat, nat>

  predicate Within(j: int, base: int, c: nat) { base <= j < base + c }

  /** The first id of slot `s` where slots are `c` ids long: `s * c`. */
  function Slot(s: nat, c: nat): nat {
    if s == 0 then 0 else Slot(s - 1, c) + c
  }

  lemma {:induction false} SlotMono(c: nat, s: nat, t: nat)
    requires s <= t
    ensures Slot(s, c) <= Slot(t, c) && (s < t ==> Slot(s, c) + c <= Slot(t, c))
    decreases t
  {
    if s < t { SlotMono(c, s, t - 1); }
  }

  lemma {:induction false} SlotUnique(c: nat, s: nat, t: nat, j: nat)
    requires Within(j, Slot(s, c), c) && Within(j, Slot(t, c), c)
    ensures s == t
  {
    if s < t { SlotMono(c, s, t); }
    if t < s { SlotMono(c, t, s); }
  }

  /** The slot an id is in. */
  function SlotOf(p: nat, c: nat): (s: nat)
    requires c > 0
    ensures Within(p, Slot(s, c), c)
  {
    if p < c then 0 else 1 + SlotOf(p - c, c)
  }

  // ----- the bitmaps -----

  ghost predicate MinorTaken(g: Groups, c: nat, j: int) {
    exists m :: m in g && Within(j, m, c)
  }

  ghost predicate SlotTaken(g: Groups, s: nat) {
    exists m :: m in g && g[m] == s
  }

  ghost predicate IdTaken(g: Groups, c: nat, j: int) {
    exists m :: m in g && Within(j, Slot(g[m], c), c)
  }

  predicate Apart(g: Groups, c: nat, m: nat, k: nat)
    requires m in g && k in g
  {
    (m + c <= k || k + c <= m) && g[m] != g[k]
  }

  /** Live devices lie inside both tables and share neither minors nor ids. */
  ghost predicate GroupsOk(n: nat, c: nat, g: Groups) {
    && (forall m :: m in g ==> m + c <= n && Slot(g[m], c) + c <= n)
    && (forall m, k {:trigger Apart(g, c, m, k)} :: m in g && k in g && m != k ==> Apart(g, c, m, k))
  }

  /** The bitmaps show what is taken, no more and no less. */
  ghost predicate Marked(n: nat, c: nat, minors: seq<bool>, ids: seq<bool>, g: Groups) {
    && |minors| == |ids| == n
    && (forall j :: 0 <= j < n ==> (minors[j] <==> MinorTaken(g, c, j)))
    && (forall j :: 0 <= j < n ==> (ids[j] <==> IdTaken(g, c, j)))
  }

  /** Both bitmaps are exactly the ids of the live devices, all of them `c`
      long, and the device file ids start at multiples of `c`. */
  ghost predicate BitsOk(n: nat, c: nat, minors: seq<bool>, ids: seq<bool>, g: Groups, used: set<nat>) {
    && c > 0
    && GroupsOk(n, c, g)
    && Marked(n, c, minors, ids, g)
    && (forall s :: s in used <==> SlotTaken(g, s))
    && Count(minors) == Slot(|used|, c)
  }

  function Below(k: nat): (r: set<nat>)
    ensures |r| == k && forall i: nat :: i in r <==> i < k
  {
    if k == 0 then {} else Below(k - 1) + {k - 1}
  }

  lemma {:induction false} SubsetSize(a: set<nat>, b: set<nat>)
    requires a <= b
    ensures |a| <= |b|
  {
    assert b == a + (b - a);
  }

  /** Among one slot more than are in use one is free. */
  lemma {:induction false} FreeSlot(used: set<nat>) returns (s: nat)
    ensures s <= |used| && s !in used
  {
    var all := Below(|used| + 1);
    if all <= used { SubsetSize(all, used); }
    s :| s in all && s !in used;
  }

  /** A slot that no live device has is a run of free ids. */
  lemma {:induction false} SlotIsFree(n: nat, c: nat, minors: seq<bool>, ids: seq<bool>, g: Groups,
                                      used: set<nat>, s: nat)
    requires BitsOk(n, c, minors, ids, g, used) && !SlotTaken(g, s) && Slot(s, c) + c <= n
    ensures FreeRun(ids, Slot(s, c), c)
  {
    forall j | Slot(s, c) <= j < Slot(s, c) + c ensures !ids[j] {
      forall m | m in g ensures !Within(j, Slot(g[m], c), c) {
        if Within(j, Slot(g[m], c), c) { SlotUnique(c, g[m], s, j); }
      }
    }
  }

  /** Room for the minors is room for the ids: the code's "no extra check
      needed" holds while all devices have the same number of nodes. */
  lemma {:induction false} MinorsImplyIds(n: nat, c: nat, minors: seq<bool>, ids: seq<bool>, g: Groups,
                                          used: set<nat>, m: nat)
    requires BitsOk(n, c, minors, ids, g, used) && FreeRun(minors, m, c)
    ensures FirstFit(ids, 0, c).Some?
  {
    FreeRunLeavesRoom(minors, m, c);
    var s := FreeSlot(used);
    SlotMono(c, s, |used|);
    assert !SlotTaken(g, s);
    SlotIsFree(n, c, minors, ids, g, used, s);
  }

  /** First fit puts the ids at the start of a free slot. */
  lemma {:induction false} FitIsSlot(n: nat, c: nat, minors: seq<bool>, ids: seq<bool>, g: Groups, used: set<nat>)
    returns (s: nat)
    requires BitsOk(n, c, minors, ids, g, used) && FirstFit(ids, 0, c).Some?
    ensures FirstFit(ids, 0, c) == Some(Slot(s, c)) && !SlotTaken(g, s)
  {
    var p := FirstFit(ids, 0, c).value;
    s := SlotOf(p, c);
    assert !ids[p] && !IdTaken(g, c, p);
    forall m | m in g ensures g[m] != s { assert !Within(p, Slot(g[m], c), c); }
    SlotIsFree(n, c, minors, ids, g, used, s);
  }

  lemma {:induction false} TakenAfterAdd(g: Groups, c: nat, m: nat, s: nat, j: nat)
    requires m !in g
    ensures MinorTaken(g[m := s], c, j) <==> MinorTaken(g, c, j) || Within(j, m, c)
    ensures IdTaken(g[m := s], c, j) <==> IdTaken(g, c, j) || Within(j, Slot(s, c), c)
    ensures SlotTaken(g[m := s], j) <==> SlotTaken(g, j) || j == s
  {
    var g' := g[m := s];
    assert m in g' && g'[m] == s;
    if MinorTaken(g, c, j) { var k :| k in g && Within(j, k, c); assert k in g'; }
    if IdTaken(g, c, j) { var k :| k in g && Within(j, Slot(g[k], c), c); assert k in g' && g'[k] == g[k]; }
    if SlotTaken(g, j) { var k :| k in g && g[k] == j; assert k in g' && g'[k] == j; }
  }

  lemma {:induction false} TakenAfterRemove(g: Groups, c: nat, m: nat, j: nat)
    requires m in g && forall k :: k in g && k != m ==> g[k] != g[m] && (k + c <= m || m + c <= k)
    ensures MinorTaken(g - {m}, c, j) <==> MinorTaken(g, c, j) && !Within(j, m, c)
    ensures IdTaken(g - {m}, c, j) <==> IdTaken(g, c, j) && !Within(j, Slot(g[m], c), c)
    ensures SlotTaken(g - {m}, j) <==> SlotTaken(g, j) && j != g[m]
  {
    var g' := g - {m};
    if MinorTaken(g, c, j) && !Within(j, m, c) { var k :| k in g && Within(j, k, c); assert k in g'; }
    if IdTaken(g, c, j) && !Within(j, Slot(g[m], c), c) {
      var k :| k in g && Within(j, Slot(g[k], c), c);
      assert k in g' && g'[k] == g[k];
    }
    if SlotTaken(g, j) && j != g[m] { var k :| k in g && g[k] == j; assert k in g' && g'[k] == j; }
    forall k | k in g' ensures !(Within(j, Slot(g'[k], c), c) && Within(j, Slot(g[m], c), c)) {
      if Within(j, Slot(g[k], c), c) && Within(j, Slot(g[m], c), c) { SlotUnique(c, g[k], g[m], j); }
    }
  }

  /** A run of free minors meets no live device. */
  lemma {:induction false} FreeIsApart(n: nat, c: nat, minors: seq<bool>, ids: seq<bool>, g: Groups,
                                       used: set<nat>, m: nat)
    requires BitsOk(n, c, minors, ids, g, used) && FreeRun(minors, m, c)
    ensures forall k :: k in g ==> k + c <= m || m + c <= k
  {
    forall k | k in g ensures k + c <= m || m + c <= k {
      var j := if k <= m then m else k;
      if Within(j, m, c) { assert !MinorTaken(g, c, j); assert !Within(j, k, c); }
    }
  }

  lemma {:induction false} AddKeepsGroups(n: nat, c: nat, g: Groups, m: nat, s: nat)
    requires GroupsOk(n, c, g) && c > 0 && m + c <= n && Slot(s, c) + c <= n && !SlotTaken(g, s)
    requires forall k :: k in g ==> k + c <= m || m + c <= k
    ensures m !in g && GroupsOk(n, c, g[m := s])
  {
    var g' := g[m := s];
    forall a, b | a in g' && b in g' && a != b ensures Apart(g', c, a, b) {
      if a in g && b in g { assert Apart(g, c, a, b); }
    }
  }

  lemma {:induction false} RemoveKeepsGroups(n: nat, c: nat, g: Groups, m: nat)
    requires GroupsOk(n, c, g)
    ensures GroupsOk(n, c, g - {m})
  {
    var g' := g - {m};
    forall a, b | a in g' && b in g' && a != b ensures Apart(g', c, a, b) {
      assert Apart(g, c, a, b);
    }
  }

  lemma {:induction false} AddKeepsMarks(n: nat, c: nat, minors: seq<bool>, ids: seq<bool>, g: Groups, m: nat, s: nat)
    requires Marked(n, c, minors, ids, g) && m !in g && m + c <= n && Slot(s, c) + c <= n
    ensures Marked(n, c, Fill(minors, m, c, true), Fill(ids, Slot(s, c), c, true), g[m := s])
  {
    var minors', ids' := Fill(minors, m, c, true), Fill(ids, Slot(s, c), c, true);
    forall j: nat | j < n
      ensures (minors'[j] <==> MinorTaken(g[m := s], c, j)) && (ids'[j] <==> IdTaken(g[m := s], c, j))
    {
      TakenAfterAdd(g, c, m, s, j);
    }
  }

  lemma {:induction false} RemoveKeepsMarks(n: nat, c: nat, minors: seq<bool>, ids: seq<bool>, g: Groups, m: nat)
    requires Marked(n, c, minors, ids, g) && GroupsOk(n, c, g) && m in g
    ensures Marked(n, c, Fill(minors, m, c, false), Fill(ids, Slot(g[m], c), c, false), g - {m})
  {
    forall k | k in g && k != m ensures g[k] != g[m] && (k + c <= m || m + c <= k) { assert Apart(g, c, k, m); }
    forall j: nat | j < n
      ensures MinorTaken(g - {m}, c, j) <==> MinorTaken(g, c, j) && !Within(j, m, c)
      ensures IdTaken(g - {m}, c, j) <==> IdTaken(g, c, j) && !Within(j, Slot(g[m], c), c)
    {
      TakenAfterRemove(g, c, m, j);
    }
  }

  lemma {:induction false} AddKeepsUsed(g: Groups, used: set<nat>, m: nat, s: nat)
    requires m !in g && !SlotTaken(g, s) && forall j :: j in used <==> SlotTaken(g, j)
    ensures forall j :: j in used + {s} <==> SlotTaken(g[m := s], j)
    ensures |used + {s}| == |used| + 1
  {
    forall j: nat ensures SlotTaken(g[m := s], j) <==> SlotTaken(g, j) || j == s { TakenAfterAdd(g, 0, m, s, j); }
  }

  lemma {:induction false} RemoveKeepsUsed(g: Groups, used: set<nat>, m: nat)
    requires m in g && forall j :: j in used <==> SlotTaken(g, j)
    requires forall k :: k in g && k != m ==> g[k] != g[m]
    ensures forall j :: j in used - {g[m]} <==> SlotTaken(g - {m}, j)
    ensures |used - {g[m]}| == |used| - 1
  {
    var g' := g - {m};
    forall j: nat ensures SlotTaken(g', j) <==> SlotTaken(g, j) && j != g[m] {
      if SlotTaken(g, j) && j != g[m] { var k :| k in g && g[k] == j; assert k in g' && g'[k] == j; }
    }
    assert SlotTaken(g, g[m]);
  }

  /** The bitmaps after a device has been added. */
  lemma {:induction false} AddKeepsBits(n: nat, c: nat, minors: seq<bool>, ids: seq<bool>, g: Groups,
                                        used: set<nat>, m: nat, s: nat)
    requires BitsOk(n, c, minors, ids, g, used)
    requires FreeRun(minors, m, c) && FreeRun(ids, Slot(s, c), c) && !SlotTaken(g, s)
    ensures m !in g
    ensures BitsOk(n, c, Fill(minors, m, c, true), Fill(ids, Slot(s, c), c, true), g[m := s], used + {s})
  {
    FreeIsApart(n, c, minors, ids, g, used, m);
    AddKeepsGroups(n, c, g, m, s);
    AddKeepsMarks(n, c, minors, ids, g, m, s);
    AddKeepsUsed(g, used, m, s);
    CountFill(minors, m, c, true);
  }

  /** The bitmaps after a device has been removed. */
  lemma {:induction false} RemoveKeepsBits(n: nat, c: nat, minors: seq<bool>, ids: seq<bool>, g: Groups,
                                           used: set<nat>, m: nat)
    requires BitsOk(n, c, minors, ids, g, used) && m in g
    ensures BitsOk(n, c, Fill(minors, m, c, false), Fill(ids, Slot(g[m], c), c, false), g - {m}, used - {g[m]})
  {
    RemoveKeepsGroups(n, c, g, m);
    RemoveKeepsMarks(n, c, minors, ids, g, m);
    forall k | k in g && k != m ensures g[k] != g[m] { assert Apart(g, c, k, m); }
    RemoveKeepsUsed(g, used, m);
    forall j | m <= j < m + c ensures minors[j] { assert Within(j, m, c); }
    CountFill(minors, m, c, false);
  }

  lemma {:induction false} FillAndBack(bits: seq<bool>, p: nat, c: nat)
    requires FreeRun(bits, p, c)
    ensures Fill(Fill(bits, p, c, true), p, c, false) == bits
  {
  }

  /** With no device live, the next may have any number of nodes. */
  lemma {:induction false} EmptyFitsAnyCount(n: nat, c: nat, minors: seq<bool>, ids: seq<bool>, used: set<nat>, c': nat)
    requires BitsOk(n, c, minors, ids, map[], used) && c' > 0
    ensures BitsOk(n, c', minors, ids, map[], used)
  {
    assert used == {};
    forall j: nat
      ensures !MinorTaken(map[], c, j) && !MinorTaken(map[], c', j) && !IdTaken(map[], c, j) && !IdTaken(map[], c', j)
    {
    }
  }

  /** Next to a live device there is no room for a larger or smaller one that
      together with it would not fit into the table. */
  lemma {:induction false} NoRoomForOther(n: nat, c: nat, minors: seq<bool>, ids: seq<bool>, g: Groups, used: set<nat>,
                                          start: nat, count: nat)
    requires BitsOk(n, c, minors, ids, g, used) && g != map[] && count + c > n
    ensures FirstFit(minors, start, count) == None
  {
    var m :| m in g;
    assert SlotTaken(g, g[m]) && g[m] in used;
    SlotMono(c, 1, |used|);
    var fit := FirstFit(minors, start, count);
    if fit.Some? { FreeRunLeavesRoom(minors, fit.value, count); }
  }

  // ----- the tables -----

  /** The nodes of one live device: its minors and its ids point at each other. */
  predicate NodesOk(inodes: seq<Inode>, id2minor: seq<int>, c: nat, m: nat, p: nat, kdev: nat) {
    && m + c <= |inodes| && p + c <= |id2minor|
    && (forall j :: m <= j < m + c ==> inodes[j] == Inode(p + j - m, true, Some(kdev)))
    && (forall d :: p <= d < p + c ==> id2minor[d] == m + d - p)
  }

  ghost predicate TablesOk(inodes: seq<Inode>, id2minor: seq<int>, c: nat, g: Groups, kdevs: map<nat, nat>) {
    forall m :: m in g ==> m in kdevs && NodesOk(inodes, id2minor, c, m, Slot(g[m], c), kdevs[m])
  }

  /** The inode table after the first `i` nodes of a device have been written. */
  function Written(t: seq<Inode>, m: nat, p: nat, i: nat, kdev: nat): (r: seq<Inode>)
    requires m + i <= |t|
    ensures |r| == |t|
    ensures forall j :: 0 <= j < |t| ==> r[j] == if m <= j < m + i then Inode(p + j - m, true, Some(kdev)) else t[j]
  {
    seq(|t|, j requires 0 <= j < |t| => if m <= j < m + i then Inode(p + j - m, true, Some(kdev)) else t[j])
  }

  /** The id table after the first `i` ids of a device have been written. */
  function Pointed(t: seq<int>, m: nat, p: nat, i: nat): (r: seq<int>)
    requires p + i <= |t|
    ensures |r| == |t| && forall d :: 0 <= d < |t| ==> r[d] == if p <= d < p + i then m + d - p else t[d]
  {
    seq(|t|, d requires 0 <= d < |t| => if p <= d < p + i then m + d - p else t[d])
  }

  /** A table with the entries from `from` to `to` overwritten. */
  function Wiped<T>(t: seq<T>, from: int, to: int, x: T): (r: seq<T>)
    ensures |r| == |t| && forall j :: 0 <= j < |t| ==> r[j] == if from <= j < to then x else t[j]
  {
    seq(|t|, j requires 0 <= j < |t| => if from <= j < to then x else t[j])
  }

  /** A table with `c` entries from `p` on replaced. */
  ghost predicate ChangedOnly<T(!new)>(after: seq<T>, before: seq<T>, p: nat, c: nat) {
    |after| == |before| && forall j :: 0 <= j < |before| && !(p <= j < p + c) ==> after[j] == before[j]
  }

  /** Nodes `m` on and ids `p` on, `c` of each, stand for no device, and no
      other node or id has changed. */
  ghost predicate Cleared(now: seq<Inode>, was: seq<Inode>, nowIds: seq<int>, wasIds: seq<int>,
                          m: nat, p: nat, c: nat) {
    && ChangedOnly(now, was, m, c) && ChangedOnly(nowIds, wasIds, p, c)
    && m + c <= |now| && (forall j :: m <= j < m + c ==> now[j] == Inode(-1, false, None))
    && p + c <= |nowIds| && (forall d :: p <= d < p + c ==> nowIds[d] == -1)
  }

  /** The first call of device_create that does not work is the one for node `i`. */
  predicate FailsAt(made: seq<bool>, count: nat, i: nat) {
    i < count <= |made| && !made[i] && forall k :: 0 <= k < i ==> made[k]
  }

  /** What is left when node `i` failed: the nodes and ids before it stand for
      no device, node and id `i` point at each other without one, and no other
      node or id has changed. */
  ghost predicate RolledBack(now: seq<Inode>, was: seq<Inode>, nowIds: seq<int>, wasIds: seq<int>,
                             m: nat, p: nat, i: nat, kdev: nat) {
    && |now| == |was| && m + i < |now| && now[m + i] == Inode(p + i, false, Some(kdev))
    && |nowIds| == |wasIds| && p + i < |nowIds| && nowIds[p + i] == m + i
    && Cleared(now, was[m + i := now[m + i]], nowIds, wasIds[p + i := m + i], m, p, i)
  }

  /** What get_kdev_by_devfile_id reads from the tables. */
  function KdevOf(inodes: seq<Inode>, id2minor: seq<int>, d: int): Option<nat> {
    if 0 <= d < |id2minor| && 0 <= id2minor[d] < |inodes| then inodes[id2minor[d]].kdev else None
  }

  ghost predicate LeadNowhere(inodes: seq<Inode>, id2minor: seq<int>, p: nat, c: nat) {
    forall d :: p <= d < p + c ==> KdevOf(inodes, id2minor, d) == None
  }

  /** ...and what that looks like: the ids before `i` lead nowhere, but id `i`
      leads to the device that was never made. */
  ghost predicate Undone(now: seq<Inode>, was: seq<Inode>, nowIds: seq<int>, wasIds: seq<int>,
                         m: nat, p: nat, i: nat, kdev: nat) {
    && RolledBack(now, was, nowIds, wasIds, m, p, i, kdev)
    && LeadNowhere(now, nowIds, p, i) && KdevOf(now, nowIds, p + i) == Some(kdev)
  }

  /** No id but those of live devices leads anywhere. */
  ghost predicate NoStrayIds(c: nat, g: Groups, id2minor: seq<int>) {
    forall d :: 0 <= d < |id2minor| && !IdTaken(g, c, d) ==> id2minor[d] == -1
  }

  /** A device added or taken away whole leaves no stray ids... */
  lemma {:induction false} WholeLeavesNoStray(c: nat, g: Groups, m: nat, s: nat, nowIds: seq<int>, wasIds: seq<int>)
    requires m !in g && NoStrayIds(c, g, wasIds) && ChangedOnly(nowIds, wasIds, Slot(s, c), c)
    ensures NoStrayIds(c, g[m := s], nowIds)
  {
    forall d: nat | d < |nowIds| && !IdTaken(g[m := s], c, d) ensures nowIds[d] == -1 {
      TakenAfterAdd(g, c, m, s, d);
    }
  }

  lemma {:induction false} ClearedLeavesNoStray(n: nat, c: nat, g: Groups, m: nat, now: seq<Inode>, was: seq<Inode>,
                                                nowIds: seq<int>, wasIds: seq<int>)
    requires GroupsOk(n, c, g) && m in g && NoStrayIds(c, g, wasIds)
    requires Cleared(now, was, nowIds, wasIds, m, Slot(g[m], c), c)
    ensures NoStrayIds(c, g - {m}, nowIds)
  {
    forall k | k in g && k != m ensures g[k] != g[m] && (k + c <= m || m + c <= k) { assert Apart(g, c, k, m); }
    forall d: nat | d < |nowIds| && !IdTaken(g - {m}, c, d) ensures nowIds[d] == -1 {
      TakenAfterRemove(g, c, m, d);
    }
  }

  /** ...but a create that fails leaves one: the id of the node that failed,
      which leads to the device that was never made. */
  lemma {:induction false} FailureLeavesStray(n: nat, c: nat, minors: seq<bool>, ids: seq<bool>, g: Groups, p: nat,
                                              now: seq<Inode>, was: seq<Inode>, nowIds: seq<int>, wasIds: seq<int>,
                                              m: nat, i: nat, kdev: nat)
    requires Marked(n, c, minors, ids, g) && FreeRun(ids, p, c) && i < c && |wasIds| == n
    requires RolledBack(now, was, nowIds, wasIds, m, p, i, kdev)
    ensures !NoStrayIds(c, g, nowIds) && KdevOf(now, nowIds, p + i) == Some(kdev)
  {
    assert !ids[p + i];
  }

  /** Writing the nodes of one device does not disturb the others. */
  lemma {:induction false} OthersKeepTables(n: nat, c: nat, g: Groups, kdevs: map<nat, nat>, m: nat, s: nat,
                                            was: seq<Inode>, now: seq<Inode>, wasMap: seq<int>, nowMap: seq<int>)
    requires TablesOk(was, wasMap, c, g, kdevs)
    requires ChangedOnly(now, was, m, c) && ChangedOnly(nowMap, wasMap, Slot(s, c), c)
    requires forall k :: k in g && k != m ==> k + c <= m || m + c <= k
    requires forall k :: k in g && k != m ==> g[k] != s
    ensures TablesOk(now, nowMap, c, g - {m}, kdevs)
  {
    forall k | k in g && k != m ensures NodesOk(now, nowMap, c, k, Slot(g[k], c), kdevs[k]) {
      if g[k] < s { SlotMono(c, g[k], s); } else { SlotMono(c, s, g[k]); }
    }
  }

  lemma {:induction false} AddKeepsTables(c: nat, g: Groups, kdevs: map<nat, nat>, m: nat, s: nat, kdev: nat,
                                          inodes: seq<Inode>, id2minor: seq<int>)
    requires TablesOk(inodes, id2minor, c, g, kdevs) && NodesOk(inodes, id2minor, c, m, Slot(s, c), kdev)
    ensures TablesOk(inodes, id2minor, c, g[m := s], kdevs[m := kdev])
  {
  }

  /** On live slots the id table and the ids in the nodes are inverse. */
  lemma {:induction false} TablesAreInverse(n: nat, c: nat, minors: seq<bool>, ids: seq<bool>, g: Groups,
                                            used: set<nat>,
                                            inodes: seq<Inode>, id2minor: seq<int>, kdevs: map<nat, nat>)
    requires BitsOk(n, c, minors, ids, g, used) && TablesOk(inodes, id2minor, c, g, kdevs)
    requires |inodes| == |id2minor| == n
    ensures forall j: nat :: j < n && minors[j] ==>
      0 <= inodes[j].devfileId < n && ids[inodes[j].devfileId] && id2minor[inodes[j].devfileId] == j
    ensures forall d: nat :: d < n && ids[d] ==>
      0 <= id2minor[d] < n && minors[id2minor[d]] && inodes[id2minor[d]].devfileId == d
  {
    forall j: nat | j < n && minors[j]
      ensures 0 <= inodes[j].devfileId < n && ids[inodes[j].devfileId] && id2minor[inodes[j].devfileId] == j
    {
      var m :| m in g && Within(j, m, c);
      var d := inodes[j].devfileId;
      assert Within(d, Slot(g[m], c), c);
    }
    forall d: nat | d < n && ids[d]
      ensures 0 <= id2minor[d] < n && minors[id2minor[d]] && inodes[id2minor[d]].devfileId == d
    {
      var m :| m in g && Within(d, Slot(g[m], c), c);
      var j := id2minor[d];
      assert Within(j, m, c);
    }
  }

  datatype Created = Minor(minor: nat) | MaxDev | DevInit

  class DeviceTable {
    const minors: array<bool>   // g_devinodes_bitmap
    const ids: array<bool>      // g_devfile_ids_bitmap
    const inodes: array<Inode>  // g_devinodes
    const id2minor: array<int>  // g_devfile_id_2_devinode
    const n: nat
    /** The number of nodes every live device has. */
    ghost var c: nat
    ghost var groups: Groups
    ghost var used: set<nat>
    ghost var kdevs: map<nat, nat>

    ghost predicate Shape()
      reads this
    {
      minors != ids && minors.Length == ids.Length == inodes.Length == id2minor.Length == n
    }

    ghost predicate Valid()
      reads this, minors, ids, inodes, id2minor
    {
      && Shape()
      && BitsOk(n, c, minors[..], ids[..], groups, used)
      && TablesOk(inodes[..], id2minor[..], c, groups, kdevs)
    }

    constructor (n: nat)
      ensures Valid() && this.n == n && groups == map[] && NoStrayIds(c, groups, id2minor[..])
      ensures fresh(minors) && fresh(ids) && fresh(inodes) && fresh(id2minor)
    {
      this.n, c, groups, used, kdevs := n, 1, map[], {}, map[];
      minors := new bool[n](_ => false);
      ids := new bool[n](_ => false);
      inodes := new Inode[n](_ => Inode(-1, false, None));
      id2minor := new int[n](_ => -1);
      new;
      CountUniform(minors[..], false);
    }

    /** The driver's tables. */
    static method Init() returns (t: DeviceTable)
      ensures fresh(t) && t.Valid() && t.n == MAX_DEVINODE_NUM && t.groups == map[]
      ensures NoStrayIds(t.c, t.groups, t.id2minor[..])
    {
      t := new DeviceTable(MAX_DEVINODE_NUM);
    }

    /** Writes the nodes one by one; `made` says which calls of device_create
        work. Stops at the first that does not and returns its index. */
    method FillNodes(m: nat, p: nat, count: nat, kdev: nat, made: seq<bool>) returns (i: nat)
      requires Shape() && m + count <= n && p + count <= n && count <= |made|
      modifies inodes, id2minor
      ensures i <= count && (forall k :: 0 <= k < i ==> made[k]) && (i < count ==> !made[i])
      ensures i == count ==> inodes[..] == Written(old(inodes[..]), m, p, i, kdev)
      ensures i == count ==> id2minor[..] == Pointed(old(id2minor[..]), m, p, i)
      ensures i < count ==>
        inodes[..] == Written(old(inodes[..]), m, p, i, kdev)[m + i := Inode(p + i, false, Some(kdev))]
      ensures i < count ==> id2minor[..] == Pointed(old(id2minor[..]), m, p, i + 1)
    {
      i := 0;
      while i < count
        invariant i <= count && forall k :: 0 <= k < i ==> made[k]
        invariant inodes[..] == Written(old(inodes[..]), m, p, i, kdev)
        invariant id2minor[..] == Pointed(old(id2minor[..]), m, p, i)
      {
        id2minor[p + i] := m + i;
        inodes[m + i] := Inode(p + i, made[i], Some(kdev));
        if !made[i] { return; }
        i := i + 1;
      }
    }

    /** Takes one node down again if it has a device. */
    method ClearNode(j: nat)
      requires Shape() && j < n && (inodes[j].device ==> 0 <= inodes[j].devfileId < n)
      modifies inodes, id2minor
      ensures inodes[..] == old(if inodes[j].device then inodes[..][j := Inode(-1, false, None)] else inodes[..])
      ensures id2minor[..] == old(if inodes[j].device then id2minor[..][inodes[j].devfileId := -1] else id2minor[..])
    {
      if inodes[j].device {
        id2minor[inodes[j].devfileId] := -1;
        inodes[j] := Inode(-1, false, None);
      }
    }

    /** The rollback: from the node that failed down to the first. The entries
        of the node that failed stay as they are. */
    method UndoNodes(m: nat, p: nat, failed: nat)
      requires Shape() && m + failed < n && p + failed < n && !inodes[m + failed].device
      requires forall j :: m <= j < m + failed ==> inodes[j].device && inodes[j].devfileId == p + j - m
      modifies inodes, id2minor
      ensures inodes[..] == Wiped(old(inodes[..]), m, m + failed, Inode(-1, false, None))
      ensures id2minor[..] == Wiped(old(id2minor[..]), p, p + failed, -1)
    {
      var i: int := failed;
      while i >= 0
        invariant -1 <= i <= failed
        invariant inodes[..] == Wiped(old(inodes[..]), m + i + 1, m + failed, Inode(-1, false, None))
        invariant id2minor[..] == Wiped(old(id2minor[..]), p + i + 1, p + failed, -1)
      {
        assert inodes[m + i] == inodes[..][m + i] == old(inodes[m + i]);
        ClearNode(m + i);
        i := i - 1;
      }
    }

    /** The two loops of kl_create_device. A rollback leaves the table entry of
        the node that failed behind. */
    method MakeNodes(m: nat, p: nat, count: nat, kdev: nat, made: seq<bool>) returns (ok: bool, ghost failed: nat)
      requires Shape() && m + count <= n && p + count <= n && count <= |made|
      modifies inodes, id2minor
      ensures ok <==> forall k :: 0 <= k < count ==> made[k]
      ensures ok ==> NodesOk(inodes[..], id2minor[..], count, m, p, kdev)
      ensures ChangedOnly(inodes[..], old(inodes[..]), m, count)
      ensures ChangedOnly(id2minor[..], old(id2minor[..]), p, count)
      ensures !ok ==>
        && FailsAt(made, count, failed)
        && Undone(inodes[..], old(inodes[..]), id2minor[..], old(id2minor[..]), m, p, failed, kdev)
    {
      var i := FillNodes(m, p, count, kdev, made);
      ok, failed := i == count, i;
      if !ok {
        assert inodes[m + i] == inodes[..][m + i];
        assert forall j :: m <= j < m + i ==> inodes[j] == inodes[..][j];
        UndoNodes(m, p, i);
      }
    }

    /** The loops of kl_create_device leave the tables of all live devices in
        order, those of the new one included if it was made. */
    method MakeNodesBeside(m: nat, p: nat, count: nat, kdev: nat, made: seq<bool>, ghost s: nat)
      returns (ok: bool, ghost failed: nat)
      requires Shape() && m + count <= n && p + count <= n && count <= |made| && p == Slot(s, count)
      requires TablesOk(inodes[..], id2minor[..], count, groups, kdevs) && m !in groups && !SlotTaken(groups, s)
      requires forall k :: k in groups ==> k + count <= m || m + count <= k
      modifies inodes, id2minor
      ensures ok <==> forall k :: 0 <= k < count ==> made[k]
      ensures if ok then TablesOk(inodes[..], id2minor[..], count, groups[m := s], kdevs[m := kdev])
              else TablesOk(inodes[..], id2minor[..], count, groups, kdevs)
      ensures ChangedOnly(inodes[..], old(inodes[..]), m, count)
      ensures ChangedOnly(id2minor[..], old(id2minor[..]), p, count)
      ensures !ok ==>
        && FailsAt(made, count, failed)
        && Undone(inodes[..], old(inodes[..]), id2minor[..], old(id2minor[..]), m, p, failed, kdev)
    {
      ok, failed := MakeNodes(m, p, count, kdev, made);
      OthersKeepTables(n, count, groups, kdevs, m, s, old(inodes[..]), inodes[..], old(id2minor[..]), id2minor[..]);
      assert groups - {m} == groups;
      if ok { AddKeepsTables(count, groups, kdevs, m, s, kdev, inodes[..], id2minor[..]); }
    }

    /** Sets or clears the bits of one device in both bitmaps. */
    method FillBits(m: nat, p: nat, count: nat, v: bool)
      requires Shape() && m + count <= n && p + count <= n
      modifies minors, ids
      ensures minors[..] == Fill(old(minors[..]), m, count, v) && ids[..] == Fill(old(ids[..]), p, count, v)
    {
      FillInPlace(minors, m, count, v);
      FillInPlace(ids, p, count, v);
    }

    /** kl_create_device once minors and ids have been chosen. */
    method CreateAt(m: nat, p: nat, count: nat, kdev: nat, made: seq<bool>, ghost s: nat)
      returns (ok: bool, ghost failed: nat)
      requires Valid() && count == c && count <= |made| && p == Slot(s, c)
      requires FreeRun(minors[..], m, c) && FreeRun(ids[..], p, c) && !SlotTaken(groups, s)
      modifies this`groups, this`used, this`kdevs, minors, ids, inodes, id2minor
      ensures Valid() && m !in old(groups)
      ensures ok <==> forall k :: 0 <= k < count ==> made[k]
      ensures ok ==> groups == old(groups)[m := s] && kdevs == old(kdevs)[m := kdev]
      ensures !ok ==> groups == old(groups) && kdevs == old(kdevs)
      ensures ok ==> minors[..] == Fill(old(minors[..]), m, count, true)
      ensures ok ==> ids[..] == Fill(old(ids[..]), p, count, true)
      ensures !ok ==> minors[..] == old(minors[..]) && ids[..] == old(ids[..])
      ensures ChangedOnly(inodes[..], old(inodes[..]), m, count)
      ensures ChangedOnly(id2minor[..], old(id2minor[..]), p, count)
      ensures !ok ==>
        && FailsAt(made, count, failed)
        && Undone(inodes[..], old(inodes[..]), id2minor[..], old(id2minor[..]), m, p, failed, kdev)
      ensures NoStrayIds(c, old(groups), old(id2minor[..])) ==> (NoStrayIds(c, groups, id2minor[..]) <==> ok)
    {
      ghost var bits, wasIds := ids[..], id2minor[..];
      AddKeepsBits(n, c, minors[..], bits, groups, used, m, s);
      FreeIsApart(n, c, minors[..], bits, groups, used, m);
      FillBits(m, p, count, true);
      ok, failed := MakeNodesBeside(m, p, count, kdev, made, s);
      if ok {
        if NoStrayIds(c, groups, wasIds) { WholeLeavesNoStray(c, groups, m, s, id2minor[..], wasIds); }
        groups, used, kdevs := groups[m := s], used + {s}, kdevs[m := kdev];
      } else {
        FillBits(m, p, count, false);
        FillAndBack(old(minors[..]), m, count);
        FillAndBack(bits, p, count);
        FailureLeavesStray(n, c, minors[..], bits, groups, p, inodes[..], old(inodes[..]), id2minor[..], wasIds,
                           m, failed, kdev);
      }
    }

    /** The searches of kl_create_device: no minors, or minors and then ids too. */
    method Choose(start: nat, count: nat) returns (m: nat, p: nat, ghost s: nat)
      requires Valid() && count > 0 && (count == c || (groups != map[] && count + c > n))
      ensures if m >= n then FirstFit(minors[..], start, count) == None
              else FirstFit(minors[..], start, count) == Some(m) && FirstFit(ids[..], 0, count) == Some(p)
      ensures m < n ==> count == c && p == Slot(s, count) && !SlotTaken(groups, s)
    {
      p, s := 0, 0;
      if count != c { NoRoomForOther(n, c, minors[..], ids[..], groups, used, start, count); }
      m := FindNextZeroArea(minors, n, start, count);
      if m >= n { return; }
      MinorsImplyIds(n, c, minors[..], ids[..], groups, used, m);
      s := FitIsSlot(n, c, minors[..], ids[..], groups, used);
      // The id search is independent of the minors, which are set first in the driver.
      p := FindNextZeroArea(ids, n, 0, count);
      if p >= n { assert false; }  // BUG_ON
    }

    /** kl_create_device for one device of `count` nodes. The live devices must
        have as many nodes, or too many for both to fit into the table. A call
        of device_create that fails has all nodes before it taken down again,
        but leaves an id that leads to the device that was never made. */
    method Create(start: nat, count: nat, kdev: nat, made: seq<bool>) returns (r: Created, ghost failed: nat)
      requires Valid() && 0 < count <= |made|
      requires groups == map[] || count == c || count + c > n
      modifies this`c, this`groups, this`used, this`kdevs, minors, ids, inodes, id2minor
      ensures Valid() && c == if r.Minor? || old(groups) == map[] then count else old(c)
      ensures r == MaxDev <==> FirstFit(old(minors[..]), start, count) == None
      ensures r != MaxDev ==> (r.Minor? <==> forall k :: 0 <= k < count ==> made[k])
      ensures match r {
        case Minor(m) =>
          && FirstFit(old(minors[..]), start, count) == Some(m)
          && m !in old(groups) && m in groups && groups == old(groups)[m := groups[m]] && kdevs == old(kdevs)[m := kdev]
          && FirstFit(old(ids[..]), 0, count) == Some(Slot(groups[m], count))
          && minors[..] == Fill(old(minors[..]), m, count, true)
          && ids[..] == Fill(old(ids[..]), Slot(groups[m], count), count, true)
          && ChangedOnly(inodes[..], old(inodes[..]), m, count)
          && ChangedOnly(id2minor[..], old(id2minor[..]), Slot(groups[m], count), count)
        case _ =>
          && groups == old(groups) && kdevs == old(kdevs)
          && minors[..] == old(minors[..]) && ids[..] == old(ids[..])
      }
      ensures r == MaxDev ==> inodes[..] == old(inodes[..]) && id2minor[..] == old(id2minor[..])
      ensures r == DevInit ==>
        var m, p := FirstFit(old(minors[..]), start, count), FirstFit(old(ids[..]), 0, count);
        && m.Some? && p.Some? && FailsAt(made, count, failed)
        && Undone(inodes[..], old(inodes[..]), id2minor[..], old(id2minor[..]), m.value, p.value, failed, kdev)
      ensures NoStrayIds(old(c), old(groups), old(id2minor[..])) ==>
        (NoStrayIds(c, groups, id2minor[..]) <==> r != DevInit)
    {
      failed := 0;
      if groups == map[] {
        EmptyFitsAnyCount(n, c, minors[..], ids[..], used, count);
        c := count;
      }
      var m, p;
      ghost var s;
      m, p, s := Choose(start, count);
      if m >= n { r := MaxDev; return; }
      var ok;
      ok, failed := CreateAt(m, p, count, kdev, made, s);
      r := if ok then Minor(m) else DevInit;
    }

    /** The loop of kl_destroy_device. */
    method ClearNodes(m: nat, count: nat, ghost p: nat, ghost kdev: nat)
      requires Shape() && NodesOk(inodes[..], id2minor[..], count, m, p, kdev)
      modifies inodes, id2minor
      ensures inodes[..] == Wiped(old(inodes[..]), m, m + count, Inode(-1, false, None))
      ensures id2minor[..] == Wiped(old(id2minor[..]), p, p + count, -1)
    {
      for i := 0 to count
        invariant inodes[..] == Wiped(old(inodes[..]), m, m + i, Inode(-1, false, None))
        invariant id2minor[..] == Wiped(old(id2minor[..]), p, p + i, -1)
      {
        assert inodes[m + i] == inodes[..][m + i] == old(inodes[..])[m + i];
        ClearNode(m + i);
      }
    }

    /** It leaves the tables of all other devices in order. */
    method ClearNodesBeside(m: nat, count: nat)
      requires Shape() && GroupsOk(n, count, groups) && m in groups
      requires TablesOk(inodes[..], id2minor[..], count, groups, kdevs)
      modifies inodes, id2minor
      ensures TablesOk(inodes[..], id2minor[..], count, groups - {m}, kdevs)
      ensures Cleared(inodes[..], old(inodes[..]), id2minor[..], old(id2minor[..]), m, Slot(groups[m], count), count)
      ensures LeadNowhere(inodes[..], id2minor[..], Slot(groups[m], count), count)
      ensures NoStrayIds(count, groups, old(id2minor[..])) ==> NoStrayIds(count, groups - {m}, id2minor[..])
    {
      ghost var s := groups[m];
      assert NodesOk(inodes[..], id2minor[..], count, m, Slot(s, count), kdevs[m]);
      ClearNodes(m, count, Slot(s, count), kdevs[m]);
      forall k | k in groups && k != m ensures (k + count <= m || m + count <= k) && groups[k] != s {
        assert Apart(groups, count, k, m);
      }
      OthersKeepTables(n, count, groups, kdevs, m, s, old(inodes[..]), inodes[..], old(id2minor[..]), id2minor[..]);
      if NoStrayIds(count, groups, old(id2minor[..])) {
        ClearedLeavesNoStray(n, count, groups, m, inodes[..], old(inodes[..]), id2minor[..], old(id2minor[..]));
      }
    }

    /** The id of a live device's first node. */
    method FirstId(minor: nat) returns (devfileId: int)
      requires Valid() && minor in groups
      ensures devfileId == Slot(groups[minor], c)
    {
      assert NodesOk(inodes[..], id2minor[..], c, minor, Slot(groups[minor], c), kdevs[minor]);
      assert inodes[minor] == inodes[..][minor];
      devfileId := inodes[minor].devfileId;
    }

    /** kl_destroy_device of a live device. */
    method Destroy(minor: nat, count: nat)
      requires Valid() && count == c && minor in groups
      modifies this`groups, this`used, this`kdevs, minors, ids, inodes, id2minor
      ensures Valid() && groups == old(groups) - {minor} && kdevs == old(kdevs)
      ensures var p := Slot(old(groups)[minor], count);
        && minor + count <= n && minors[..] == Fill(old(minors[..]), minor, count, false)
        && p + count <= n && ids[..] == Fill(old(ids[..]), p, count, false)
        && Cleared(inodes[..], old(inodes[..]), id2minor[..], old(id2minor[..]), minor, p, count)
        && LeadNowhere(inodes[..], id2minor[..], p, count)
      ensures NoStrayIds(c, old(groups), old(id2minor[..])) ==> NoStrayIds(c, groups, id2minor[..])
    {
      var devfileId := FirstId(minor);
      RemoveKeepsBits(n, c, minors[..], ids[..], groups, used, minor);
      ClearNodesBeside(minor, count);
      FillBits(minor, devfileId, count, false);
      groups, used := groups - {minor}, used - {groups[minor]};
    }

    /** get_kdev_by_devfile_id: for the id of a live node the device that was
        created with it; for any other id, what its table entry leads to, which
        is nothing once it has been cleared. */
    method GetKdevByDevfileId(devfileId: int) returns (kdev: Option<nat>)
      requires Valid()
      ensures forall m :: m in groups && Within(devfileId, Slot(groups[m], c), c) ==> kdev == Some(kdevs[m])
      ensures kdev == KdevOf(inodes[..], id2minor[..], devfileId)
    {
      if devfileId < 0 || devfileId >= n { return None; }
      forall m | m in groups && Within(devfileId, Slot(groups[m], c), c)
        ensures id2minor[devfileId] == m + devfileId - Slot(groups[m], c)
        ensures m <= id2minor[devfileId] < n && inodes[id2minor[devfileId]].kdev == Some(kdevs[m])
      {
        var d := devfileId;
        assert NodesOk(inodes[..], id2minor[..], c, m, Slot(groups[m], c), kdevs[m]);
        assert id2minor[..][d] == id2minor[d];
        assert inodes[..][id2minor[d]] == inodes[id2minor[d]];
      }
      var minor := id2minor[devfileId];
      if minor < 0 || minor >= n { return None; }
      return inodes[minor].kdev;
    }
  }
}
