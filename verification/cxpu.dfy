/** kl_cxpu: the list of instances and the shared totals, changed in place. */
module Cxpu {
  import opened Layout
  import opened Quota

  class Instance {
    const id: string
    const token: nat
    /** `struct xref`: the kref and the copy of its count kept for reading. */
    var kref: nat
    var refcount: int
    var limitMain: nat
    var limitL3: nat

    function View(): Entry
      reads this
    {
      Entry(id, token, kref, limitMain, limitL3)
    }

    constructor (id: string, token: nat)
      ensures View() == Entry(Key(id), token, 1, MEM_UNLIMIT, MEM_UNLIMIT) && kref == refcount
    {
      this.id, this.token := Key(id), token;
      kref, refcount := 1, 1;
      limitMain, limitL3 := MEM_UNLIMIT, MEM_UNLIMIT;
    }

    /** xref_get */
    method Get()
      requires kref == refcount
      modifies this
      ensures View() == old(View()).(refs := old(kref) + 1) && kref == refcount
    {
      kref := kref + 1;
      refcount := refcount + 1;
    }

    /** xref_put: true when the last reference is gone. */
    method Put() returns (last: bool)
      requires kref == refcount > 0
      modifies this
      ensures View() == old(View()).(refs := old(kref) - 1) && kref == refcount
      ensures last <==> kref == 0
    {
      refcount := refcount - 1;
      kref := kref - 1;
      last := kref == 0;
    }
  }

  class CxpuDevice {
    const infos: seq<MemInfo>
    const eccOn: bool
    var enabled: bool
    var instances: seq<Instance>
    var instanceCnt: int
    var mainUsed: nat
    var l3Used: nat

    function Entries(): (r: seq<Entry>)
      reads this, instances
      ensures |r| == |instances|
    {
      seq(|instances|, i requires 0 <= i < |instances| reads this, instances => instances[i].View())
    }

    function View(): Books
      reads this, instances
    {
      Books(Entries(), mainUsed, l3Used)
    }

    ghost predicate Listed()
      reads this, instances
    {
      && instanceCnt == |instances|
      && (forall i :: 0 <= i < |instances| ==> instances[i].kref == instances[i].refcount)
      && (forall i, j :: 0 <= i < j < |instances| ==> instances[i] != instances[j])
    }

    ghost predicate Valid()
      reads this, instances
    {
      && FirstOf(infos, XPU_MEM_MAIN).Some?
      && Total(infos, XPU_MEM_MAIN) < MEM_UNLIMIT && Total(infos, XPU_MEM_L3) < MEM_UNLIMIT && WordSized(infos)
      && Listed() && BooksOk(infos, View())
    }

    /** kl_cxpu_init */
    constructor (infos: seq<MemInfo>, eccOn: bool)
      requires FirstOf(infos, XPU_MEM_MAIN).Some?
      requires Total(infos, XPU_MEM_MAIN) < MEM_UNLIMIT && Total(infos, XPU_MEM_L3) < MEM_UNLIMIT && WordSized(infos)
      ensures Valid() && enabled && this.infos == infos && this.eccOn == eccOn && View() == Books([], 0, 0)
    {
      this.infos, this.eccOn := infos, eccOn;
      enabled, instances, instanceCnt := true, [], 0;
      mainUsed, l3Used := 0, 0;
    }

    /** The list walk by name. */
    method Lookup(id: string) returns (i: nat)
      ensures i == Find(Entries(), id)
    {
      i := 0;
      while i < |instances| && instances[i].id != Key(id)
        invariant i <= |instances|
        invariant Find(Entries(), id) == i + Find(Entries()[i..], id)
      {
        i := i + 1;
      }
    }

    /** A new instance at the end of the list. */
    method Append(id: string, token: nat)
      requires Listed()
      modifies this`instances, this`instanceCnt
      ensures Listed()
      ensures View() == old(View()).(entries := old(Entries()) + [Entry(Key(id), token, 1, MEM_UNLIMIT, MEM_UNLIMIT)])
    {
      var e := new Instance(id, token);
      instances := instances + [e];
      instanceCnt := instanceCnt + 1;
      assert Entries() == old(Entries()) + [e.View()];
    }

    /** kl_cxpu_create_instance */
    method CreateInstance(id: string, token: nat) returns (err: Errno)
      requires Valid()
      modifies this
      ensures Valid() && enabled == old(enabled)
      ensures !old(enabled) ==> err == EINVAL && View() == old(View())
      ensures old(enabled) ==> Creates(old(View()), id, token, View(), err)
      ensures old(enabled) ==> (View(), err) == CreateIn(old(View()), id, token)
    {
      if !enabled { return EINVAL; }
      if instanceCnt >= INSTANCE_MAX { return ENOMEM; }
      var i := Lookup(id);
      if i < |instances| { return EEXIST; }
      CreateKeeps(infos, View(), id, token);
      Append(id, token);
      err := OK;
    }

    /** xref_get on the instance at place `i`. */
    method GetAt(i: nat)
      requires Valid() && i < |instances|
      modifies instances[i]
      ensures Valid() && View() == GetIn(old(View()), i)
      ensures var e := old(Entries())[i]; Becomes(old(View()), i, e.(refs := e.refs + 1), View())
    {
      ReplaceKeeps(infos, View(), i, instances[i].kref + 1);
      instances[i].Get();
      assert Entries() == old(Entries())[i := instances[i].View()];
    }

    /** kl_cxpu_get_instance_by_id_locked */
    method GetInstanceById(id: string) returns (r: Instance?)
      requires Valid()
      modifies instances
      ensures Valid()
      ensures r != null <==> enabled && Lists(old(Entries()), id)
      ensures r == null ==> View() == old(View())
      ensures r != null ==>
        var i := Find(old(Entries()), id);
        && i < |instances| && r == instances[i] && r.id == Key(id) && View() == GetIn(old(View()), i)
        && var e := old(Entries())[i]; Becomes(old(View()), i, e.(refs := e.refs + 1), View())
    {
      r := null;
      if enabled {
        var i := Lookup(id);
        if i < |instances| {
          GetAt(i);
          r := instances[i];
        }
      }
    }

    /** Where an instance stands in the list. */
    method Place(inst: Instance) returns (i: nat)
      requires Listed() && inst in instances
      ensures i < |instances| && instances[i] == inst
    {
      i := 0;
      while instances[i] != inst
        invariant i < |instances| && inst !in instances[..i]
        decreases |instances| - i
      {
        assert i + 1 < |instances|;
        i := i + 1;
      }
    }

    /** Takes the instance at place `i` off the list. */
    method Unlist(i: nat)
      requires Listed() && i < |instances|
      modifies this`instances, this`instanceCnt
      ensures Listed() && instances == old(instances)[..i] + old(instances)[i + 1..]
      ensures View() == old(View()).(entries := Others(old(Entries()), i))
    {
      instances := instances[..i] + instances[i + 1..];
      instanceCnt := instanceCnt - 1;
      assert Entries() == Others(old(Entries()), i);
    }

    /** kl_cxpu_destroy_instance_ref: off the list, its finite limits given back. */
    method DestroyInstanceRef(i: nat)
      requires FirstOf(infos, XPU_MEM_MAIN).Some? && Listed() && i < |instances|
      requires Finite(instances[i].limitMain) <= mainUsed && Finite(instances[i].limitL3) <= l3Used
      modifies this
      ensures Listed() && View() == RemoveIn(old(View()), i) && enabled == old(enabled)
      ensures Loses(old(View()), i, View())
      ensures instances == old(instances)[..i] + old(instances)[i + 1..]
    {
      var inst := instances[i];
      Unlist(i);
      if inst.limitMain != MEM_UNLIMIT { mainUsed := mainUsed - inst.limitMain; }
      if inst.limitL3 != MEM_UNLIMIT { l3Used := l3Used - inst.limitL3; }
    }

    /** xref_put on the instance at place `i`, with its destructor. */
    method PutAt(i: nat)
      requires Valid() && i < |instances|
      modifies this, instances[i]
      ensures Valid() && View() == PutIn(old(View()), i) && enabled == old(enabled)
      ensures Puts(old(View()), i, View())
    {
      ghost var b := View();
      PutKeeps(infos, b, i);
      LimitsWithin(infos, b, i);
      var last := instances[i].Put();
      assert Entries() == b.entries[i := instances[i].View()];
      if last {
        DestroyInstanceRef(i);
        assert Entries() == b.entries[..i] + b.entries[i + 1..];
      }
    }

    /** kl_cxpu_put_instance_locked */
    method PutInstance(inst: Instance?)
      requires Valid() && (inst != null ==> inst in instances)
      modifies this, instances
      ensures Valid() && enabled == old(enabled)
      ensures !old(enabled) || inst == null ==> View() == old(View())
      ensures forall i: nat :: old(enabled) && i < |old(instances)| && old(instances)[i] == inst ==>
        View() == PutIn(old(View()), i) && Puts(old(View()), i, View())
    {
      if enabled && inst != null {
        var i := Place(inst);
        PutAt(i);
      }
    }

    /** kl_cxpu_destroy_instance: refused while anyone else holds a reference. */
    method DestroyInstance(id: string) returns (err: Errno)
      requires Valid()
      modifies this, instances
      ensures Valid() && enabled == old(enabled)
      ensures !old(enabled) ==> err == EINVAL && View() == old(View())
      ensures old(enabled) ==> Destroys(old(View()), id, View(), err)
      ensures old(enabled) ==> (View(), err) == DestroyIn(old(View()), id)
    {
      if !enabled { return EINVAL; }
      DestroyIs(infos, View(), id);
      var i := Lookup(id);
      err := OK;
      if i < |instances| {
        if instances[i].refcount > 1 { return EBUSY; }
        PutAt(i);
      }
    }

    /** The two writes of a limit that is accepted. */
    method StoreLimit(i: nat, kind: int, used: nat, limit: nat)
      requires Listed() && i < |instances| && (kind == XPU_MEM_MAIN || kind == XPU_MEM_L3)
      modifies this`mainUsed, this`l3Used, instances[i]
      ensures Listed()
      ensures var b := old(View());
        View() == WithUsed(b, kind, used).(entries := b.entries[i := WithLimit(b.entries[i], kind, limit)])
    {
      if kind == XPU_MEM_MAIN {
        mainUsed := used;
        instances[i].limitMain := limit;
      } else {
        l3Used := used;
        instances[i].limitL3 := limit;
      }
      assert Entries() == old(Entries())[i := instances[i].View()];
    }

    /** The code of kl_cxpu_instance_set_mem_limit_locked. The subtractions are on
        naturals: that they stay there is part of the proof. */
    method ChangeLimit(i: nat, kind: int, bytes: nat) returns (err: Errno)
      requires Valid() && i < |instances| && bytes < TWO_TO_THE_64
      modifies this`mainUsed, this`l3Used, instances[i]
      ensures Valid() && (View(), err) == SetLimitIn(infos, eccOn, old(View()), i, kind, bytes)
    {
      ghost var b := View();
      ghost var (r, _) := SetLimitIn(infos, eccOn, b, i, kind, bytes);
      SetLimitKeeps(infos, eccOn, b, i, kind, bytes);
      var m := FirstOf(infos, kind);
      if m.None? || (kind != XPU_MEM_MAIN && kind != XPU_MEM_L3) { return EINVAL; }
      var used := if kind == XPU_MEM_MAIN then mainUsed else l3Used;
      var was := if kind == XPU_MEM_MAIN then instances[i].limitMain else instances[i].limitL3;
      var last := if was == MEM_UNLIMIT then 0 else was;
      assert used == Used(b, kind) && last == Finite(Limit(b.entries[i], kind));
      if bytes == MEM_UNLIMIT {
        var rest: nat := used - last;
        StoreLimit(i, kind, rest, MEM_UNLIMIT);
        assert View() == r;
        return OK;
      }
      var pages := BytesToPages(m.value, bytes);
      if pages == MEM_UNLIMIT { return EINVAL; }
      var limit := Actual(eccOn, kind, pages);
      var available: nat := Total(infos, kind) + last - used;
      if limit > available { return ENOMEM; }
      StoreLimit(i, kind, used - last + limit, limit);
      assert View() == r;
      err := OK;
    }

    /** kl_cxpu_instance_set_mem_limit_locked for the instance at place `i`. */
    method SetLimitAt(i: nat, kind: int, bytes: nat) returns (err: Errno)
      requires Valid() && i < |instances| && bytes < TWO_TO_THE_64
      modifies this`mainUsed, this`l3Used, instances[i]
      ensures Valid() && (View(), err) == SetLimitIn(infos, eccOn, old(View()), i, kind, bytes)
      ensures SetsLimit(infos, eccOn, old(View()), i, kind, bytes, View(), err)
    {
      SetLimitIs(infos, eccOn, View(), i, kind, bytes);
      err := ChangeLimit(i, kind, bytes);
    }

    /** kl_cxpu_instance_set_mem_limit_locked. */
    method InstanceSetMemLimit(inst: Instance?, kind: int, bytes: nat) returns (err: Errno)
      requires Valid() && (inst != null ==> inst in instances) && bytes < TWO_TO_THE_64
      modifies this`mainUsed, this`l3Used, instances
      ensures Valid()
      ensures inst == null ==> err == EINVAL && View() == old(View())
      ensures forall i: nat :: i < |instances| && instances[i] == inst ==>
        && (View(), err) == SetLimitIn(infos, eccOn, old(View()), i, kind, bytes)
        && SetsLimit(infos, eccOn, old(View()), i, kind, bytes, View(), err)
    {
      if inst == null { return EINVAL; }
      var i := Place(inst);
      err := SetLimitAt(i, kind, bytes);
    }

    /** kl_cxpu_set_instance_mem_limit: look the instance up by name, set the
        limit, give the reference back. The reference counts end as they were. */
    method SetInstanceMemLimit(id: string, kind: int, bytes: nat) returns (err: Errno)
      requires Valid() && bytes < TWO_TO_THE_64
      modifies this, instances
      ensures Valid() && enabled == old(enabled)
      ensures var i := Find(old(Entries()), id);
        if old(enabled) && i < |old(instances)| then
          && (View(), err) == SetLimitIn(infos, eccOn, old(View()), i, kind, bytes)
          && SetsLimit(infos, eccOn, old(View()), i, kind, bytes, View(), err)
        else err == EINVAL && View() == old(View())
    {
      ghost var b := View();
      ghost var at := Find(Entries(), id);
      if at < |instances| { SetLimitIs(infos, eccOn, b, at, kind, bytes); }
      var inst := GetInstanceById(id);
      ghost var b1 := View();
      err := InstanceSetMemLimit(inst, kind, bytes);
      if inst != null { SetLimitBetween(infos, eccOn, b, at, kind, bytes); }
      ghost var b2 := View();
      PutInstance(inst);
    }
  }
}
