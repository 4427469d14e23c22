/** One `struct kl_memory`: a block of device pages and its tables. */
module Memory {
  import opened Wrappers
  import opened Bitmaps
  import opened LiveRanges
  import opened Layout

  datatype Status = Success | InvalidParam | NoMem

  function EmptyBlock(n: nat): Block {
    Block(seq(n, _ => false), seq(n, _ => 0), seq(n, _ => NULL), 0)
  }

  function Taken(b: Block, p: nat, n: nat, o: Owner): Block
    requires |b.bits| == |b.len| == |b.own| && p + n <= |b.bits| && p < |b.bits|
  {
    Block(Fill(b.bits, p, n, true), b.len[p := n], b.own[p := o], b.used + n)
  }

  function Released(b: Block, p: nat, n: nat): Block
    requires |b.bits| == |b.len| == |b.own| && n > 0 && p + n <= |b.bits|
  {
    Block(Fill(b.bits, p, n, false), b.len[p := 0], b.own[p := NULL], b.used - n)
  }

  class KlMemory {
    const info: MemInfo
    const pageBitmap: array<bool>
    const freeTable: array<nat>
    const ownerTable: array<Owner>
    var pageUsed: int
    var locked: bool

    ghost function Cells(): set<object> { {this, pageBitmap, freeTable, ownerTable} }

    /** The tables have one entry for each page. */
    ghost predicate Shaped() {
      pageBitmap.Length == freeTable.Length == ownerTable.Length == info.PageCount()
    }

    ghost function View(): Block
      reads this`pageUsed, pageBitmap, freeTable, ownerTable
    {
      Block(pageBitmap[..], freeTable[..], ownerTable[..], pageUsed)
    }

    /** __setup_kl_memory: every page free, no owner. */
    constructor (info: MemInfo)
      ensures this.info == info && Shaped() && !locked
      ensures fresh(pageBitmap) && fresh(freeTable) && fresh(ownerTable)
      ensures View() == EmptyBlock(info.PageCount())
    {
      this.info := info;
      var n := info.PageCount();
      pageBitmap := new bool[n](_ => false);
      freeTable := new nat[n](_ => 0);
      ownerTable := new Owner[n](_ => NULL);
      pageUsed := 0;
      locked := false;
      new;
      assert pageBitmap[..] == EmptyBlock(n).bits;
      assert freeTable[..] == EmptyBlock(n).len;
      assert ownerTable[..] == EmptyBlock(n).own;
      Bitmaps.CountUniform(pageBitmap[..], false);
    }

    /** spin_lock: the lock must not be held already, or the caller would spin for ever. */
    method Lock()
      requires !locked
      modifies this`locked
      ensures locked
    {
      locked := true;
    }

    /** spin_unlock */
    method Unlock()
      requires locked
      modifies this`locked
      ensures !locked
    {
      locked := false;
    }

    /** __find_free_pages */
    method FindFreePages(n: nat) returns (r: Option<nat>)
      requires Shaped()
      ensures r == FirstFit(View().bits, 0, Wanted(n))
    {
      var pos := FindNextZeroArea(pageBitmap, info.PageCount(), 0, n);
      if pos >= info.PageCount() { return None; }
      return Some(pos);
    }

    /** __take_pages */
    method TakePages(p: nat, n: nat, o: Owner)
      requires Shaped() && p + n <= info.PageCount() && p < info.PageCount()
      modifies this`pageUsed, pageBitmap, freeTable, ownerTable
      ensures View() == Taken(old(View()), p, n, o)
    {
      FillInPlace(pageBitmap, p, n, true);
      pageUsed := pageUsed + n;
      freeTable[p] := n;
      ownerTable[p] := o;
      assert freeTable[..] == old(freeTable[..])[p := n];
      assert ownerTable[..] == old(ownerTable[..])[p := o];
    }

    /** __release_pages */
    method ReleasePages(p: nat, n: nat)
      requires Shaped() && n > 0 && p + n <= info.PageCount()
      modifies this`pageUsed, pageBitmap, freeTable, ownerTable
      ensures View() == Released(old(View()), p, n)
    {
      FillInPlace(pageBitmap, p, n, false);
      pageUsed := pageUsed - n;
      freeTable[p] := 0;
      ownerTable[p] := NULL;
      assert freeTable[..] == old(freeTable[..])[p := 0];
      assert ownerTable[..] == old(ownerTable[..])[p := NULL];
    }

    /** __malloc_locked: first fit in this block. It fails exactly when no run
        of free pages is long enough, although it looks at the count first. A
        size that wraps when it is rounded up takes no page but writes the owner. */
    method MallocLocked(sz: nat, o: Owner) returns (r: Option<nat>)
      requires Shaped() && locked && sz > 0
      requires pageUsed == Count(View().bits)
      modifies this`pageUsed, pageBitmap, freeTable, ownerTable
      ensures r == FirstFit(old(View()).bits, 0, Wanted(PagesNeeded(info, sz)))
      ensures r.Some? ==> View() == Taken(old(View()), r.value, PagesNeeded(info, sz), o)
      ensures r.None? ==> View() == old(View())
    {
      var n := PagesNeeded(info, sz);
      if n + pageUsed > info.PageCount() {
        forall q: nat ensures !FreeRun(View().bits, q, Wanted(n)) {
          if FreeRun(View().bits, q, Wanted(n)) { FreeRunLeavesRoom(View().bits, q, Wanted(n)); assert false; }
        }
        return None;
      }
      r := FindFreePages(n);
      if r.None? { return; }
      TakePages(r.value, n, o);
    }
  }
}
