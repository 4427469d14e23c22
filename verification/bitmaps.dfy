/** The Linux bitmap operations that the allocator and the device table call.
    A bitmap is a sequence of booleans, one for each page or number; the
    methods at the end work on an array in place. */
module Bitmaps {
  import opened Wrappers

  /** `n` clear bits starting at `p` fit in the bitmap. */
  predicate FreeRun(bits: seq<bool>, p: nat, n: nat) {
    p + n <= |bits| && forall j :: p <= j < p + n ==> !bits[j]
  }

  /** The least position at or after `start` where `n` clear bits fit. */
  function FirstFit(bits: seq<bool>, start: nat, n: nat): (r: Option<nat>)
    ensures r.Some? ==> start <= r.value && FreeRun(bits, r.value, n)
    ensures r.Some? ==> forall q: nat :: start <= q < r.value ==> !FreeRun(bits, q, n)
    ensures r.None? ==> forall q: nat :: start <= q ==> !FreeRun(bits, q, n)
    decreases |bits| - start
  {
    if start + n > |bits| then None
    else if FreeRun(bits, start, n) then Some(start)
    else FirstFit(bits, start + 1, n)
  }

  /** The clear bits that bitmap_find_next_zero_area looks for: asked for none
      it still stops at a clear bit. */
  function Wanted(n: nat): nat { if n == 0 then 1 else n }

  /** First fit is determined by the property its contract states. */
  lemma {:induction false} FirstFitIs(bits: seq<bool>, start: nat, n: nat, p: nat)
    requires start <= p && FreeRun(bits, p, n)
    requires forall q: nat :: start <= q < p ==> !FreeRun(bits, q, n)
    ensures FirstFit(bits, start, n) == Some(p)
  {
    var r := FirstFit(bits, start, n);
    assert r.Some?;
  }

  /** A bitmap of `n` clear bits. */
  function Clear(n: nat): (r: seq<bool>)
    ensures |r| == n && forall j :: 0 <= j < n ==> !r[j]
  {
    seq(n, _ => false)
  }

  /** The bitmap with `n` bits from `p` on set to `v`. */
  function Fill(bits: seq<bool>, p: nat, n: nat, v: bool): (r: seq<bool>)
    requires p + n <= |bits|
    ensures |r| == |bits|
    ensures forall j :: 0 <= j < |bits| ==> r[j] == if p <= j < p + n then v else bits[j]
  {
    seq(|bits|, j requires 0 <= j < |bits| => if p <= j < p + n then v else bits[j])
  }

  /** The number of set bits. */
  function Count(bits: seq<bool>): nat {
    if |bits| == 0 then 0
    else Count(bits[..|bits| - 1]) + if bits[|bits| - 1] then 1 else 0
  }

  lemma {:induction false} CountBound(bits: seq<bool>)
    ensures Count(bits) <= |bits|
  {
    if |bits| > 0 { CountBound(bits[..|bits| - 1]); }
  }

  lemma {:induction false} CountUniform(bits: seq<bool>, v: bool)
    requires forall j :: 0 <= j < |bits| ==> bits[j] == v
    ensures Count(bits) == if v then |bits| else 0
  {
    if |bits| > 0 { CountUniform(bits[..|bits| - 1], v); }
  }

  lemma {:induction false} CountAppend(a: seq<bool>, b: seq<bool>)
    ensures Count(a + b) == Count(a) + Count(b)
  {
    if |b| == 0 {
      assert a + b == a;
    } else {
      var l := |b| - 1;
      CountAppend(a, b[..l]);
      assert (a + b)[..|a + b| - 1] == a + b[..l];
    }
  }

  /** The count of a bitmap is the sum over its three parts. */
  lemma {:induction false} CountSplit(bits: seq<bool>, p: nat, n: nat)
    requires p + n <= |bits|
    ensures Count(bits) == Count(bits[..p]) + Count(bits[p..p + n]) + Count(bits[p + n..])
  {
    CountAppend(bits[..p] + bits[p..p + n], bits[p + n..]);
    CountAppend(bits[..p], bits[p..p + n]);
    assert bits == bits[..p] + bits[p..p + n] + bits[p + n..];
  }

  /** Turning a uniform stretch of `n` bits over moves the count by exactly `n`. */
  lemma {:induction false} CountFill(bits: seq<bool>, p: nat, n: nat, v: bool)
    requires p + n <= |bits|
    requires forall j :: p <= j < p + n ==> bits[j] != v
    ensures Count(Fill(bits, p, n, v)) == if v then Count(bits) + n else Count(bits) - n
  {
    var after := Fill(bits, p, n, v);
    CountSplit(bits, p, n);
    CountSplit(after, p, n);
    assert after[..p] == bits[..p] && after[p + n..] == bits[p + n..];
    CountUniform(bits[p..p + n], !v);
    CountUniform(after[p..p + n], v);
  }

  /** A bitmap with a free run has room for it: the count leaves `n` bits over. */
  lemma {:induction false} FreeRunLeavesRoom(bits: seq<bool>, p: nat, n: nat)
    requires FreeRun(bits, p, n)
    ensures Count(bits) + n <= |bits|
  {
    CountFill(bits, p, n, true);
    CountBound(Fill(bits, p, n, true));
  }

  /** find_next_bit and find_next_zero_bit: the first index from `start` on
      whose bit is `v`, or `size` when there is none. */
  method FindNext(bits: array<bool>, size: nat, start: nat, v: bool) returns (i: nat)
    requires size <= bits.Length
    ensures i <= size
    ensures i < size ==> start <= i && bits[i] == v
    ensures forall j :: start <= j < i ==> bits[j] != v
    ensures i == size ==> forall j :: start <= j < size ==> bits[j] != v
  {
    if start >= size { return size; }
    i := start;
    while i < size && bits[i] != v
      invariant start <= i <= size
      invariant forall j :: start <= j < i ==> bits[j] != v
    {
      i := i + 1;
    }
  }

  /** bitmap_find_next_zero_area without alignment. */
  method FindNextZeroArea(bits: array<bool>, size: nat, start: nat, nr: nat) returns (index: nat)
    requires size == bits.Length
    ensures FirstFit(bits[..], start, Wanted(nr)) == if index < size then Some(index) else None
    ensures index < size ==> index + nr <= size
  {
    ghost var n := Wanted(nr);
    var from := start;
    while true
      invariant start <= from
      invariant forall q: nat :: start <= q < from ==> !FreeRun(bits[..], q, n)
      decreases size - from
    {
      index := FindNext(bits, size, from, false);
      forall q: nat | from <= q < index ensures !FreeRun(bits[..], q, n) {
        assert q + n <= size ==> bits[..][q];
      }
      var end := index + nr;
      if index == size {
        forall q: nat | start <= q ensures !FreeRun(bits[..], q, n) { }
      }
      if end > size { return end; }
      var i := FindNext(bits, end, index, true);
      if i >= end {
        if index < size { FirstFitIs(bits[..], start, n, index); }
        return index;
      }
      forall q: nat | index <= q <= i ensures !FreeRun(bits[..], q, n) {
        assert bits[..][i];
      }
      from := i + 1;
    }
  }

  /** bitmap_set and bitmap_clear. */
  method FillInPlace(bits: array<bool>, p: nat, n: nat, v: bool)
    requires p + n <= bits.Length
    modifies bits
    ensures bits[..] == Fill(old(bits[..]), p, n, v)
  {
    for j := p to p + n
      invariant forall q :: 0 <= q < bits.Length ==> bits[q] == if p <= q < j then v else old(bits[q])
    {
      bits[j] := v;
    }
  }

  /** memcpy of `n` bits between two bitmaps. */
  method CopyBits(dst: array<bool>, at: nat, src: array<bool>, from: nat, n: nat)
    requires at + n <= dst.Length && from + n <= src.Length && dst != src
    modifies dst
    ensures forall q :: 0 <= q < dst.Length ==>
      dst[q] == if at <= q < at + n then src[from + q - at] else old(dst[q])
  {
    for j := 0 to n
      invariant forall q :: 0 <= q < dst.Length ==>
        dst[q] == if at <= q < at + j then src[from + q - at] else old(dst[q])
    {
      dst[at + j] := src[from + j];
    }
  }
}
