/** `struct use_ratio`: how many of the last 100 samples were set, kept in a
    ring of bits with a running count. */
module UseRatioWindow {
  import opened Bitmaps

  const USE_RATIO_PN: nat := 100

  /** The samples a window of `n` covers: the last `n`, or all while there are fewer. */
  function Window(h: seq<bool>, n: nat): seq<bool> {
    if |h| <= n then h else h[|h| - n..]
  }

  /** The position moves up by one and starts again after the last. */
  function Next(pos: nat, n: nat): nat {
    if pos + 1 < n then pos + 1 else 0
  }

  /** Where the sample after `h` goes. */
  function PosOf(h: seq<bool>, n: nat): (r: nat)
    requires n > 0
    ensures r < n && r <= |h| && (|h| < n ==> r == |h|)
  {
    if |h| == 0 then 0 else Next(PosOf(h[..|h| - 1], n), n)
  }

  /** What a ring of `n` bits holds after the samples `h`: the samples since it
      last came round, then the ones before that, not yet written over. */
  function RingAt(h: seq<bool>, pos: nat, n: nat): (r: seq<bool>)
    requires pos < n && pos <= |h| && (|h| < n ==> pos == |h|)
    ensures |r| == n
  {
    seq(n, j requires 0 <= j < n =>
      if j < pos then h[|h| - pos + j] else if |h| >= n then h[|h| - n + j - pos] else false)
  }

  function RingOf(h: seq<bool>, n: nat): (r: seq<bool>)
    requires n > 0
    ensures |r| == n
  {
    RingAt(h, PosOf(h, n), n)
  }

  /** Once the ring is full its position is at the oldest sample of the window. */
  lemma {:induction false} PosIsOldest(h: seq<bool>, n: nat)
    requires 0 < n <= |h|
    ensures RingOf(h, n)[PosOf(h, n)] == Window(h, n)[0] == h[|h| - n]
  {
  }

  /** Recording a sample writes over exactly the position's bit. */
  lemma {:induction false} RecordTurns(h: seq<bool>, x: bool, n: nat)
    requires n > 0
    ensures PosOf(h + [x], n) == Next(PosOf(h, n), n)
    ensures RingOf(h + [x], n) == RingOf(h, n)[PosOf(h, n) := x]
  {
    var pos := PosOf(h, n);
    assert (h + [x])[..|h + [x]| - 1] == h;
    assert RingOf(h + [x], n) == RingOf(h, n)[pos := x];
  }

  /** A full ring is the window turned round. */
  lemma {:induction false} FullRing(h: seq<bool>, pos: nat, n: nat)
    requires pos < n <= |h|
    ensures RingAt(h, pos, n) == h[|h| - pos..] + h[|h| - n..|h| - pos]
    ensures Window(h, n) == h[|h| - n..|h| - pos] + h[|h| - pos..]
  {
  }

  /** The set bits of the ring are the set samples of the window. */
  lemma {:induction false} RingCountsWindow(h: seq<bool>, n: nat)
    requires n > 0
    ensures Count(RingOf(h, n)) == Count(Window(h, n))
  {
    var pos := PosOf(h, n);
    if |h| >= n {
      FullRing(h, pos, n);
      CountAppend(h[|h| - pos..], h[|h| - n..|h| - pos]);
      CountAppend(h[|h| - n..|h| - pos], h[|h| - pos..]);
    } else {
      CountAppend(h, Clear(n - |h|));
      CountUniform(Clear(n - |h|), false);
      assert RingAt(h, |h|, n) == h + Clear(n - |h|);
    }
  }

  /** Writing one bit moves the count by what the bit changed. */
  lemma {:induction false} CountWrite(bits: seq<bool>, i: nat, x: bool)
    requires i < |bits|
    ensures Count(bits[i := x]) == Count(bits) - (if bits[i] then 1 else 0) + (if x then 1 else 0)
  {
    var other := bits[i := x];
    CountSplit(bits, i, 1);
    CountSplit(other, i, 1);
    assert other[..i] == bits[..i] && other[i + 1..] == bits[i + 1..];
    assert bits[i..i + 1] == [bits[i]] && other[i..i + 1] == [x];
    assert Count([bits[i]]) == if bits[i] then 1 else 0;
    assert Count([x]) == if x then 1 else 0;
  }

  /** One sample as a write to the ring: where it goes, what the ring holds then,
      and how the number of set bits moves. */
  lemma {:induction false} OneSample(h: seq<bool>, x: bool, n: nat, ring: seq<bool>, pos: nat)
    requires n > 0 && ring == RingOf(h, n) && pos == PosOf(h, n)
    ensures RingOf(h + [x], n) == ring[pos := x] && PosOf(h + [x], n) == Next(pos, n)
    ensures Count(ring[pos := x]) == Count(Window(h + [x], n))
    ensures Count(ring[pos := x]) == Count(ring) - (if ring[pos] then 1 else 0) + (if x then 1 else 0)
  {
    RecordTurns(h, x, n);
    CountWrite(ring, pos, x);
    RingCountsWindow(h + [x], n);
  }

  class UseRatio {
    const bitmap: array<bool>
    var pos: nat
    var weight: int
    /** Every sample recorded so far. */
    ghost var history: seq<bool>

    ghost predicate Valid()
      reads this, bitmap
    {
      && bitmap.Length > 0 && bitmap[..] == RingOf(history, bitmap.Length)
      && pos == PosOf(history, bitmap.Length) && weight == Count(bitmap[..])
    }

    /** ur_init, for a ring of `n` samples */
    constructor (n: nat)
      requires n > 0
      ensures Valid() && history == [] && fresh(bitmap) && bitmap.Length == n
    {
      bitmap := new bool[n](_ => false);
      pos, weight, history := 0, 0, [];
      new;
      assert bitmap[..] == RingOf([], n);
      CountUniform(bitmap[..], false);
    }

    /** ur_init as the driver has it: the last 100 samples. */
    static method Init() returns (r: UseRatio)
      ensures fresh(r) && r.Valid() && r.history == [] && r.bitmap.Length == USE_RATIO_PN
    {
      r := new UseRatio(USE_RATIO_PN);
    }

    /** Sets or clears the bit at the position. */
    method Write(x: bool)
      requires pos < bitmap.Length
      modifies bitmap
      ensures bitmap[..] == old(bitmap[..])[pos := x]
    {
      bitmap[pos] := x;
    }

    /** ur_record: test and set or clear the bit at the position, move on, and
        adjust the count where the bit changed. */
    method Record(isSet: bool) returns (w: int)
      requires Valid()
      modifies this, bitmap
      ensures Valid() && history == old(history) + [isSet]
      ensures w == weight == Count(Window(history, bitmap.Length))
    {
      OneSample(history, isSet, bitmap.Length, bitmap[..], pos);
      var test := bitmap[pos];
      Write(isSet);
      pos := if pos + 1 == bitmap.Length then 0 else pos + 1;  // (pos + 1) % USE_RATIO_PN
      history := history + [isSet];
      if !test && isSet { weight := weight + 1; }
      if test && !isSet { weight := weight - 1; }
      return weight;
    }

    /** ur_weight */
    method Weight() returns (w: int)
      requires Valid()
      ensures w == Count(Window(history, bitmap.Length))
    {
      RingCountsWindow(history, bitmap.Length);
      w := weight;
    }
  }
}
