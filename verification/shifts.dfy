/** Shifts of machine words, which do all page arithmetic of the allocator. */
module Shifts {
  /** `x << n` */
  function Shl(x: nat, n: nat): nat {
    if n == 0 then x else 2 * Shl(x, n - 1)
  }

  /** `x >> n` */
  function Shr(x: nat, n: nat): nat {
    if n == 0 then x else Shr(x, n - 1) / 2
  }

  /** `x & ((1 << n) - 1)` */
  function LowBits(x: nat, n: nat): int {
    x - Shl(Shr(x, n), n)
  }

  lemma {:induction false} ShlAdd(x: nat, y: nat, n: nat)
    ensures Shl(x + y, n) == Shl(x, n) + Shl(y, n)
  {
    if n > 0 { ShlAdd(x, y, n - 1); }
  }

  lemma {:induction false} ShlTimes(x: nat, n: nat)
    ensures Shl(x, n) == x * Shl(1, n)
  {
    if n > 0 { ShlTimes(x, n - 1); }
  }

  lemma {:induction false} ShlMono(x: nat, y: nat, n: nat)
    ensures x <= y ==> Shl(x, n) <= Shl(y, n)
    ensures x < y ==> Shl(x, n) + Shl(1, n) <= Shl(y, n)
    ensures Shl(1, n) > 0
  {
    if n > 0 { ShlMono(x, y, n - 1); }
  }

  lemma {:induction false} ShlZero(n: nat)
    ensures Shl(0, n) == 0
  {
    if n > 0 { ShlZero(n - 1); }
  }

  lemma {:induction false} ShrZero(n: nat)
    ensures Shr(0, n) == 0
  {
    if n > 0 { ShrZero(n - 1); }
  }

  /** Shifting down and up again loses the low bits, less than one unit. */
  lemma {:induction false} ShrShl(x: nat, n: nat)
    ensures Shl(Shr(x, n), n) <= x < Shl(Shr(x, n), n) + Shl(1, n)
  {
    if n > 0 {
      var y := Shr(x, n - 1);
      ShrShl(x, n - 1);
      ShlAdd(y / 2, y / 2, n - 1);
      ShlAdd(2 * (y / 2), y % 2, n - 1);
      ShlMono(y % 2, 1, n - 1);
      ShlAdd(1, 1, n - 1);
    }
  }

  lemma {:induction false} ShrUnique(x: nat, n: nat, q: nat)
    requires Shl(q, n) <= x < Shl(q, n) + Shl(1, n)
    ensures Shr(x, n) == q
  {
    ShrShl(x, n);
    ShlMono(q, Shr(x, n), n);
    ShlMono(Shr(x, n), q, n);
  }

  lemma {:induction false} ShrShlAdd(q: nat, x: nat, n: nat)
    ensures Shr(Shl(q, n) + x, n) == q + Shr(x, n)
  {
    ShrShl(x, n);
    ShlAdd(q, Shr(x, n), n);
    ShrUnique(Shl(q, n) + x, n, q + Shr(x, n));
  }
}
