/** Right shifts of natural numbers, and the powers of two they divide by. */
module Shift {

  /** `u >> k`. */
  function Shr(u: nat, k: nat): nat {
    if k == 0 then u else Shr(u / 2, k - 1)
  }

  /** `1 << k`. */
  function Pow2(k: nat): (p: nat)
    ensures p >= 1
  {
    if k == 0 then 1 else 2 * Pow2(k - 1)
  }

  /** The number of bits of `n`: the least `k` with `n >> k == 0`. */
  function BitLength(n: nat): nat {
    if n == 0 then 0 else 1 + BitLength(n / 2)
  }

  lemma {:induction false} ShrAdd(u: nat, a: nat, b: nat)
    ensures Shr(u, a + b) == Shr(Shr(u, a), b)
  {
    if a > 0 {
      ShrAdd(u / 2, a - 1, b);
    }
  }

  lemma ShrStep(u: nat, k: nat)
    ensures Shr(u, k + 1) == Shr(u, k) / 2
  {
    ShrAdd(u, k, 1);
    assert Shr(Shr(u, k), 1) == Shr(Shr(u, k) / 2, 0);
  }

  lemma {:induction false} ShrMonotone(u: nat, v: nat, k: nat)
    requires u <= v
    ensures Shr(u, k) <= Shr(v, k)
  {
    if k > 0 {
      ShrMonotone(u / 2, v / 2, k - 1);
    }
  }

  lemma {:induction false} ShrPositive(n: nat, k: nat)
    ensures Shr(n, k) > 0 <==> k < BitLength(n)
  {
    if k > 0 {
      ShrPositive(n / 2, k - 1);
    }
  }

  /** At its top bit, a number shifts down to one. */
  lemma {:induction false} ShrTop(n: nat)
    requires n > 0
    ensures Shr(n, BitLength(n) - 1) == 1
  {
    if n >= 2 {
      ShrTop(n / 2);
    }
  }

  /** `u >> k == o` says exactly that `u` lies in the `o`-th aligned run of `2^k` numbers. */
  lemma {:induction false} ShrRange(u: nat, k: nat, o: nat)
    ensures Shr(u, k) == o <==> o * Pow2(k) <= u < (o + 1) * Pow2(k)
  {
    if k > 0 {
      ShrRange(u / 2, k - 1, o);
      var p := Pow2(k - 1);
      assert o * Pow2(k) == 2 * (o * p);
      assert (o + 1) * Pow2(k) == 2 * ((o + 1) * p);
    }
  }
}
