/** Bitwise and of unsigned numbers, and what masking with a power of two less one gives. */
module Bits {
  import Arithmetic

  function And(a: nat, b: nat): (r: nat)
    ensures r <= b
    decreases b
  {
    if b == 0 then 0 else 2 * And(a / 2, b / 2) + (if a % 2 == 1 && b % 2 == 1 then 1 else 0)
  }

  function Pow2(k: nat): (p: nat)
    ensures p > 0
  {
    if k == 0 then 1 else 2 * Pow2(k - 1)
  }

  lemma AndOdd(a: nat, p: nat)
    requires p > 0
    ensures And(a, 2 * p - 1) == 2 * And(a / 2, p - 1) + a % 2
  {
    var mask := 2 * p - 1;
    assert mask / 2 == p - 1 && mask % 2 == 1;
  }

  lemma DoubleQuotient(a: nat, p: nat, q: nat, m: nat)
    requires a / 2 == p * q + m
    ensures a == (2 * p) * q + (2 * m + a % 2)
  {
    assert (2 * p) * q == 2 * (p * q);
  }

  lemma MaskDoubles(a: nat, p: nat, q: nat)
    requires p > 0 && a / 2 == p * q + And(a / 2, p - 1)
    ensures a == (2 * p) * q + And(a, 2 * p - 1)
  {
    AndOdd(a, p);
    DoubleQuotient(a, p, q, And(a / 2, p - 1));
  }

  /** Masking with 2^k - 1 takes a multiple of 2^k off. */
  lemma {:induction false} MaskQuotient(a: nat, k: nat) returns (q: nat)
    ensures a == Pow2(k) * q + And(a, Pow2(k) - 1)
  {
    if k == 0 {
      q := a;
    } else {
      q := MaskQuotient(a / 2, k - 1);
      MaskDoubles(a, Pow2(k - 1), q);
    }
  }

  lemma MaskIsRemainder(a: nat, k: nat)
    ensures And(a, Pow2(k) - 1) == a % Pow2(k)
  {
    var q := MaskQuotient(a, k);
    Arithmetic.DivisionUnique(a, Pow2(k), q, And(a, Pow2(k) - 1));
  }
}
