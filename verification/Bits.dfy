/** Bitwise operations of `uint64_t`, on the natural numbers that represent its values. */
module Bits {

  type Uint64 = x: nat | x < 0x1_0000_0000_0000_0000

  function Pow2(k: nat): (p: nat)
    ensures p >= 1
  {
    if k == 0 then 1 else 2 * Pow2(k - 1)
  }

  /** `a << k`: what is shifted out at the top is lost. */
  function Shl(a: nat, k: nat): Uint64 {
    (a * Pow2(k)) % 0x1_0000_0000_0000_0000
  }

  /** `a >> k`, bit by bit. */
  function Shr(a: nat, k: nat): nat {
    if k == 0 then a else Shr(a / 2, k - 1)
  }

  /** `a | b`, bit by bit. */
  function Or(a: nat, b: nat): nat {
    if a == 0 && b == 0 then 0
    else (if a % 2 == 1 || b % 2 == 1 then 1 else 0) + 2 * Or(a / 2, b / 2)
  }

  /** `a & b`, bit by bit. */
  function And(a: nat, b: nat): nat {
    if a == 0 || b == 0 then 0
    else (if a % 2 == 1 && b % 2 == 1 then 1 else 0) + 2 * And(a / 2, b / 2)
  }

  lemma {:induction false} OrZero(a: nat)
    ensures Or(a, 0) == a
  {
    if a > 0 {
      OrZero(a / 2);
    }
  }

  /** Operands without a common bit are added. */
  lemma {:induction false} OrAdds(a: nat, b: nat, k: nat)
    requires b < Pow2(k)
    ensures Or(a * Pow2(k), b) == a * Pow2(k) + b
  {
    if k == 0 {
      OrZero(a);
    } else {
      var half := a * Pow2(k - 1);
      assert a * Pow2(k) == 2 * half;
      OrAdds(a, b / 2, k - 1);
    }
  }

  /** Masking with k ones takes the remainder modulo 2^k. */
  lemma {:induction false} AndMask(a: nat, k: nat)
    ensures And(a, Pow2(k) - 1) == a % Pow2(k)
  {
    if k > 0 {
      var m := Pow2(k - 1);
      assert (Pow2(k) - 1) / 2 == m - 1;
      AndMask(a / 2, k - 1);
      ModDouble(a, m);
    }
  }

  /** Shifting right by k divides by 2^k. */
  lemma {:induction false} ShrDivides(a: nat, k: nat)
    ensures Shr(a, k) == a / Pow2(k)
  {
    if k > 0 {
      ShrDivides(a / 2, k - 1);
      ModDouble(a, Pow2(k - 1));
    }
  }

  lemma ModDouble(a: nat, m: nat)
    requires m >= 1
    ensures a % (2 * m) == a % 2 + 2 * ((a / 2) % m)
    ensures a / (2 * m) == (a / 2) / m
  {
    var q, r := (a / 2) / m, (a / 2) % m;
    assert a == 2 * (q * m + r) + a % 2;
    assert 2 * (q * m) == q * (2 * m);
    ModUnique(a, 2 * m, q, 2 * r + a % 2);
  }

  lemma ModUnique(a: nat, d: nat, q: nat, r: nat)
    requires a == q * d + r && r < d
    ensures a % d == r && a / d == q
  {
    var q', r' := a / d, a % d;
    assert a == q' * d + r';
    if q < q' {
      AtLeastOnce(q', q, d);
    } else if q' < q {
      AtLeastOnce(q, q', d);
    }
  }

  lemma AtLeastOnce(a: nat, b: nat, d: nat)
    requires b < a
    ensures b * d + d <= a * d
  {
    assert a * d == b * d + (a - b) * d;
    assert (a - b) * d == (a - b - 1) * d + d;
  }

  /** The same two facts with the powers of two spelled out. */
  lemma ShlExact(a: nat, k: nat, p: nat)
    requires Pow2(k) == p && a * p < 0x1_0000_0000_0000_0000
    ensures Shl(a, k) == a * p
  {
  }

  lemma OrSum(x: nat, b: nat, a: nat, k: nat, p: nat)
    requires Pow2(k) == p && x == a * p && b < p
    ensures Or(x, b) == x + b
  {
    OrAdds(a, b, k);
  }
}
