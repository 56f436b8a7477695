/** Bitwise operations on naturals, digit by digit. */
module Bits {

  /** A product under a name of its own, so that proofs can hide it. */
  function Product(a: int, b: int): int {
    a * b
  }

  function Pow2(k: nat): (p: nat)
    ensures p >= 1
  {
    if k == 0 then 1 else 2 * Pow2(k - 1)
  }

  /** x >> k */
  function Shr(x: nat, k: nat): nat {
    DivNonNegative(x, Pow2(k));
    x / Pow2(k)
  }

  lemma DivNonNegative(x: int, p: int)
    requires 0 <= x && 0 < p
    ensures 0 <= x / p
  {
  }

  function Or(x: nat, y: nat): nat {
    if x == 0 && y == 0 then 0
    else
      2 * Or(x / 2, y / 2) + (if x % 2 == 1 || y % 2 == 1 then 1 else 0)
  }

  lemma HalfScaled(hi: nat, k: nat)
    requires k > 0
    ensures (hi * Pow2(k)) / 2 == hi * Pow2(k - 1) && (hi * Pow2(k)) % 2 == 0
  {
    assert hi * Pow2(k) == 2 * (hi * Pow2(k - 1));
  }

  lemma {:induction false} OrZero(x: nat)
    ensures Or(0, x) == x
  {
    if x > 0 {
      OrZero(x / 2);
    }
  }

  /** Operands that share no bits: or is addition. */
  lemma {:induction false} OrDisjoint(lo: nat, hi: nat, k: nat)
    requires lo < Pow2(k)
    ensures Or(lo, hi * Pow2(k)) == lo + hi * Pow2(k)
  {
    if k == 0 {
      OrZero(hi * Pow2(k));
    } else {
      HalfScaled(hi, k);
      OrDisjoint(lo / 2, hi, k - 1);
    }
  }

  function And(x: nat, y: nat): nat {
    if x == 0 || y == 0 then 0
    else
      2 * And(x / 2, y / 2) + (if x % 2 == 1 && y % 2 == 1 then 1 else 0)
  }

  /** Digit i of a number in binary. */
  predicate Bit(x: nat, i: nat) {
    if i == 0 then x % 2 == 1 else Bit(x / 2, i - 1)
  }

  /** And works digit by digit. */
  lemma {:induction false} AndBits(x: nat, y: nat, i: nat)
    ensures Bit(And(x, y), i) <==> Bit(x, i) && Bit(y, i)
  {
    AndHalves(x, y);
    hide And;
    if i > 0 {
      AndBits(x / 2, y / 2, i - 1);
    }
  }

  lemma AndHalves(x: nat, y: nat)
    ensures And(x, y) / 2 == And(x / 2, y / 2) && (And(x, y) % 2 == 1 <==> x % 2 == 1 && y % 2 == 1)
  {
  }

  /** Or works digit by digit. */
  lemma {:induction false} OrBits(x: nat, y: nat, i: nat)
    ensures Bit(Or(x, y), i) <==> Bit(x, i) || Bit(y, i)
  {
    OrHalves(x, y);
    hide Or;
    if i > 0 {
      OrBits(x / 2, y / 2, i - 1);
    }
  }

  lemma OrHalves(x: nat, y: nat)
    ensures Or(x, y) / 2 == Or(x / 2, y / 2) && (Or(x, y) % 2 == 1 <==> x % 2 == 1 || y % 2 == 1)
  {
  }

  /** Quotient and remainder are determined by the division equation. */
  lemma DivUnique(x: int, p: int, q: int, r: int)
    requires p > 0 && x == p * q + r && 0 <= r < p
    ensures x / p == q && x % p == r
  {
    assert x == p * (x / p) + x % p;
    assert p * (q - x / p) == p * q - p * (x / p);
    SmallMultiple(p, q - x / p);
  }

  lemma SmallMultiple(p: int, d: int)
    requires -p < p * d < p
    ensures d == 0
  {
  }

  lemma DivShift(x: int, p: int, t: int)
    requires p > 0
    ensures (x + p * t) / p == x / p + t && (x + p * t) % p == x % p
  {
    assert x == p * (x / p) + x % p;
    assert p * (x / p + t) == p * (x / p) + p * t;
    DivUnique(x + p * t, p, x / p + t, x % p);
  }

  lemma ModScale(p: int, q: int, h: int)
    requires p > 0 && q > 0
    ensures p * q > 0 && (p * h) % (p * q) == p * (h % q) && (p * h) / (p * q) == h / q
  {
    assert h == q * (h / q) + h % q;
    assert p * (q * (h / q) + h % q) == (p * q) * (h / q) + p * (h % q);
    assert 0 <= p * (h % q) < p * q;
    DivUnique(p * h, p * q, h / q, p * (h % q));
  }

  lemma TwoStepDivision(x: int, p: int, q: int, a: int, r1: int, b: int, r2: int)
    requires x == p * a + r1 && 0 <= r1 < p && a == q * b + r2 && 0 <= r2 < q
    ensures x == (p * q) * b + (p * r2 + r1) && 0 <= p * r2 + r1 < p * q
  {
    assert p * (q * b + r2) == (p * q) * b + p * r2;
    assert p * r2 <= p * (q - 1);
    assert p * (q - 1) == p * q - p;
  }

  lemma DivDiv(x: int, p: int, q: int)
    requires p > 0 && q > 0
    ensures p * q > 0 && x / (p * q) == (x / p) / q
  {
    var a := x / p;
    TwoStepDivision(x, p, q, a, x % p, a / q, a % q);
    DivUnique(x, p * q, a / q, p * (a % q) + x % p);
  }

  lemma {:induction false} Pow2Add(i: nat, j: nat)
    ensures Pow2(i) * Pow2(j) == Pow2(i + j)
  {
    if i > 0 {
      Pow2Add(i - 1, j);
      assert (2 * Pow2(i - 1)) * Pow2(j) == 2 * (Pow2(i - 1) * Pow2(j));
    }
  }

  lemma {:induction false} Pow2Monotone(i: nat, j: nat)
    requires i <= j
    ensures Pow2(i) <= Pow2(j)
  {
    if i < j {
      Pow2Monotone(i, j - 1);
    }
  }

  lemma AndStep(x: nat, p: nat)
    requires x > 0 && p > 0
    ensures And(x, 2 * p - 1) == 2 * And(x / 2, p - 1) + x % 2
  {
    assert (2 * p - 1) / 2 == p - 1 && (2 * p - 1) % 2 == 1;
  }

  /** Masking with k ones is the remainder modulo 2^k. */
  lemma {:induction false} AndMask(x: nat, k: nat)
    ensures And(x, Pow2(k) - 1) == x % Pow2(k)
  {
    if k == 0 || x == 0 {
      DivUnique(x, Pow2(k), if k == 0 then x else 0, 0);
    } else {
      AndMask(x / 2, k - 1);
      MaskStep(x, Pow2(k - 1));
    }
  }

  lemma MaskStep(x: nat, p: nat)
    requires x > 0 && p > 0 && And(x / 2, p - 1) == (x / 2) % p
    ensures And(x, 2 * p - 1) == x % (2 * p)
  {
    AndStep(x, p);
    HalfMod(x, p);
    hide And;
  }

  lemma HalfMod(x: nat, p: nat)
    requires p > 0
    ensures x % (2 * p) == 2 * ((x / 2) % p) + x % 2
  {
    var h := x / 2;
    assert h == p * (h / p) + h % p;
    assert (2 * p) * (h / p) == 2 * (p * (h / p));
    DivUnique(x, 2 * p, h / p, 2 * (h % p) + x % 2);
  }

  lemma ShiftTwice(x: nat, i: nat, j: nat)
    ensures Shr(x, i + j) == Shr(Shr(x, i), j)
  {
    Pow2Add(i, j);
    DivDiv(x, Pow2(i), Pow2(j));
  }

  /** The exponent of the smallest power of two that is at least n. */
  function CeilLog2(n: nat): (e: nat)
    ensures n <= Pow2(e) && (e == 0 || Pow2(e - 1) < n)
  {
    CeilLog2From(n, 0)
  }

  function CeilLog2From(n: nat, k: nat): (e: nat)
    requires k == 0 || Pow2(k - 1) < n
    ensures n <= Pow2(e) && (e == 0 || Pow2(e - 1) < n)
    decreases n - Pow2(k)
  {
    if n <= Pow2(k) then k else CeilLog2From(n, k + 1)
  }

  lemma CeilLog2Unique(n: nat, k: nat)
    requires n <= Pow2(k) && (k == 0 || Pow2(k - 1) < n)
    ensures CeilLog2(n) == k
  {
    var e := CeilLog2(n);
    hide CeilLog2, Pow2;
    if e < k {
      Pow2Monotone(e, k - 1);
    } else if k < e {
      Pow2Monotone(k, e - 1);
    }
  }
}
