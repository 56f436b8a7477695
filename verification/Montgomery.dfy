/** The 64-bit CIOS Montgomery multiplication for the BN254 scalar field. */
module Montgomery {
  import Bits
  import opened Limbs

  const B: nat := 0x1_0000_0000_0000_0000

  type u64 = x: int | 0 <= x < 0x1_0000_0000_0000_0000
  type u128 = x: int | 0 <= x < 0x1_0000_0000_0000_0000_0000_0000_0000_0000

  const MODULUS: seq<u64> := [0x43e1f593f0000001, 0x2833e84879b97091, 0xb85045b68181585d, 0x30644e72e131a029]

  const INV: u64 := 0xc2e1f593efffffff

  /** The modulus as a number. */
  const P: nat := 0x30644e72e131a029_b85045b68181585d_2833e84879b97091_43e1f593f0000001

  /** The Montgomery radix 2^256. */
  const R: nat := 0x1_0000000000000000_0000000000000000_0000000000000000_0000000000000000

  /** The inverse of R modulo p. */
  const R_INVERSE: nat := 0x15ebf95182c5551cc8260de4aeb85d5d090ef5a9e111ec87dc5ba0056db1194e

  function Value(s: seq<u64>): int
    requires |s| == 4
  {
    Sum(s, B, 4)
  }

  lemma Constants()
    ensures Value(MODULUS) == P && Pow(B, 4) == R && 2 * P < R
    ensures (MODULUS[0] * INV + 1) % B == 0
    ensures (R * R_INVERSE - 1) % P == 0
  {
    assert Pow(B, 1) == B && Pow(B, 2) == B * B && Pow(B, 3) == B * B * B && Pow(B, 4) == R;
    assert Sum(MODULUS, B, 1) == MODULUS[0];
    assert Sum(MODULUS, B, 2) == MODULUS[0] + MODULUS[1] * B;
    assert Sum(MODULUS, B, 3) == MODULUS[0] + MODULUS[1] * B + MODULUS[2] * (B * B);
  }

  /** r is the Montgomery product: reduced, and r * 2^256 is congruent to a * b. */
  ghost predicate IsMontgomeryProduct(r: int, a: int, b: int) {
    0 <= r < P && (r * R - a * b) % P == 0
  }

  /** One 128-bit temporary, x * y + c + d, split into its two 64-bit halves. */
  method Wide(x: u64, y: u64, c: u64, d: u64) returns (lo: u64, hi: u64)
    ensures x * y + c + d == lo + B * hi
  {
    TwoDigits(x, y, c, d, B);
    var tmp: u128 := x * y + c + d;
    lo, hi := tmp % B, tmp / B;
  }

  /** One pass of the outer loop: r := (r + a * bi + k * p) / 2^64, without overflow anywhere. */
  method Row(r: array<u64>, a: seq<u64>, bi: u64) returns (ghost k: int)
    requires r.Length == 4 && |a| == 4 && Value(a) < P && Value(r[..]) < Value(a) + P
    modifies r
    ensures 0 <= k < B
    ensures Value(r[..]) * B == Value(old(r[..])) + Value(a) * bi + k * P
    ensures 0 <= Value(r[..]) < Value(a) + P
  {
    hide Sum, Pow;
    ghost var was: seq<int> := r[..];
    var lo: u64, carry1: u64 := Wide(a[0], bi, r[0], 0);
    r[0] := lo;
    var kk: u64 := (r[0] * INV) % B;
    k := kk;
    var zero: u64, carry2: u64 := Wide(kk, MODULUS[0], r[0], 0);
    FirstLimb(was, a, bi, kk, r[0], carry1, zero, carry2);
    NoLimbsYet(r[..], B);
    var j := 1;
    while j < 4
      invariant 1 <= j <= 4
      invariant forall i | j <= i < 4 :: r[i] == was[i]
      invariant B * Sum(r[..], B, j - 1) + (carry1 + carry2) * Pow(B, j)
                == Sum(was, B, j) + bi * Sum(a, B, j) + kk * Sum(MODULUS, B, j)
    {
      ghost var before: seq<int> := r[..];
      ghost var c1, c2 := carry1, carry2;
      lo, carry1 := Wide(a[j], bi, r[j], carry1);
      r[j] := lo;
      var out: u64, hi: u64 := Wide(kk, MODULUS[j], r[j], carry2);
      r[j - 1], carry2 := out, hi;
      assert r[..] == before[j := lo][j - 1 := out];
      RowAdvance(was, before, a, MODULUS, B, j, bi, kk, c1, c2, lo, carry1, out, carry2);
      j := j + 1;
    }
    ghost var rest: seq<int> := r[..];
    TopCarry(rest, was, a, bi, kk, carry1 + carry2);
    r[3] := carry1 + carry2;
    SumFrame(rest, r[..], B, 3);
    SumNext(r[..], B, 3);
  }

  /** The reduction digit makes limb 0 vanish, so only the two carries remain of it. */
  lemma FirstLimb(was: seq<int>, a: seq<u64>, bi: u64, k: u64, lo: u64, carry1: u64, zero: u64, carry2: u64)
    requires |was| == |a| == 4 && k == (lo * INV) % B
    requires was[0] + a[0] * bi == lo + B * carry1 && lo + k * MODULUS[0] == zero + B * carry2
    ensures B * 0 + (carry1 + carry2) * Pow(B, 1) == Sum(was, B, 1) + bi * Sum(a, B, 1) + k * Sum(MODULUS, B, 1)
  {
    hide Sum, Pow;
    LowLimbVanishes(lo, k);
    LowHalf(zero, carry2, B);
    OneLimb(was, B);
    OneLimb(a, B);
    OneLimb(MODULUS, B);
  }

  lemma LowLimbVanishes(lo: u64, k: u64)
    requires k == (lo * INV) % B
    ensures (lo + k * MODULUS[0]) % B == 0
  {
    hide Sum, Pow;
    Constants();
    DigitVanishes(lo, MODULUS[0], INV, B);
  }

  /** The folded top carry is one limb, because the value stays below a + p. */
  lemma TopCarry(rest: seq<int>, was: seq<int>, a: seq<u64>, bi: u64, k: u64, carry: int)
    requires |rest| == |was| == |a| == 4 && Digits(rest, B) && Digits(was, B)
    requires Value(a) < P && Sum(was, B, 4) < Value(a) + P && carry >= 0
    requires B * Sum(rest, B, 3) + carry * Pow(B, 4) == Sum(was, B, 4) + bi * Sum(a, B, 4) + k * Sum(MODULUS, B, 4)
    ensures carry < B
    ensures
      var next := Sum(rest, B, 3) + carry * Pow(B, 3);
      next * B == Sum(was, B, 4) + Value(a) * bi + k * P && 0 <= next < Value(a) + P
  {
    Constants();
    SumBound(was, B, 4);
    SumBound(rest, B, 3);
    SumBound(a, B, 4);
    CarryFits(B, Sum(rest, B, 3), carry, Pow(B, 3), Pow(B, 4), Sum(was, B, 4), Value(a), bi, k, P);
  }

  /** Subtracting the modulus with a borrow: the borrow tells whether r was below p. */
  method SubtractModulus(r: seq<u64>) returns (tmp: array<u64>, borrow: int)
    requires |r| == 4
    ensures fresh(tmp) && tmp.Length == 4 && 0 <= borrow <= 1
    ensures Value(tmp[..]) == Value(r) - P + borrow * R
    ensures borrow == 1 <==> Value(r) < P
  {
    hide Sum, Pow;
    tmp := new u64[4](_ => 0);
    borrow := 0;
    NoLimbsYet(r, B);
    NoLimbsYet(MODULUS, B);
    NoLimbsYet(tmp[..], B);
    var i := 0;
    while i < 4
      invariant 0 <= i <= 4 && 0 <= borrow <= 1
      invariant Sum(tmp[..], B, i) - borrow * Pow(B, i) == Sum(r, B, i) - Sum(MODULUS, B, i)
    {
      ghost var before: seq<int> := tmp[..];
      ghost var b := borrow;
      var diff := r[i] - MODULUS[i] - borrow;
      var limb: u64 := diff % B;
      borrow := if diff < 0 then 1 else 0;
      assert diff == limb - borrow * B;
      tmp[i] := limb;
      assert tmp[..] == before[i := limb];
      BorrowLimb(before, r, MODULUS, B, i, limb, b, borrow);
      i := i + 1;
    }
    Constants();
    SumBound(tmp[..], B, 4);
  }

  /** The fallback routine: result := a * b / 2^256 mod p. */
  method MontMul4(a: seq<u64>, b: seq<u64>, result: array<u64>)
    requires |a| == |b| == 4 && result.Length == 4 && Value(a) < P
    modifies result
    ensures IsMontgomeryProduct(Value(result[..]), Value(a), Value(b))
  {
    hide IsMontgomeryProduct;
    var r := new u64[4](_ => 0);
    ghost var kSum := 0;
    Constants();
    assert Value(r[..]) == 0 by { SumZero(r[..], B, 4); }
    SumBound(a, B, 4);
    var i := 0;
    while i < 4
      invariant 0 <= i <= 4 && fresh(r)
      invariant 0 <= Value(r[..]) < Value(a) + P
      invariant Value(r[..]) * Pow(B, i) == Value(a) * Sum(b, B, i) + kSum * P
    {
      ghost var v := Value(r[..]);
      ghost var k := Row(r, a, b[i]);
      OuterStep(B, Pow(B, i), v, Value(r[..]), Value(a), Sum(b, B, i), b[i], kSum, k, P);
      kSum := kSum + k * Pow(B, i);
      i := i + 1;
    }
    var tmp, borrow := SubtractModulus(r[..]);
    Reduced(Value(r[..]), Value(tmp[..]), borrow, Value(a), Value(b), kSum);
    var chosen := if borrow == 0 then tmp[..] else r[..];
    forall j | 0 <= j < 4 {
      result[j] := chosen[j];
    }
    assert result[..] == chosen;
  }

  /** The conditional subtraction picks the reduced representative. */
  lemma Reduced(v: int, t: int, borrow: int, a: int, b: int, k: int)
    requires v * R == a * b + k * P && 0 <= v < 2 * P
    requires t == v - P + borrow * R && (borrow == 0 || borrow == 1) && (borrow == 1 <==> v < P)
    ensures IsMontgomeryProduct(if borrow == 0 then t else v, a, b)
  {
    ExactMultiple(v, a, b, k);
    assert (v - P) * R == v * R - P * R;
    assert (k - R) * P == k * P - R * P;
    ExactMultiple(v - P, a, b, k - R);
  }

  lemma ExactMultiple(v: int, a: int, b: int, k: int)
    requires v * R == a * b + k * P
    ensures (v * R - a * b) % P == 0
  {
    MultipleIsZero(P, k);
  }

  /** There is only one Montgomery product. */
  lemma MontgomeryProductUnique(r: int, s: int, a: int, b: int)
    requires IsMontgomeryProduct(r, a, b) && IsMontgomeryProduct(s, a, b)
    ensures r == s
  {
    var j, k := (r * R - a * b) / P, (s * R - a * b) / P;
    assert r * R - a * b == P * j && s * R - a * b == P * k;
    var inverse, m := R_INVERSE, (R * R_INVERSE - 1) / P;
    Constants();
    assert R * inverse == 1 + P * m;
    UniqueArithmetic(r - s, R, inverse, j - k, m, P);
    Bits.SmallMultiple(P, (j - k) * inverse - (r - s) * m);
  }

  lemma UniqueArithmetic(d: int, radix: int, inverse: int, j: int, m: int, p: int)
    requires d * radix == p * j && radix * inverse == 1 + p * m
    ensures d == (j * inverse - d * m) * p
  {
    assert (d * radix) * inverse == d * (radix * inverse);
    assert d * (1 + p * m) == d + (d * m) * p;
    assert (p * j) * inverse == (j * inverse) * p;
    assert (j * inverse - d * m) * p == (j * inverse) * p - (d * m) * p;
  }
}
