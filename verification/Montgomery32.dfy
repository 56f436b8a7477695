/** The 32-bit-word Montgomery multiplication that mirrors the GPU shader. */
module Montgomery32 {
  import opened Prelude
  import opened Limbs
  import opened Montgomery
  import Bits

  const MODULUS_32: seq<u32> := [
    0xf0000001, 0x43e1f593, 0x79b97091, 0x2833e848, 0x8181585d, 0xb85045b6, 0xe131a029, 0x30644e72]

  const INV_32: u32 := 0xefffffff

  lemma Constants32()
    ensures Sum(MODULUS_32, W, 8) == P && Pow(W, 8) == R && (MODULUS_32[0] * INV_32 + 1) % W == 0
  {
    assert Pow(W, 1) == W && Pow(W, 2) == B && Pow(W, 3) == B * W && Pow(W, 4) == B * B;
    assert Pow(W, 5) == B * B * W && Pow(W, 6) == B * B * B && Pow(W, 7) == B * B * B * W && Pow(W, 8) == R;
    assert Sum(MODULUS_32, W, 1) == MODULUS_32[0];
    assert Sum(MODULUS_32, W, 2) == MODULUS_32[0] + MODULUS_32[1] * W;
    assert Sum(MODULUS_32, W, 3) == Sum(MODULUS_32, W, 2) + MODULUS_32[2] * B;
    assert Sum(MODULUS_32, W, 4) == Sum(MODULUS_32, W, 3) + MODULUS_32[3] * (B * W);
    assert Sum(MODULUS_32, W, 5) == Sum(MODULUS_32, W, 4) + MODULUS_32[4] * (B * B);
    assert Sum(MODULUS_32, W, 6) == Sum(MODULUS_32, W, 5) + MODULUS_32[5] * (B * B * W);
    assert Sum(MODULUS_32, W, 7) == Sum(MODULUS_32, W, 6) + MODULUS_32[6] * (B * B * B);
  }

  lemma {:induction false} PowHalves(k: nat)
    ensures Pow(W, 2 * k) == Pow(B, k)
  {
    if k > 0 {
      PowHalves(k - 1);
      assert Pow(W, 2 * k) == Pow(W, 2 * k - 2) * W * W;
      assert Pow(W, 2 * k - 2) * W * W == Pow(W, 2 * k - 2) * B;
    }
  }

  /** Splitting every 64-bit limb in two keeps the value. */
  lemma {:induction false} SplitKeepsValue(wide: seq<u64>, narrow: seq<int>, k: nat)
    requires k <= |wide| && 2 * k <= |narrow|
    requires forall i | 0 <= i < k :: wide[i] == narrow[2 * i] + narrow[2 * i + 1] * W
    ensures Sum(narrow, W, 2 * k) == Sum(wide, B, k)
  {
    if k > 0 {
      SplitKeepsValue(wide, narrow, k - 1);
      PowHalves(k - 1);
      var p, lo, hi := Pow(B, k - 1), narrow[2 * k - 2], narrow[2 * k - 1];
      SumNext(narrow, W, 2 * k - 2);
      SumNext(narrow, W, 2 * k - 1);
      assert hi * (p * W) == (hi * W) * p;
      assert (lo + hi * W) * p == lo * p + (hi * W) * p;
    }
  }

  /** GpuFp256::from_u64_limbs, also the input conversion of the multiplication. */
  method FromU64Limbs(limbs: seq<u64>) returns (a: seq<u32>)
    requires |limbs| == 4
    ensures |a| == 8 && Sum(a, W, 8) == Value(limbs)
  {
    a := [];
    var i := 0;
    while i < 4
      invariant 0 <= i <= 4 && |a| == 2 * i
      invariant forall k | 0 <= k < i :: limbs[k] == a[2 * k] + a[2 * k + 1] * W
    {
      var lo: u32, hi: u32 := limbs[i] % W, limbs[i] / W;
      a := a + [lo, hi];
      i := i + 1;
    }
    SplitKeepsValue(limbs, a, 4);
  }

  /** GpuFp256::to_u64_limbs: adjacent words joined by a shift and an or. */
  method ToU64Limbs(a: seq<u32>) returns (limbs: seq<u64>)
    requires |a| == 8
    ensures |limbs| == 4 && Value(limbs) == Sum(a, W, 8)
  {
    limbs := [];
    assert Bits.Pow2(32) == W by { Shift32(); }
    var i := 0;
    while i < 4
      invariant 0 <= i <= 4 && |limbs| == i
      invariant forall k | 0 <= k < i :: limbs[k] == a[2 * k] + a[2 * k + 1] * W
    {
      Bits.OrDisjoint(a[2 * i], a[2 * i + 1], 32);
      var joined: u64 := Bits.Or(a[2 * i], a[2 * i + 1] * Bits.Pow2(32));
      limbs := limbs + [joined];
      i := i + 1;
    }
    SplitKeepsValue(limbs, a, 4);
  }

  lemma Shift32()
    ensures Bits.Pow2(32) == W
  {
    assert Bits.Pow2(8) == 256;
    assert Bits.Pow2(16) == 65536;
    assert Bits.Pow2(24) == 0x1_00_0000;
  }

  /** One 64-bit temporary, x * y + c + d, split into its two words. */
  method Wide32(x: u32, y: u32, c: u32, d: u32) returns (lo: u32, hi: u32)
    ensures x * y + c + d == lo + W * hi
  {
    TwoDigits(x, y, c, d, W);
    var uv: u64 := x * y + c + d;
    lo, hi := uv % W, uv / W;
  }

  /** t += x * y * 2^(32 i), up to the carry left at word i + 8. */
  method MultiplyAddRow(t: array<u32>, i: nat, x: u32, y: seq<u32>) returns (carry: u32)
    requires t.Length == 16 && i < 8 && |y| == 8
    modifies t
    ensures Sum(t[..], W, 16) + carry * Pow(W, i + 8) == Sum(old(t[..]), W, 16) + x * (Sum(y, W, 8) * Pow(W, i))
    ensures forall k | 0 <= k < 16 && (k < i || i + 8 <= k) :: t[k] == old(t[k])
    ensures t[i] == (x * y[0] + old(t[i])) % W
  {
    ghost var was: seq<int> := t[..];
    carry := 0;
    assert Sum(y, W, 0) == 0;
    hide Sum, Pow;
    var j := 0;
    while j < 8
      invariant 0 <= j <= 8
      invariant forall k | 0 <= k < 16 && (k < i || i + j <= k) :: t[k] == was[k]
      invariant j == 0 ==> carry == 0
      invariant j > 0 ==> t[i] == (x * y[0] + was[i]) % W
      invariant Sum(t[..], W, 16) + carry * Pow(W, i + j) == Sum(was, W, 16) + x * (Sum(y, W, j) * Pow(W, i))
    {
      ghost var before: seq<int> := t[..];
      var lo: u32, hi: u32 := Wide32(x, y[j], t[i + j], carry);
      LowHalf(lo, hi, W);
      RowLimb(was, before, y, W, 16, i, j, x, carry, lo, hi);
      t[i + j] := lo;
      assert t[..] == before[i + j := lo];
      carry := hi;
      j := j + 1;
    }
  }

  /** Adds one at word `from`, rippling through words that wrap to zero. */
  method RippleOnes(t: array<u32>, from: nat) returns (ghost lost: nat)
    requires t.Length == 16 && from <= 16
    modifies t
    ensures Sum(t[..], W, 16) + lost * Pow(W, 16) == Sum(old(t[..]), W, 16) + Pow(W, from)
    ensures forall k | 0 <= k < from :: t[k] == old(t[k])
  {
    hide Sum, Pow;
    ghost var was: seq<int> := t[..];
    ghost var total := Sum(was, W, 16) + Pow(W, from);
    var k := from;
    while k < 16
      invariant from <= k <= 16
      invariant Sum(t[..], W, 16) + 1 * Pow(W, k) == total
      invariant forall i | 0 <= i < from :: t[i] == was[i]
    {
      ghost var before: seq<int> := t[..];
      var sum: u32 := (t[k] + 1) % W;
      CarryLimb(before, W, 16, k, total, 1, sum, if sum != 0 then 0 else 1);
      t[k] := sum;
      assert t[..] == before[k := sum];
      if t[k] != 0 {
        return 0;
      }
      k := k + 1;
    }
    lost := 1;
  }

  /** The schoolbook tail: a wrapping addition at word `at`, then a ripple of ones. */
  method RippleCarry(t: array<u32>, at: nat, carry: u32) returns (ghost lost: nat)
    requires t.Length == 16 && at < 16
    modifies t
    ensures Sum(t[..], W, 16) + lost * Pow(W, 16) == Sum(old(t[..]), W, 16) + carry * Pow(W, at)
    ensures forall k | 0 <= k < at :: t[k] == old(t[k])
  {
    hide Sum, Pow;
    ghost var was: seq<int> := t[..];
    var sum: u32 := (t[at] + carry) % W;
    CarryLimb(was, W, 16, at, Sum(was, W, 16) + carry * Pow(W, at), carry, sum, if t[at] + carry < W then 0 else 1);
    t[at] := sum;
    assert t[..] == was[at := sum];
    lost := 0;
    if t[at] < carry {
      lost := RippleOnes(t, at + 1);
    }
  }

  /** The reduction tail: a carry added word by word until it dies out. */
  method PropagateCarry(t: array<u32>, from: nat, c: u32) returns (ghost lost: nat)
    requires t.Length == 16 && from <= 16
    modifies t
    ensures Sum(t[..], W, 16) + lost * Pow(W, 16) == Sum(old(t[..]), W, 16) + c * Pow(W, from)
    ensures forall k | 0 <= k < from :: t[k] == old(t[k])
  {
    hide Sum, Pow;
    ghost var was: seq<int> := t[..];
    ghost var total := Sum(was, W, 16) + c * Pow(W, from);
    var carry: u32, k := c, from;
    while k < 16
      invariant from <= k <= 16
      invariant Sum(t[..], W, 16) + carry * Pow(W, k) == total
      invariant forall i | 0 <= i < from :: t[i] == was[i]
    {
      ghost var before: seq<int> := t[..];
      var s: u64 := t[k] + carry;
      var lo: u32, hi: u32 := s % W, s / W;
      CarryLimb(before, W, 16, k, total, carry, lo, hi);
      t[k] := lo;
      carry := hi;
      assert t[..] == before[k := lo];
      if carry == 0 {
        return 0;
      }
      k := k + 1;
    }
    lost := carry;
  }

  /** The schoolbook product of two 8-word numbers; no carry leaves word 15. */
  method Schoolbook(a: seq<u32>, b: seq<u32>) returns (product: array<u32>)
    requires |a| == |b| == 8
    ensures fresh(product) && product.Length == 16
    ensures Sum(product[..], W, 16) == Sum(a, W, 8) * Sum(b, W, 8)
  {
    hide Sum, Pow, Bits.Product;
    product := new u32[16](_ => 0);
    SumZero(product[..], W, 16);
    NoLimbs(a, b);
    var i := 0;
    while i < 8
      invariant 0 <= i <= 8 && fresh(product)
      invariant Sum(product[..], W, 16) == Bits.Product(Sum(a, W, i), Sum(b, W, 8))
    {
      SchoolbookRow(product, i, a, b);
      i := i + 1;
    }
    AsProduct(Sum(a, W, 8), Sum(b, W, 8));
  }

  lemma AsProduct(x: int, y: int)
    ensures Bits.Product(x, y) == x * y
  {
  }

  lemma NoLimbs(a: seq<u32>, b: seq<u32>)
    requires |a| == |b| == 8
    ensures Bits.Product(Sum(a, W, 0), Sum(b, W, 8)) == 0
  {
  }

  /** One row of the schoolbook product. */
  method SchoolbookRow(product: array<u32>, i: nat, a: seq<u32>, b: seq<u32>)
    requires |a| == |b| == 8 && product.Length == 16 && i < 8
    requires Sum(product[..], W, 16) == Bits.Product(Sum(a, W, i), Sum(b, W, 8))
    modifies product
    ensures Sum(product[..], W, 16) == Bits.Product(Sum(a, W, i + 1), Sum(b, W, 8))
  {
    hide Sum, Pow;
    SchoolbookStep(Pow(W, i), Sum(product[..], W, 16), Sum(a, W, i), a[i], Sum(b, W, 8));
    SumNext(a, W, i);
    var carry: u32 := MultiplyAddRow(product, i, a[i], b);
    ghost var lost := RippleCarry(product, i + 8, carry);
    ProductFits(a, b, product[..], i + 1, lost);
  }

  lemma ProductFits(a: seq<u32>, b: seq<u32>, t: seq<u32>, i: nat, lost: nat)
    requires |a| == |b| == 8 && |t| == 16 && i <= 8
    requires Sum(t, W, 16) + lost * Pow(W, 16) == Sum(a, W, i) * Sum(b, W, 8)
    ensures lost == 0
  {
    hide Sum, Pow;
    SumBound(a, W, i);
    SumBound(b, W, 8);
    SumBound(t, W, 16);
    PowMonotone(W, i, 8);
    PowAdd(W, 8, 8);
    PowPositive(W, 16);
    ProductBelow(Sum(a, W, i), Sum(b, W, 8), Pow(W, 8), Pow(W, 8));
    NothingLost(Sum(t, W, 16), lost, Pow(W, 16));
  }

  /** The word-by-word reduction: adds k * p so that the low eight words vanish. */
  method Reduce(t: array<u32>, ghost a: int, ghost b: int) returns (ghost k: int)
    requires t.Length == 16 && 0 <= a < P && 0 <= b < P && Sum(t[..], W, 16) == a * b
    modifies t
    ensures 0 <= k < R && Sum(t[..], W, 16) == a * b + k * P
    ensures forall j | 0 <= j < 8 :: t[j] == 0
  {
    hide Sum, Pow;
    Constants32();
    PowZero();
    k := 0;
    var i := 0;
    while i < 8
      invariant 0 <= i <= 8 && 0 <= k < Pow(W, i)
      invariant Sum(t[..], W, 16) == a * b + k * P
      invariant forall j | 0 <= j < i :: t[j] == 0
    {
      k := ReduceRow(t, i, a, b, k);
      i := i + 1;
    }
  }

  lemma PowZero()
    ensures Pow(W, 0) == 1
  {
  }

  /** One row of the reduction: word i vanishes, and no carry leaves word 15. */
  method ReduceRow(t: array<u32>, i: nat, ghost a: int, ghost b: int, ghost before: int) returns (ghost k: int)
    requires t.Length == 16 && i < 8 && 0 <= a < P && 0 <= b < P && 0 <= before < Pow(W, i)
    requires Sum(t[..], W, 16) == a * b + before * P && forall j | 0 <= j < i :: t[j] == 0
    modifies t
    ensures 0 <= k < Pow(W, i + 1) && Sum(t[..], W, 16) == a * b + k * P && forall j | 0 <= j <= i :: t[j] == 0
  {
    hide Sum, Pow;
    ghost var low, p := t[i], Pow(W, i);
    var m: u32 := (t[i] * INV_32) % W;
    ReduceStep(p, Sum(t[..], W, 16), a * b, before, m, P);
    k := before + m * p;
    ghost var total := a * b + k * P;
    RowBelow(i, before, m);
    var carry: u32 := MultiplyAddRow32(t, i, m, total);
    WordVanishes(low, m);
    ghost var lost := PropagateCarry(t, i + 8, carry);
    ReductionFits(t[..], a, b, k, lost);
  }

  /** Adds m * p * 2^(32 i) to a number that is total less that. */
  method MultiplyAddRow32(t: array<u32>, i: nat, m: u32, ghost total: int) returns (carry: u32)
    requires t.Length == 16 && i < 8 && Sum(t[..], W, 16) + m * (P * Pow(W, i)) == total
    modifies t
    ensures Sum(t[..], W, 16) + carry * Pow(W, i + 8) == total
    ensures (forall k | 0 <= k < i :: t[k] == old(t[k])) && t[i] == (m * MODULUS_32[0] + old(t[i])) % W
  {
    hide Sum, Pow;
    Constants32();
    carry := MultiplyAddRow(t, i, m, MODULUS_32);
  }

  lemma RowBelow(i: nat, k: int, m: u32)
    requires i < 8 && 0 <= k < Pow(W, i)
    ensures 0 <= k + m * Pow(W, i) < Pow(W, i + 1) <= R
  {
    Constants32();
    PowMonotone(W, i + 1, 8);
    TopLimb(k, m, Pow(W, i), W);
  }

  lemma WordVanishes(low: u32, m: u32)
    requires m == (low * INV_32) % W
    ensures (m * MODULUS_32[0] + low) % W == 0
  {
    Constants32();
    DigitVanishes(low, MODULUS_32[0], INV_32, W);
  }

  lemma ReductionFits(t: seq<u32>, a: int, b: int, k: int, lost: nat)
    requires |t| == 16 && 0 <= a < P && 0 <= b < P && 0 <= k < R
    requires Sum(t, W, 16) + lost * Pow(W, 16) == a * b + k * P
    ensures lost == 0
  {
    hide Sum, Pow;
    Constants32();
    SumBound(t, W, 16);
    PowAdd(W, 8, 8);
    ProductBelow(a, b, P, P);
    assert k * P <= (R - 1) * P;
    NothingLost(Sum(t, W, 16), lost, Pow(W, 16));
  }

  /** The high half of a reduced product is below 2p. */
  lemma HighHalf(t: seq<u32>, a: int, b: int, k: int)
    requires |t| == 16 && 0 <= a < P && 0 <= b < P && 0 <= k < R
    requires Sum(t, W, 16) == a * b + k * P && forall j | 0 <= j < 8 :: t[j] == 0
    ensures var v := Sum(t[8..], W, 8); v * R == a * b + k * P && 0 <= v < 2 * P
  {
    Constants32();
    SumShift(t, W, 8, 8);
    SumZero(t, W, 8);
    SumBound(t[8..], W, 8);
    hide Sum, Pow;
    ProductBelow(a, b, P, P);
    assert k * P <= (R - 1) * P;
  }

  /** The conditional subtraction on eight words. */
  method Subtract32(r: seq<u32>) returns (sub: array<u32>, borrow: int)
    requires |r| == 8
    ensures fresh(sub) && sub.Length == 8 && 0 <= borrow <= 1
    ensures Sum(sub[..], W, 8) == Sum(r, W, 8) - P + borrow * R
    ensures borrow == 1 <==> Sum(r, W, 8) < P
  {
    hide Sum, Pow;
    sub := new u32[8](_ => 0);
    borrow := 0;
    NoLimbsYet(r, W);
    NoLimbsYet(MODULUS_32, W);
    NoLimbsYet(sub[..], W);
    var i := 0;
    while i < 8
      invariant 0 <= i <= 8 && 0 <= borrow <= 1 && fresh(sub)
      invariant Sum(sub[..], W, i) - borrow * Pow(W, i) == Sum(r, W, i) - Sum(MODULUS_32, W, i)
    {
      ghost var before: seq<int>, b := sub[..], borrow;
      var diff := r[i] - MODULUS_32[i] - borrow;
      var word: u32 := diff % W;
      borrow := if diff < 0 then 1 else 0;
      assert diff == word - borrow * W;
      sub[i] := word;
      assert sub[..] == before[i := word];
      BorrowLimb(before, r, MODULUS_32, W, i, word, b, borrow);
      i := i + 1;
    }
    Constants32();
    SumBound(sub[..], W, 8);
    SumBound(r, W, 8);
  }

  /** The whole routine: the Montgomery product of two reduced operands, in 64-bit limbs. */
  method CpuMontMul32(a64: seq<u64>, b64: seq<u64>) returns (out: seq<u64>)
    requires |a64| == |b64| == 4 && Value(a64) < P && Value(b64) < P
    ensures |out| == 4 && IsMontgomeryProduct(Value(out), Value(a64), Value(b64))
  {
    SumBound(a64, B, 4);
    SumBound(b64, B, 4);
    hide IsMontgomeryProduct, Sum;
    var a := FromU64Limbs(a64);
    var b := FromU64Limbs(b64);
    var t := Schoolbook(a, b);
    ghost var k := Reduce(t, Value(a64), Value(b64));
    HighHalf(t[..], Value(a64), Value(b64), k);
    var result := t[8..];
    var sub, borrow := Subtract32(result);
    Reduced(Sum(result, W, 8), Sum(sub[..], W, 8), borrow, Value(a64), Value(b64), k);
    out := ToU64Limbs(if borrow != 0 then result else sub[..]);
  }

  /** Any two routines that return Montgomery products return the same limbs. */
  lemma SameLimbs(r: seq<u64>, s: seq<u64>, a: int, b: int)
    requires |r| == |s| == 4 && IsMontgomeryProduct(Value(r), a, b) && IsMontgomeryProduct(Value(s), a, b)
    ensures r == s
  {
    MontgomeryProductUnique(Value(r), Value(s), a, b);
    SumInjective(r, s, B, 4);
    assert r == r[..4] && s == s[..4];
  }

  /** The 64-bit and the 32-bit routine agree limb for limb. */
  method BothRoutines(a: seq<u64>, b: seq<u64>) returns (wide: seq<u64>, narrow: seq<u64>)
    requires |a| == |b| == 4 && Value(a) < P && Value(b) < P
    ensures wide == narrow && |wide| == 4 && IsMontgomeryProduct(Value(wide), Value(a), Value(b))
  {
    hide IsMontgomeryProduct, Sum;
    var result := new u64[4](_ => 0);
    MontMul4(a, b, result);
    wide := result[..];
    narrow := CpuMontMul32(a, b);
    SameLimbs(wide, narrow, Value(a), Value(b));
  }
}
