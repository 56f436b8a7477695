/** Shifts by way of a bitmask whose trailing zeros carry the shift amount, and the mixed-sign product. */
module Shifts {
  import opened Bits
  import opened Words

  /** The halving recursion over the low 2^k bits, with results of n bits. */
  function TrailingZeros(a: nat, k: nat, n: nat): nat {
    if k == 0 then (if a == 0 then Wrap(n, 1) else 0)
    else
      var half := Pow2(k - 1);
      var lower, upper := a % Pow2(half), Shr(a, half);
      if lower == 0 then AddW(n, TrailingZeros(upper, k - 1, n), Wrap(n, half)) else TrailingZeros(lower, k - 1, n)
  }

  /** a is 2^z times an odd number. */
  predicate Trailing(a: nat, z: nat) {
    a > 0 && a % Pow2(z) == 0 && Shr(a, z) % 2 == 1
  }

  lemma {:induction false} TrailingUnique(a: nat, y: nat, z: nat)
    requires Trailing(a, y) && Trailing(a, z)
    ensures y == z
  {
    if y > 0 && z > 0 {
      TrailingHalf(a, y);
      TrailingHalf(a, z);
      TrailingUnique(a / 2, y - 1, z - 1);
    } else if y > 0 {
      TrailingHalf(a, y);
    } else if z > 0 {
      TrailingHalf(a, z);
    }
  }

  lemma TrailingHalf(a: nat, z: nat)
    requires Trailing(a, z) && z > 0
    ensures a % 2 == 0 && Trailing(a / 2, z - 1)
  {
    var p := Pow2(z - 1);
    HalfMod(a, p);
    DivDiv(a, 2, p);
  }

  lemma ShrSmall(a: nat, i: nat, j: nat)
    requires a < Pow2(i + j)
    ensures Shr(a, i) < Pow2(j)
  {
    Pow2Add(i, j);
    hide Pow2;
    DivBelow(a, Pow2(i), Pow2(j));
  }

  lemma TrailingUpper(a: nat, half: nat, z: nat)
    requires a % Pow2(half) == 0 && Trailing(Shr(a, half), z)
    ensures Trailing(a, half + z)
  {
    hide Pow2;
    var p, q, u := Pow2(half), Pow2(z), Shr(a, half);
    Pow2Add(half, z);
    DivDiv(a, p, q);
    assert a == p * u by {
      assert a == p * (a / p) + a % p;
    }
    ModScale(p, q, u);
  }

  lemma TrailingLower(a: nat, half: nat, z: nat)
    requires Trailing(a % Pow2(half), z) && z < half
    ensures Trailing(a, z)
  {
    Pow2Add(z, half - z);
    assert Pow2(half - z) == 2 * Pow2(half - z - 1);
    hide Pow2;
    LowPart(a, Pow2(z), Pow2(half - z - 1), Pow2(half));
  }

  lemma LowPart(a: nat, p: int, c: int, m: int)
    requires p > 0 && m > 0 && m == p * (2 * c) && a % m > 0 && (a % m) % p == 0 && ((a % m) / p) % 2 == 1
    ensures a > 0 && a % p == 0 && (a / p) % 2 == 1
  {
    var h, l := a / m, a % m;
    assert a == m * h + l;
    Regroup(p, c, m, h, l);
    DivShift(l, p, 2 * (c * h));
    assert a / p == l / p + 2 * (c * h);
    assert a != 0 by {
      if a == 0 {
        DivUnique(0, m, 0, 0);
      }
    }
  }

  lemma Regroup(p: int, c: int, m: int, h: int, l: int)
    requires m == p * (2 * c)
    ensures m * h + l == l + p * (2 * (c * h))
  {
    assert (p * (2 * c)) * h == p * ((2 * c) * h);
  }

  lemma {:induction false} Pow2Large(n: nat)
    ensures n < Pow2(n)
  {
    if n > 0 {
      Pow2Large(n - 1);
    }
  }

  /** z trailing zeros in a word of 2^k bits, all of them in a zero word. */
  ghost predicate Counted(a: nat, z: nat, k: nat) {
    z <= Pow2(k) && if a == 0 then z == Pow2(k) else z < Pow2(k) && Trailing(a, z)
  }

  /** The recursion counts trailing zeros, at every power of two of bits; of zero it counts all bits. */
  lemma {:induction false} TrailingZerosCorrect(a: nat, k: nat, n: nat)
    requires Pow2(k) <= n && a < Pow2(Pow2(k))
    ensures Counted(a, TrailingZeros(a, k, n), k)
    decreases k
  {
    Pow2Large(n);
    if k == 0 {
      WrapSmall(n, 1);
      assert Pow2(0) == 1 && Pow2(1) == 2 by {
        assert Pow2(1) == 2 * Pow2(0);
      }
      assert a < 2;
    } else {
      var half := Pow2(k - 1);
      ShrSmall(a, half, half);
      TrailingZerosCorrect(Shr(a, half), k - 1, n);
      TrailingZerosCorrect(a % Pow2(half), k - 1, n);
      HalvingStep(a, k, n);
    }
  }

  /** From the halves of a word to the word. */
  lemma HalvingStep(a: nat, k: nat, n: nat)
    requires k > 0 && Pow2(k) <= n < Pow2(n)
    requires
      var half := Pow2(k - 1);
      && Counted(Shr(a, half), TrailingZeros(Shr(a, half), k - 1, n), k - 1)
      && Counted(a % Pow2(half), TrailingZeros(a % Pow2(half), k - 1, n), k - 1)
    ensures Counted(a, TrailingZeros(a, k, n), k)
  {
    var half := Pow2(k - 1);
    assert Pow2(k) == 2 * half;
    var lower, upper := a % Pow2(half), Shr(a, half);
    hide Shr, Trailing;
    UpperLower(a, half);
    if lower == 0 {
      var z := TrailingZeros(upper, k - 1, n);
      WrapSmall(n, half);
      WrapSmall(n, z + half);
      if upper != 0 {
        TrailingUpper(a, half, z);
      }
    } else {
      TrailingLower(a, half, TrailingZeros(lower, k - 1, n));
    }
  }

  lemma UpperLower(a: nat, half: nat)
    ensures a == 0 <==> a % Pow2(half) == 0 && Shr(a, half) == 0
  {
    var p := Pow2(half);
    hide Pow2;
    assert a == p * (a / p) + a % p;
    if a == 0 {
      DivUnique(0, p, 0, 0);
    }
  }

  lemma {:induction false} AndBound(x: nat, y: nat)
    ensures And(x, y) <= y
  {
    if x > 0 && y > 0 {
      AndBound(x / 2, y / 2);
    }
  }

  /** The shift amount of a register at a width of n bits. */
  function Amount(n: nat, s: nat): (r: nat)
    requires n > 0
    ensures r < n
  {
    AndBound(s, n - 1);
    And(s, n - 1)
  }

  /** Ones above the shift amount, computed at twice the width and cut back. */
  function ShiftRightBitmask(n: nat, s: nat): nat
    requires n > 0
  {
    var shift := Amount(n, s);
    var ones := SubW(2 * n, Wrap(2 * n, Pow2(n - shift)), 1);
    Wrap(n, Wrap(2 * n, Product(ones, Pow2(shift))))
  }

  /** At a power of two width the amount is the register modulo the width. */
  lemma AmountIsMod(k: nat, s: nat)
    ensures Amount(Pow2(k), s) == s % Pow2(k)
  {
    AndMask(s, k);
  }

  lemma BitmaskValue(n: nat, s: nat)
    requires n > 0
    ensures var shift := Amount(n, s); Pow2(shift) <= Size(n) && ShiftRightBitmask(n, s) == Size(n) - Pow2(shift)
  {
    hide Pow2;
    var shift := Amount(n, s);
    var p, q := Pow2(shift), Pow2(n - shift);
    Pow2Add(shift, n - shift);
    Pow2Add(n, n);
    Pow2Monotone(n - shift, n);
    Pow2Monotone(shift, n);
    SizeEven(n);
    hide Amount;
    MaskArithmetic(p, q, Size(n));
    MaskWraps(n, p, q);
  }

  lemma MaskWraps(n: nat, p: nat, q: nat)
    requires 1 <= q <= Size(n) < Size(2 * n) && Product(q - 1, p) == Size(n) - p && 0 < p <= Size(n)
    ensures var ones := SubW(2 * n, Wrap(2 * n, q), 1); Wrap(n, Wrap(2 * n, Product(ones, p))) == Size(n) - p
  {
    hide Size, Product;
    WrapSmall(2 * n, q);
    WrapSmall(2 * n, q - 1);
    WrapSmall(2 * n, Product(q - 1, p));
    WrapSmall(n, Product(q - 1, p));
  }

  lemma MaskArithmetic(p: int, q: int, m: int)
    requires p >= 1 && q >= 1 && p * q == m && p <= m && q <= m && m >= 2
    ensures Product(q - 1, p) == m - p && 0 <= m - p < m < m * m
  {
    assert (q - 1) * p == q * p - p;
    assert m * m >= m * 2;
  }

  lemma BitmaskTrailing(n: nat, shift: nat, a: nat)
    requires shift < n && a == Size(n) - Pow2(shift)
    ensures Trailing(a, shift)
  {
    Pow2Add(shift, n - shift);
    assert Pow2(n - shift) == 2 * Pow2(n - shift - 1);
    hide Pow2;
    MaskParts(a, Pow2(shift), Pow2(n - shift - 1));
  }

  lemma MaskParts(a: int, p: int, c: int)
    requires p >= 1 && c >= 1 && a == p * (2 * c) - p
    ensures a > 0 && a % p == 0 && (a / p) % 2 == 1
  {
    assert p * (2 * c) >= p * 2;
    assert p * (2 * c - 1) == p * (2 * c) - p;
    DivUnique(a, p, 2 * c - 1, 0);
  }

  /** The bitmask carries the shift amount in its trailing zeros. */
  lemma BitmaskCarriesAmount(k: nat, s: nat)
    requires k > 0
    ensures TrailingZeros(ShiftRightBitmask(Pow2(k), s), k, Pow2(k)) == s % Pow2(k)
  {
    var n := Pow2(k);
    var a, shift := ShiftRightBitmask(n, s), Amount(n, s);
    BitmaskValue(n, s);
    BitmaskTrailing(n, shift, a);
    AmountIsMod(k, s);
    TrailingZerosCorrect(a, k, n);
    TrailingUnique(a, TrailingZeros(a, k, n), shift);
  }

  /** The unsigned high word of sign-corrected operands, corrected back. */
  function MulhsuW(n: nat, a: nat, b: nat): nat {
    var mask := SignMask(n, a);
    var one := And(mask, 1);
    var size := AddW(n, Xor(a, mask), one);
    var high, low := Xor(MulhuW(n, size, b), mask), Xor(MulW(n, size, b), mask);
    AddW(n, high, if AddW(n, low, one) < low then 1 else 0)
  }

  lemma OneOfOnes(n: nat)
    requires n > 0
    ensures And(Ones(n), 1) == 1
  {
    SizeEven(n);
    assert Pow2(1) == 2 by {
      assert Pow2(1) == 2 * Pow2(0);
    }
    AndMask(Ones(n), 1);
  }

  lemma HighIsWord(n: nat, a: nat, b: nat)
    requires IsWord(n, a) && IsWord(n, b)
    ensures 0 <= Product(a, b) / Size(n) < Size(n)
  {
    var m := Size(n);
    hide Size;
    ProductBelow(a, b, m);
    HighNonNegative(a, b, m);
    DivBelow(Product(a, b), m, m);
  }

  lemma ProductBelow(a: int, b: int, m: int)
    requires 0 <= a < m && 0 <= b < m
    ensures Product(a, b) < m * m
  {
    assert a * b <= a * m;
    assert a * m < m * m;
  }

  lemma MulhsuPositive(n: nat, a: nat, b: nat)
    requires n > 0 && IsWord(n, a) && IsWord(n, b) && 2 * a < Size(n)
    ensures MulhsuW(n, a, b) == MulhsuResult(n, a, b)
  {
    hide Size, Product;
    assert And(0, 1) == 0;
    XorZero(a);
    WrapSmall(n, a);
    HighIsWord(n, a, b);
    var h, l := Product(a, b) / Size(n), MulW(n, a, b);
    WrapSmall(n, h);
    XorZero(h);
    XorZero(l);
    hide Xor, And;
    WrapSmall(n, l);
  }

  lemma NegativeQuotient(p: nat, m: int)
    requires m > 1
    ensures (-(p as int)) / m == if p % m == 0 then -(p / m) else -(p / m) - 1
  {
    assert p == m * (p / m) + p % m;
    if p % m == 0 {
      DivUnique(-(p as int), m, -(p / m), 0);
    } else {
      assert m * (-(p / m) - 1) == -(m * (p / m)) - m;
      DivUnique(-(p as int), m, -(p / m) - 1, m - p % m);
    }
  }

  /** Complement and increment of a negative word are its size. */
  lemma NegatedSize(n: nat, a: nat)
    requires n > 0 && IsWord(n, a) && 2 * a >= Size(n)
    ensures SignMask(n, a) == Ones(n) && And(Ones(n), 1) == 1
    ensures AddW(n, Xor(a, Ones(n)), 1) == Size(n) - a && IsWord(n, Size(n) - a)
  {
    hide Size, Xor, And;
    SizeEven(n);
    OneOfOnes(n);
    XorOnes(n, a);
    WrapSmall(n, Size(n) - a);
  }

  /** The high and low word of a product of words. */
  lemma HighAndLow(n: nat, c: nat, b: nat)
    requires IsWord(n, c) && IsWord(n, b)
    ensures var h, l := MulhuW(n, c, b), MulW(n, c, b); IsWord(n, h) && IsWord(n, l)
    ensures MulhuW(n, c, b) == Product(c, b) / Size(n) && MulW(n, c, b) == Product(c, b) % Size(n)
  {
    hide Size, Product;
    HighIsWord(n, c, b);
    WrapSmall(n, Product(c, b) / Size(n));
  }

  /** The high word of a negative product, from the product of the sizes. */
  lemma NegativeHigh(n: nat, a: nat, b: nat)
    requires n > 0 && IsWord(n, a) && IsWord(n, b) && 2 * a >= Size(n)
    ensures
      var p := Product(Size(n) - a, b);
      var h, l := p / Size(n), p % Size(n);
      MulhsuResult(n, a, b) == Wrap(n, if l == 0 then -h else -h - 1)
  {
    SizeEven(n);
    hide Size, Product;
    var m := Size(n);
    HighIsWord(n, m - a, b);
    NegatedProduct(a, b, m);
    NonNegativeProduct(m - a, b);
    NegativeQuotient(Product(m - a, b), m);
  }

  lemma NonNegativeProduct(a: int, b: int)
    requires a >= 0 && b >= 0
    ensures Product(a, b) >= 0
  {
  }

  lemma MulhsuNegative(n: nat, a: nat, b: nat)
    requires n > 0 && IsWord(n, a) && IsWord(n, b) && 2 * a >= Size(n)
    ensures MulhsuW(n, a, b) == MulhsuResult(n, a, b)
  {
    SizeEven(n);
    hide Size, Product, Xor, And, MulhuW, MulW, MulhsuResult, Wrap, SignMask;
    NegatedSize(n, a);
    var c: nat := Size(n) - a;
    HighAndLow(n, c, b);
    var h, l := MulhuW(n, c, b), MulW(n, c, b);
    XorOnes(n, h);
    XorOnes(n, l);
    CarryOut(n, h, l);
    NegativeHigh(n, a, b);
  }

  lemma NegatedProduct(a: int, b: int, m: int)
    ensures Product(a - m, b) == -Product(m - a, b)
  {
    assert (a - m) * b == -((m - a) * b);
  }

  lemma CarryOut(n: nat, h: nat, l: nat)
    requires Size(n) > 1 && IsWord(n, h) && IsWord(n, l)
    ensures
      var high, low := Ones(n) - h, Ones(n) - l;
      AddW(n, high, if AddW(n, low, 1) < low then 1 else 0) == Wrap(n, if l == 0 then -(h as int) else -(h as int) - 1)
  {
    hide Size;
    var m := Size(n);
    if l == 0 {
      WrapSame(n, m, 0, 1);
      WrapSmall(n, 0);
      WrapSame(n, m - h, -(h as int), 1);
    } else {
      WrapSmall(n, m - l);
      WrapSame(n, m - 1 - h, -(h as int) - 1, 1);
    }
  }

  lemma MulhsuCorrect(n: nat, a: nat, b: nat)
    requires n > 0 && IsWord(n, a) && IsWord(n, b)
    ensures MulhsuW(n, a, b) == MulhsuResult(n, a, b)
  {
    hide MulhsuW, MulhsuResult;
    if 2 * a < Size(n) {
      MulhsuPositive(n, a, b);
    } else {
      MulhsuNegative(n, a, b);
    }
  }
}
