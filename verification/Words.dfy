/** Machine words of n bits as naturals below 2^n, and the RISC-V results they should produce. */
module Words {
  import opened Bits
  import opened Zr

  /** 2^n */
  function Size(n: nat): (m: int)
    ensures m >= 1
  {
    Pow2(n)
  }

  predicate IsWord(n: nat, a: nat) {
    a < Size(n)
  }

  lemma SizeEven(n: nat)
    requires n > 0
    ensures Size(n) == 2 * Size(n - 1)
  {
  }

  function Wrap(n: nat, v: int): nat {
    v % Size(n)
  }

  function Signed(n: nat, a: nat): int {
    if 2 * a < Size(n) then a else a - Size(n)
  }

  function Ones(n: nat): nat {
    Size(n) - 1
  }

  function AddW(n: nat, a: nat, b: nat): nat { Wrap(n, a + b) }

  function SubW(n: nat, a: nat, b: nat): nat { Wrap(n, a - b) }

  function MulW(n: nat, a: nat, b: nat): nat { Wrap(n, Product(a, b)) }

  function MulhuW(n: nat, a: nat, b: nat): nat { Wrap(n, Product(a, b) / Size(n)) }

  function Xor(x: nat, y: nat): nat {
    if x == 0 && y == 0 then 0
    else 2 * Xor(x / 2, y / 2) + (if x % 2 != y % 2 then 1 else 0)
  }

  /** Exclusive or works digit by digit. */
  lemma {:induction false} XorBits(x: nat, y: nat, i: nat)
    ensures Bit(Xor(x, y), i) <==> Bit(x, i) != Bit(y, i)
  {
    XorHalves(x, y);
    hide Xor;
    if i > 0 {
      XorBits(x / 2, y / 2, i - 1);
    }
  }

  lemma XorHalves(x: nat, y: nat)
    ensures Xor(x, y) / 2 == Xor(x / 2, y / 2) && (Xor(x, y) % 2 == 1 <==> x % 2 != y % 2)
  {
  }

  /** All ones for a negative word, else zero. */
  function SignMask(n: nat, a: nat): nat {
    if 2 * a < Size(n) then 0 else Ones(n)
  }

  function ShlW(n: nat, a: nat, s: nat): nat { Wrap(n, Product(a, Pow2(s))) }

  function SrlW(a: nat, s: nat): nat { Shr(a, s) }

  /** Arithmetic shift: the sign fills in from the left. */
  function SraW(n: nat, a: nat, s: nat): nat { Wrap(n, Signed(n, a) / Pow2(s)) }

  function Abs(a: int): nat {
    if a < 0 then -a else a
  }

  /** Division truncating toward zero, and the remainder with the sign of the dividend. */
  function TruncDiv(a: int, b: int): int
    requires b != 0
  {
    if (a < 0) == (b < 0) then Abs(a) / Abs(b) else -(Abs(a) / Abs(b))
  }

  function TruncRem(a: int, b: int): int
    requires b != 0
  {
    if a < 0 then -(Abs(a) % Abs(b)) else Abs(a) % Abs(b)
  }

  /** The most negative word divided by minus one. */
  predicate Overflows(n: nat, a: nat, d: nat) {
    2 * a == Size(n) && d == Ones(n)
  }

  function DivuResult(n: nat, x: nat, d: nat): nat {
    if d == 0 then Ones(n) else x / d
  }

  function RemuResult(x: nat, d: nat): nat {
    if d == 0 then x else x % d
  }

  function DivResult(n: nat, a: nat, d: nat): nat
    requires IsWord(n, d)
  {
    if d == 0 then Ones(n)
    else if Overflows(n, a, d) then a
    else Wrap(n, TruncDiv(Signed(n, a), Signed(n, d)))
  }

  function RemResult(n: nat, a: nat, d: nat): nat
    requires IsWord(n, d)
  {
    if d == 0 then a
    else if Overflows(n, a, d) then 0
    else Wrap(n, TruncRem(Signed(n, a), Signed(n, d)))
  }

  function MulhResult(n: nat, a: nat, b: nat): nat {
    Wrap(n, Product(Signed(n, a), Signed(n, b)) / Size(n))
  }

  function MulhsuResult(n: nat, a: nat, b: nat): nat {
    Wrap(n, Product(Signed(n, a), b) / Size(n))
  }

  lemma WrapSmall(n: nat, v: int)
    requires 0 <= v < Size(n)
    ensures Wrap(n, v) == v
  {
    hide Size;
    DivUnique(v, Size(n), 0, v);
  }

  lemma WrapSame(n: nat, u: int, v: int, k: int)
    requires u == v + Product(Size(n), k)
    ensures Wrap(n, u) == Wrap(n, v)
  {
    SameBy(u, v, k, Size(n));
  }

  lemma SignedWraps(n: nat, a: nat)
    requires IsWord(n, a)
    ensures Wrap(n, Signed(n, a)) == a
    ensures n > 0 ==> -Size(n) <= 2 * Signed(n, a) < Size(n)
  {
    hide Size;
    if 2 * a >= Size(n) {
      WrapSame(n, a - Size(n), a, -1);
    }
    WrapSmall(n, a);
  }

  /** A word is the wrap of exactly one number in the signed range. */
  lemma SignedUnique(n: nat, v: int)
    requires n > 0 && -Size(n) <= 2 * v < Size(n)
    ensures Signed(n, Wrap(n, v)) == v
  {
    hide Size;
    if v < 0 {
      WrapSame(n, v, v + Size(n), -1);
      WrapSmall(n, v + Size(n));
    } else {
      WrapSmall(n, v);
    }
  }

  /** The words of an accepted unsigned division. */
  predicate DivuAccepts(n: nat, x: nat, d: nat, q: nat) {
    var p := MulW(n, q, d);
    && Product(q, d) < Size(n) && p <= x
    && (d == 0 || SubW(n, x, p) < d)
  }

  lemma QuotientIs(x: nat, d: nat, q: nat)
    requires d > 0 && Product(q, d) <= x && x - Product(q, d) < d
    ensures q == x / d && x - Product(q, d) == x % d
  {
    DivUnique(x, d, q, x - Product(q, d));
  }

  lemma QuotientFits(x: nat, d: nat)
    requires d > 0
    ensures x / d >= 0 && Product(x / d, d) <= x && x - Product(x / d, d) == x % d
  {
    assert x == d * (x / d) + x % d;
  }

  /** The asserts leave exactly one quotient when the divisor is not zero, and any when it is. */
  lemma DivuAdvice(n: nat, x: nat, d: nat, q: nat)
    requires IsWord(n, x) && IsWord(n, d) && IsWord(n, q)
    ensures DivuAccepts(n, x, d, q) <==> d == 0 || q == x / d
    ensures DivuAccepts(n, x, d, q) ==> SubW(n, x, MulW(n, q, d)) == RemuResult(x, d)
  {
    hide Size;
    if d == 0 {
      assert Product(q, 0) == 0;
      WrapSmall(n, 0);
      WrapSmall(n, x);
    } else {
      if DivuAccepts(n, x, d, q) {
        WrapSmall(n, Product(q, d));
        WrapSmall(n, x - Product(q, d));
        hide Product;
        QuotientIs(x, d, q);
      }
      if q == x / d {
        QuotientFits(x, d);
        hide Product;
        WrapSmall(n, Product(q, d));
        WrapSmall(n, x - Product(q, d));
      }
    }
  }

  /** Wrapped arithmetic is arithmetic modulo the word size. */
  lemma WrapIsSame(n: nat, v: int)
    ensures Same(Wrap(n, v), v, Size(n))
  {
    SameMod(v, Size(n));
  }

  /** 1 for a negative word. */
  function Sign(n: nat, a: nat): nat {
    if 2 * a < Size(n) then 0 else 1
  }

  lemma SignMaskTimes(n: nat, a: nat, b: nat)
    ensures Same(MulW(n, SignMask(n, a), b), -(Sign(n, a) * b), Size(n))
  {
    hide Size;
    var m := Size(n);
    var s := Sign(n, a);
    WrapIsSame(n, Product(SignMask(n, a), b));
    MaskProduct(m, s, b);
    assert Product(SignMask(n, a), b) == Product(s * (m - 1), b) by {
      assert SignMask(n, a) == s * (m - 1);
    }
    SameBy(Product(s * (m - 1), b), -(s * b), s * b, m);
    SameTrans(MulW(n, SignMask(n, a), b), Product(SignMask(n, a), b), -(s * b), m);
  }

  lemma MaskProduct(m: int, s: int, b: int)
    ensures Product(s * (m - 1), b) == -(s * b) + m * (s * b)
  {
    assert (s * (m - 1)) * b == (s * b) * (m - 1);
  }

  /** The product of two signed words as a product of words and a multiple of the word size. */
  lemma SignedProduct(m: int, a: int, b: int, sa: int, sb: int)
    ensures Product(a - sa * m, b - sb * m) == Product(a, b) + m * (sa * sb * m - sa * b - sb * a)
  {
    assert (a - sa * m) * (b - sb * m) == a * b - a * (sb * m) - (sa * m) * b + (sa * m) * (sb * m);
    assert a * (sb * m) == m * (sb * a) && (sa * m) * b == m * (sa * b) && (sa * m) * (sb * m) == m * (sa * sb * m);
    assert m * (sa * sb * m - sa * b - sb * a) == m * (sa * sb * m) - m * (sa * b) - m * (sb * a);
  }

  lemma SignedBySign(n: nat, a: nat)
    ensures Signed(n, a) == a - Sign(n, a) * Size(n)
  {
  }

  /** The high word of a signed product from unsigned operations. */
  function MulhW(n: nat, a: nat, b: nat): nat {
    AddW(n, AddW(n, MulhuW(n, a, b), MulW(n, SignMask(n, a), b)), MulW(n, SignMask(n, b), a))
  }

  lemma HighNonNegative(a: nat, b: nat, m: int)
    requires m > 0
    ensures Product(a, b) / m >= 0
  {
    assert a * b >= 0;
    DivNonNegative(a * b, m);
  }

  lemma MulhCorrect(n: nat, a: nat, b: nat)
    ensures MulhW(n, a, b) == MulhResult(n, a, b)
  {
    hide Size, Product, Wrap, Same;
    var m, sa, sb := Size(n), Sign(n, a), Sign(n, b);
    var x, y := MulW(n, SignMask(n, a), b), MulW(n, SignMask(n, b), a);
    var k := sa * sb * m - sa * b - sb * a;
    SignedBySign(n, a);
    SignedBySign(n, b);
    SignedProduct(m, a, b, sa, sb);
    DivShift(Product(a, b), m, k);
    assert Product(Signed(n, a), Signed(n, b)) / m == Product(a, b) / m + k;
    SignMaskTimes(n, a, b);
    SignMaskTimes(n, b, a);
    HighNonNegative(a, b, m);
    MulhSame(n, Product(a, b) / m, x, y, sa * b, sb * a, sa * sb);
  }

  lemma MulhSame(n: nat, h: int, x: nat, y: nat, u: int, v: int, t: int)
    requires Same(x, -u, Size(n)) && Same(y, -v, Size(n)) && h >= 0
    ensures AddW(n, AddW(n, Wrap(n, h), x), y) == Wrap(n, h + (t * Size(n) - u - v))
  {
    hide Size;
    var m := Size(n);
    var hw := Wrap(n, h);
    var s := AddW(n, hw, x);
    WrapIsSame(n, h);
    WrapIsSame(n, hw + x);
    WrapIsSame(n, s + y);
    SameAdd(hw, h, x, -u, m);
    SameAdd(s, h - u, y, -v, m);
    SameBy(h - u - v, h + (t * m - u - v), -t, m);
    SameTrans(s + y, h - u - v, h + (t * m - u - v), m);
  }

  /** Negates the word when the mask is all ones. */
  function NegateBy(n: nat, a: nat, mask: nat): nat {
    SubW(n, Xor(a, mask), mask)
  }

  lemma {:induction false} XorZero(a: nat)
    ensures Xor(a, 0) == a
  {
    if a > 0 {
      XorZero(a / 2);
    }
  }

  lemma XorStep(a: nat, p: nat)
    requires p >= 1 && Xor(a / 2, p - 1) == p - 1 - a / 2
    ensures Xor(a, 2 * p - 1) == 2 * p - 1 - a
  {
    assert (2 * p - 1) / 2 == p - 1 && (2 * p - 1) % 2 == 1;
  }

  /** Exclusive or with all ones is the complement. */
  lemma {:induction false} XorOnes(n: nat, a: nat)
    requires IsWord(n, a)
    ensures Xor(a, Ones(n)) == Ones(n) - a
  {
    if n > 0 {
      XorOnes(n - 1, a / 2);
      XorStep(a, Size(n - 1));
    }
  }

  function WithSign(negative: bool, v: int): int {
    if negative then -v else v
  }

  lemma NegateByMask(n: nat, a: nat, b: nat)
    requires IsWord(n, a) && IsWord(n, b)
    ensures NegateBy(n, a, SignMask(n, b)) == Wrap(n, WithSign(Signed(n, b) < 0, a))
  {
    hide Xor;
    if Sign(n, b) == 0 {
      XorZero(a);
    } else {
      XorOnes(n, a);
    }
  }

  /** The signed product of two words has a high part well below the word size. */
  lemma HighBound(n: nat, a: int, b: int)
    requires n > 0
    requires -Size(n) <= 2 * a < Size(n) && -Size(n) <= 2 * b < Size(n)
    ensures -Size(n) < Product(a, b) / Size(n) < Size(n) - 1
  {
    var m := Size(n);
    SizeEven(n);
    SquareBound(a, b, Size(n - 1));
    HighBetween(Product(a, b), m, Size(n - 1));
  }

  lemma SquareBound(a: int, b: int, h: int)
    requires -h <= a < h && -h <= b < h
    ensures -(h * h) <= Product(a, b) <= h * h
  {
    assert (h - a) * (h + b) >= 0 && (h + a) * (h - b) >= 0;
    assert (h - a) * (h + b) == h * h + h * b - a * h - a * b;
    assert (h + a) * (h - b) == h * h - h * b + a * h - a * b;
    assert (h - a) * (h - b) >= 0 && (h + a) * (h + b) >= 0;
    assert (h - a) * (h - b) == h * h - h * b - a * h + a * b;
    assert (h + a) * (h + b) == h * h + h * b + a * h + a * b;
  }

  lemma AboveMinusOne(m: int, d: int)
    requires m > 0 && m * d > -m
    ensures d >= 0
  {
  }

  lemma DivAtLeast(p: int, m: int, q: int)
    requires m > 0 && p >= m * q
    ensures p / m >= q
  {
    assert p == m * (p / m) + p % m;
    assert m * (p / m - q) == m * (p / m) - m * q;
    AboveMinusOne(m, p / m - q);
  }

  lemma DivBelow(p: int, m: int, q: int)
    requires m > 0 && p < m * q
    ensures p / m < q
  {
    assert p == m * (p / m) + p % m;
    assert m * (q - 1 - p / m) == m * q - m - m * (p / m);
    AboveMinusOne(m, q - 1 - p / m);
  }

  lemma HighBetween(p: int, m: int, h: int)
    requires m == 2 * h && h >= 1 && -(h * h) <= p <= h * h
    ensures -m < p / m < m - 1
  {
    assert m * (1 - m) == 2 * h - 4 * (h * h);
    assert m * (m - 1) == 4 * (h * h) - 2 * h;
    assert h * h >= h;
    DivAtLeast(p, m, 1 - m);
    DivBelow(p, m, m - 1);
  }

  /** Shifting a word right by all but one bit leaves its sign mask. */
  lemma SraMask(n: nat, a: nat)
    requires n > 0 && IsWord(n, a)
    ensures SraW(n, a, n - 1) == SignMask(n, a)
  {
    var h := Pow2(n - 1);
    SizeEven(n);
    SignedWraps(n, a);
    hide Size, Pow2;
    if Signed(n, a) < 0 {
      DivUnique(Signed(n, a), h, -1, Signed(n, a) + h);
      WrapSame(n, -1, Ones(n), -1);
      WrapSmall(n, Ones(n));
    } else {
      DivUnique(Signed(n, a), h, 0, Signed(n, a));
      WrapSmall(n, 0);
    }
  }

  /** The low word of a product is the same signed or unsigned. */
  lemma LowProduct(n: nat, a: nat, b: nat)
    ensures MulW(n, a, b) == Wrap(n, Product(Signed(n, a), Signed(n, b)))
  {
    hide Size;
    var sa, sb := Sign(n, a), Sign(n, b);
    var m := Size(n);
    var k := sa * sb * m - sa * b - sb * a;
    SignedBySign(n, a);
    SignedBySign(n, b);
    SignedProduct(m, a, b, sa, sb);
    hide Sign, Signed, Wrap;
    assert m * k == Product(m, k);
    WrapSame(n, Product(Signed(n, a), Signed(n, b)), Product(a, b), k);
  }

  /** The high word is the sign extension of the low word exactly when the signed product fits. */
  lemma NoOverflowIff(n: nat, q: nat, t: nat)
    requires n > 0 && IsWord(n, q) && IsWord(n, t)
    ensures
      var l := MulW(n, q, t);
      MulhW(n, q, t) == SraW(n, l, n - 1) <==> Signed(n, l) == Product(Signed(n, q), Signed(n, t))
  {
    hide Size, Product;
    var l, p, m := MulW(n, q, t), Product(Signed(n, q), Signed(n, t)), Size(n);
    MulhCorrect(n, q, t);
    SraMask(n, l);
    LowProduct(n, q, t);
    SignedWraps(n, q);
    SignedWraps(n, t);
    HighBound(n, Signed(n, q), Signed(n, t));
    HighLow(n, p, l);
  }

  lemma HighLow(n: nat, p: int, l: nat)
    requires l == Wrap(n, p) && -Size(n) < p / Size(n) < Size(n) - 1
    ensures Wrap(n, p / Size(n)) == SignMask(n, l) <==> Signed(n, l) == p
  {
    hide Size;
    var m := Size(n);
    var f := p / m;
    assert p == m * f + l;
    if f >= 0 {
      WrapSmall(n, f);
    } else {
      WrapSame(n, f, f + m, -1);
      WrapSmall(n, f + m);
    }
    if f != 0 && f != -1 {
      FarFrom(m, f, l);
    }
  }

  lemma FarFrom(m: int, f: int, l: int)
    requires m > 0 && 0 <= l < m && f != 0 && f != -1
    ensures m * f + l != l && m * f + l != l - m
  {
    if m * (f + 1) == 0 {
      AboveMinusOne(m, f + 1);
    }
  }

  /** The divisor the sequence works with: one in place of minus one when the division overflows. */
  function ChangeDivisor(n: nat, a: nat, d: nat): nat {
    if Overflows(n, a, d) then 1 else d
  }

  /** What the asserts of the signed sequences demand of the advised quotient and remainder size. */
  predicate DivAccepts(n: nat, a: nat, d: nat, q: nat, r: nat)
    requires n > 0
  {
    var t := ChangeDivisor(n, a, d);
    var l := MulW(n, q, t);
    var size := NegateBy(n, t, SignMask(n, t));
    && (d == 0 ==> q == Ones(n))
    && MulhW(n, q, t) == SraW(n, l, n - 1)
    && AddW(n, l, NegateBy(n, r, SignMask(n, a))) == a
    && (size == 0 || r < size)
  }

  /** The size of the remainder. */
  function RemSize(n: nat, a: nat, d: nat): nat
    requires IsWord(n, d)
  {
    if d == 0 then Abs(Signed(n, a))
    else if Overflows(n, a, d) then 0
    else Abs(Signed(n, a)) % Abs(Signed(n, d))
  }

  /** Truncating division is determined by its equation, the remainder's sign and its size. */
  lemma TruncUnique(a: int, t: int, q: int, r: nat)
    requires t != 0 && Product(q, t) + WithSign(a < 0, r) == a && r < Abs(t)
    ensures q == TruncDiv(a, t) && r == Abs(a) % Abs(t) && WithSign(a < 0, r) == TruncRem(a, t)
  {
    var s := if (a < 0) == (t < 0) then q else -q;
    assert Abs(a) == Abs(t) * s + r by {
      ProductSigns(q, t);
    }
    DivUnique(Abs(a), Abs(t), s, r);
  }

  lemma ProductSigns(q: int, t: int)
    ensures Product(q, t) == q * t && (-q) * t == -(q * t) && q * (-t) == -(q * t) && (-q) * (-t) == q * t
  {
  }

  lemma TruncIdentity(a: int, t: int)
    requires t != 0
    ensures Product(TruncDiv(a, t), t) + TruncRem(a, t) == a
    ensures TruncRem(a, t) == WithSign(a < 0, Abs(a) % Abs(t)) && Abs(TruncRem(a, t)) <= Abs(a)
    ensures Abs(TruncDiv(a, t)) <= Abs(a) && (Abs(t) > 1 && a != 0 ==> Abs(TruncDiv(a, t)) < Abs(a))
  {
    var x, y := Abs(a), Abs(t);
    QuotientSize(x, y);
    EuclidProduct(x, y);
    var q, r := x / y, x % y;
    SignedIdentity(a, t, q, r);
  }

  lemma EuclidProduct(x: nat, y: nat)
    requires y > 0
    ensures Product(x / y, y) + x % y == x
  {
    assert x == y * (x / y) + x % y;
  }

  lemma SignedIdentity(a: int, t: int, q: int, r: int)
    requires Product(q, Abs(t)) + r == Abs(a)
    ensures Product(if (a < 0) == (t < 0) then q else -q, t) + WithSign(a < 0, r) == a
  {
    ProductNegates(q, Abs(t));
    ProductNegates(q, t);
    hide Product;
    assert t == if t < 0 then -(Abs(t) as int) else Abs(t);
  }

  lemma ProductNegates(q: int, t: int)
    ensures Product(-q, t) == -Product(q, t) && Product(q, -t) == -Product(q, t) && Product(-q, -t) == Product(q, t)
  {
    ProductSigns(q, t);
  }

  lemma QuotientSize(x: nat, y: nat)
    requires y > 0
    ensures 0 <= x / y <= x && 0 <= x % y <= x && (y > 1 && x > 0 ==> x / y < x)
  {
    AtLeastTimes(x, y, x + 1);
    DivBelow(x, y, x + 1);
    DivAtLeast(x, y, 0);
    if y > 1 && x > 0 {
      AtLeastTimes(x, y - 1, x);
      assert y * x == (y - 1) * x + x;
      DivBelow(x, y, x);
    }
    RemainderSize(x, y, x / y);
  }

  lemma AtLeastTimes(x: nat, y: nat, z: nat)
    requires y > 0
    ensures y * z >= z
  {
  }

  lemma RemainderSize(x: nat, y: nat, q: nat)
    requires y > 0 && q == x / y
    ensures x % y <= x
  {
    assert x == y * q + x % y;
    AtLeastTimes(x, y, q);
  }

  /** Signed numbers that agree as words are equal when neither strays by a word size. */
  lemma NoWrapAround(n: nat, u: int, v: int)
    requires Wrap(n, u) == Wrap(n, v) && -Size(n) < u - v < Size(n)
    ensures u == v
  {
    hide Size;
    var k := Quot(u, v, Size(n));
    SmallMultiple(Size(n), k);
  }

  lemma SizeOfWord(n: nat, t: nat)
    requires n > 0 && IsWord(n, t)
    ensures NegateBy(n, t, SignMask(n, t)) == Abs(Signed(n, t)) && 2 * Abs(Signed(n, t)) <= Size(n)
  {
    NegateByMask(n, t, t);
    SignedWraps(n, t);
    hide Size;
    if Signed(n, t) < 0 {
      WrapSame(n, -(t as int), Size(n) - t, -1);
      WrapSmall(n, Size(n) - t);
    } else {
      WrapSmall(n, t);
    }
  }

  lemma AddWraps(n: nat, l: nat, v: int)
    ensures AddW(n, l, Wrap(n, v)) == Wrap(n, l + v)
  {
    hide Size;
    WrapIsSame(n, v);
    SameAdd(l, l, Wrap(n, v), v, Size(n));
  }

  lemma SignedSame(n: nat, l: nat, v: int)
    requires IsWord(n, l)
    ensures Wrap(n, l + v) == Wrap(n, Signed(n, l) + v)
  {
    hide Size;
    SignedBySign(n, l);
    WrapSame(n, l + v, Signed(n, l) + v, Sign(n, l));
  }

  lemma ChangedDivisor(n: nat, a: nat, d: nat)
    requires n >= 2 && IsWord(n, a) && IsWord(n, d)
    ensures
      var t := ChangeDivisor(n, a, d);
      && IsWord(n, t) && (Signed(n, t) == 0 <==> d == 0) && (t == 0 <==> d == 0)
      && Signed(n, t) == (if Overflows(n, a, d) then 1 else Signed(n, d))
      && !(2 * Signed(n, a) == -Size(n) && Signed(n, t) == -1)
  {
    SizeEven(n);
    SizeEven(n - 1);
  }

  /** For a divisor that is not zero the asserts say that the quotient and remainder truncate. */
  lemma DivAcceptsTrunc(n: nat, a: nat, d: nat, q: nat, r: nat)
    requires n >= 2 && IsWord(n, a) && IsWord(n, d) && IsWord(n, q) && IsWord(n, r) && d != 0
    requires DivAccepts(n, a, d, q, r)
    ensures
      var x, t := Signed(n, a), Signed(n, ChangeDivisor(n, a, d));
      t != 0 && Signed(n, q) == TruncDiv(x, t) && r == Abs(x) % Abs(t) && WithSign(x < 0, r) == TruncRem(x, t)
  {
    var t := ChangeDivisor(n, a, d);
    var l := MulW(n, q, t);
    var x, v := Signed(n, a), WithSign(Signed(n, a) < 0, r);
    ChangedDivisor(n, a, d);
    NoOverflowIff(n, q, t);
    SizeOfWord(n, t);
    NegateByMask(n, r, a);
    AddWraps(n, l, v);
    SignedSame(n, l, v);
    SignedWraps(n, a);
    SignedWraps(n, l);
    hide Size, Wrap, MulW, MulhW, SraW, SignMask, NegateBy, Signed, Product;
    NoWrapAround(n, Signed(n, l) + v, x);
    TruncUnique(x, Signed(n, t), Signed(n, q), r);
  }

  /** The quotient and remainder the sequence asks for, as words. */
  lemma ResultsAreTrunc(n: nat, a: nat, d: nat)
    requires n >= 2 && IsWord(n, a) && IsWord(n, d) && d != 0
    ensures
      var x, t := Signed(n, a), Signed(n, ChangeDivisor(n, a, d));
      && t != 0
      && DivResult(n, a, d) == Wrap(n, TruncDiv(x, t)) && RemResult(n, a, d) == Wrap(n, TruncRem(x, t))
      && RemSize(n, a, d) == Abs(x) % Abs(t)
      && -Size(n) <= 2 * TruncDiv(x, t) < Size(n)
  {
    var x, t := Signed(n, a), Signed(n, ChangeDivisor(n, a, d));
    ChangedDivisor(n, a, d);
    SignedWraps(n, a);
    TruncIdentity(x, t);
    hide Size;
    if Overflows(n, a, d) {
      OneDivides(Abs(x));
    }
    QuotientSize(Abs(x), Abs(t));
  }

  lemma OneDivides(x: nat)
    ensures x / 1 == x && x % 1 == 0
  {
  }

  /** The quotient advice is determined, and with it the size of the remainder. */
  lemma DivAdviceNonZero(n: nat, a: nat, d: nat, q: nat, r: nat)
    requires n >= 2 && IsWord(n, a) && IsWord(n, d) && IsWord(n, q) && IsWord(n, r) && d != 0
    requires DivAccepts(n, a, d, q, r)
    ensures q == DivResult(n, a, d) && r == RemSize(n, a, d)
    ensures NegateBy(n, r, SignMask(n, a)) == RemResult(n, a, d)
  {
    DivAcceptsTrunc(n, a, d, q, r);
    ResultsAreTrunc(n, a, d);
    SignedWraps(n, q);
    NegateByMask(n, r, a);
  }

  lemma DivHonestNonZero(n: nat, a: nat, d: nat)
    requires n >= 2 && IsWord(n, a) && IsWord(n, d) && d != 0
    ensures IsWord(n, RemSize(n, a, d)) && DivAccepts(n, a, d, DivResult(n, a, d), RemSize(n, a, d))
  {
    var t, q, r := ChangeDivisor(n, a, d), DivResult(n, a, d), RemSize(n, a, d);
    var x, y := Signed(n, a), Signed(n, t);
    var l, v := MulW(n, q, t), WithSign(Signed(n, a) < 0, r);
    ChangedDivisor(n, a, d);
    ResultsAreTrunc(n, a, d);
    TruncIdentity(x, y);
    SizeOfWord(n, t);
    assert r < Abs(y);
    SignedUnique(n, TruncDiv(x, y));
    assert Signed(n, q) == TruncDiv(x, y);
    SignedWraps(n, a);
    LowProduct(n, q, t);
    assert x == Product(Signed(n, q), y) + v;
    hide Size, Wrap, Product, SraW, MulhW, SignMask, TruncDiv, TruncRem, RemSize, DivResult;
    SignedUnique(n, Product(Signed(n, q), y));
    assert Signed(n, l) == Product(Signed(n, q), y);
    NoOverflowIff(n, q, t);
    NegateByMask(n, r, a);
    AddWraps(n, l, v);
    SignedSame(n, l, v);
  }

  /** With a zero divisor the product vanishes and the remainder is the dividend. */
  lemma DivAdviceZero(n: nat, a: nat, q: nat, r: nat)
    requires n >= 2 && IsWord(n, a) && IsWord(n, q) && IsWord(n, r)
    ensures DivAccepts(n, a, 0, q, r) <==> q == Ones(n) && r == RemSize(n, a, 0)
    ensures DivAccepts(n, a, 0, q, r) ==> NegateBy(n, r, SignMask(n, a)) == a
  {
    SizeEven(n);
    assert !Overflows(n, a, 0);
    var l := MulW(n, q, 0);
    ProductZero(q);
    ProductZero(Signed(n, q));
    hide Size, Product, SraW, MulhW, SignMask;
    WrapSmall(n, 0);
    NoOverflowIff(n, q, 0);
    SizeOfWord(n, 0);
    NegateByMask(n, r, a);
    var v := WithSign(Signed(n, a) < 0, r);
    AddWraps(n, 0, v);
    SizeRecovered(n, a, r);
  }

  lemma ProductZero(q: int)
    ensures Product(q, 0) == 0
  {
  }

  lemma SizeRecovered(n: nat, a: nat, r: nat)
    requires IsWord(n, a) && IsWord(n, r)
    ensures Wrap(n, WithSign(Signed(n, a) < 0, r)) == a <==> r == Abs(Signed(n, a))
  {
    hide Size;
    if Signed(n, a) >= 0 {
      WrapSmall(n, r);
    } else if r == 0 {
      WrapSmall(n, 0);
    } else {
      WrapSame(n, -(r as int), Size(n) - r, -1);
      WrapSmall(n, Size(n) - r);
    }
  }

  /** The asserts of the signed sequences accept exactly one pair of advice words. */
  lemma DivAdvice(n: nat, a: nat, d: nat, q: nat, r: nat)
    requires n >= 2 && IsWord(n, a) && IsWord(n, d) && IsWord(n, q) && IsWord(n, r)
    ensures DivAccepts(n, a, d, q, r) <==> q == DivResult(n, a, d) && r == RemSize(n, a, d)
    ensures DivAccepts(n, a, d, q, r) ==> NegateBy(n, r, SignMask(n, a)) == RemResult(n, a, d)
  {
    hide DivAccepts, NegateBy, SignMask;
    if d == 0 {
      DivAdviceZero(n, a, q, r);
    } else {
      DivHonestNonZero(n, a, d);
      if DivAccepts(n, a, d, q, r) {
        DivAdviceNonZero(n, a, d, q, r);
      }
    }
  }

  lemma FloorBounds(x: int, p: int, y: int)
    requires p > 0 && y == x / p
    ensures y * p <= x < (y + 1) * p
  {
    assert x == p * y + x % p;
    assert (y + 1) * p == p * y + p;
  }

  /** A quotient by a power of two stays in the signed range. */
  lemma FloorInRange(x: int, p: int, h: int)
    requires p > 0 && h > 0 && -h <= x < h
    ensures -h <= x / p < h
  {
    assert p * h >= h && p * -h == -(p * h);
    DivAtLeast(x, p, -h);
    DivBelow(x, p, h);
  }

  /** Shifting right arithmetically rounds the signed quotient down. */
  lemma SraFloor(n: nat, a: nat, t: nat)
    requires n > 0 && IsWord(n, a)
    ensures var y := Signed(n, SraW(n, a, t)); y * Pow2(t) <= Signed(n, a) < (y + 1) * Pow2(t)
  {
    var x, p := Signed(n, a), Pow2(t);
    SignedWraps(n, a);
    SizeEven(n);
    FloorInRange(x, p, Size(n - 1));
    hide Size, Pow2;
    SignedUnique(n, x / p);
    FloorBounds(x, p, x / p);
  }

  /** Shifting right logically rounds the quotient down. */
  lemma SrlFloor(a: nat, t: nat)
    ensures var y := SrlW(a, t); y * Pow2(t) <= a < (y + 1) * Pow2(t)
  {
    hide Pow2;
    FloorBounds(a, Pow2(t), SrlW(a, t));
  }

  /** Shifting left multiplies modulo the word size. */
  lemma ShlMultiplies(n: nat, a: nat, t: nat)
    ensures var y := ShlW(n, a, t); y < Pow2(n) && exists c: nat :: a * Pow2(t) == c * Pow2(n) + y
  {
    hide Pow2;
    var v, m := a * Pow2(t), Pow2(n);
    assert v == m * (v / m) + v % m;
    assert v >= 0;
    DivNonNegative(v, m);
    var c: nat := v / m;
    assert v == c * m + ShlW(n, a, t);
  }

  lemma HighInRange(n: nat, x: int, h: int)
    requires n > 0 && Size(n) == 2 * h && h > 0 && -(2 * (h * h)) <= x < 2 * (h * h)
    ensures
      var y := Signed(n, Wrap(n, x / Size(n)));
      y * Size(n) <= x < (y + 1) * Size(n)
  {
    hide Size;
    var m := Size(n);
    assert m * h == 2 * (h * h) && m * -h == -(m * h);
    DivAtLeast(x, m, -h);
    DivBelow(x, m, h);
    SignedUnique(n, x / m);
    FloorBounds(x, m, x / m);
  }

  /** The high word of the signed product is the product divided by the word size, rounded down. */
  lemma MulhFloor(n: nat, a: nat, b: nat)
    requires n > 0 && IsWord(n, a) && IsWord(n, b)
    ensures
      var y, x, m := Signed(n, MulhResult(n, a, b)), Product(Signed(n, a), Signed(n, b)), Size(n);
      y * m <= x < (y + 1) * m
  {
    var h := Size(n - 1);
    SizeEven(n);
    SignedWraps(n, a);
    SignedWraps(n, b);
    hide Size, Product, Signed, Wrap;
    SquareBound(Signed(n, a), Signed(n, b), h);
    assert h * h > 0;
    HighInRange(n, Product(Signed(n, a), Signed(n, b)), h);
  }

  lemma MixedBound(x: int, b: int, h: int)
    requires -h <= x < h && 0 <= b < 2 * h
    ensures -(2 * (h * h)) <= Product(x, b) < 2 * (h * h)
  {
    assert (x + h) * b >= 0 && (h - x) * b >= 0;
    assert (x + h) * b == x * b + h * b && (h - x) * b == h * b - x * b;
    assert h * (2 * h - b) > 0;
    assert h * (2 * h - b) == 2 * (h * h) - h * b;
  }

  /** The same for a signed and an unsigned operand. */
  lemma MulhsuFloor(n: nat, a: nat, b: nat)
    requires n > 0 && IsWord(n, a) && IsWord(n, b)
    ensures
      var y, x, m := Signed(n, MulhsuResult(n, a, b)), Product(Signed(n, a), b), Size(n);
      y * m <= x < (y + 1) * m
  {
    var h := Size(n - 1);
    SizeEven(n);
    SignedWraps(n, a);
    hide Size, Product, Signed, Wrap;
    MixedBound(Signed(n, a), b, h);
    HighInRange(n, Product(Signed(n, a), b), h);
  }

  /** Quotient and remainder of signed division, and what takes their place without a divisor and on overflow. */
  lemma DivisionEquation(n: nat, a: nat, d: nat)
    requires n >= 2 && IsWord(n, a) && IsWord(n, d)
    ensures
      var q, r := DivResult(n, a, d), RemResult(n, a, d);
      var x, y := Signed(n, a), Signed(n, d);
      if y == 0 then q == Size(n) - 1 && r == a
      else if 2 * x == -Size(n) && y == -1 then q == a && r == 0
      else
        && Product(Signed(n, q), y) + Signed(n, r) == x
        && Abs(Signed(n, r)) < Abs(y)
        && (Signed(n, r) == 0 || (Signed(n, r) < 0 <==> x < 0))
  {
    var x, y := Signed(n, a), Signed(n, d);
    SizeEven(n);
    ChangedDivisor(n, a, d);
    if d != 0 && !Overflows(n, a, d) {
      ResultsAreTrunc(n, a, d);
      TruncIdentity(x, y);
      SignedWraps(n, a);
      hide Size, Wrap, Product, TruncDiv, TruncRem, DivResult, RemResult;
      SignedUnique(n, TruncDiv(x, y));
      SignedUnique(n, TruncRem(x, y));
    }
  }
}
