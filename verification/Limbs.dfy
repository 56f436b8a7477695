/** Little-endian limb arithmetic in an arbitrary base. */
module Limbs {
  import opened Bits

  function Pow(base: nat, k: nat): nat {
    if k == 0 then 1 else Pow(base, k - 1) * base
  }

  /** The value of the first k limbs. */
  function Sum(s: seq<int>, base: nat, k: nat): int
    requires k <= |s|
  {
    if k == 0 then 0 else Sum(s, base, k - 1) + s[k - 1] * Pow(base, k - 1)
  }

  ghost predicate Digits(s: seq<int>, base: nat) {
    forall i | 0 <= i < |s| :: 0 <= s[i] < base
  }

  lemma SumNext(s: seq<int>, base: nat, k: nat)
    requires k < |s|
    ensures Sum(s, base, k + 1) == Sum(s, base, k) + s[k] * Pow(base, k) && Pow(base, k + 1) == Pow(base, k) * base
  {
  }

  lemma {:induction false} SumFrame(s: seq<int>, t: seq<int>, base: nat, k: nat)
    requires k <= |s| && k <= |t| && s[..k] == t[..k]
    ensures Sum(s, base, k) == Sum(t, base, k)
  {
    if k > 0 {
      assert s[..k - 1] == s[..k][..k - 1] && t[..k - 1] == t[..k][..k - 1];
      assert s[k - 1] == s[..k][k - 1] && t[k - 1] == t[..k][k - 1];
      SumFrame(s, t, base, k - 1);
    }
  }

  lemma {:induction false} PowPositive(base: nat, k: nat)
    requires base > 0
    ensures Pow(base, k) > 0
  {
    if k > 0 {
      PowPositive(base, k - 1);
    }
  }

  lemma TopLimb(x: int, d: int, p: int, base: int)
    requires 0 <= x < p && 0 <= d < base
    ensures 0 <= x + d * p < p * base
  {
    assert d * p <= (base - 1) * p;
  }

  /** k limbs hold a value below base^k. */
  lemma {:induction false} SumBound(s: seq<int>, base: nat, k: nat)
    requires base > 0 && k <= |s| && forall i | 0 <= i < k :: 0 <= s[i] < base
    ensures 0 <= Sum(s, base, k) < Pow(base, k)
  {
    if k > 0 {
      SumBound(s, base, k - 1);
      TopLimb(Sum(s, base, k - 1), s[k - 1], Pow(base, k - 1), base);
    }
  }

  /** Two limb strings of the same length and value are the same. */
  lemma {:induction false} SumInjective(s: seq<int>, t: seq<int>, base: nat, k: nat)
    requires base > 0 && k <= |s| && k <= |t|
    requires forall i | 0 <= i < k :: 0 <= s[i] < base && 0 <= t[i] < base
    requires Sum(s, base, k) == Sum(t, base, k)
    ensures s[..k] == t[..k]
  {
    if k > 0 {
      SumBound(s, base, k - 1);
      SumBound(t, base, k - 1);
      SameTop(Sum(s, base, k - 1), s[k - 1], Sum(t, base, k - 1), t[k - 1], Pow(base, k - 1));
      SumInjective(s, t, base, k - 1);
      assert s[..k] == s[..k - 1] + [s[k - 1]] && t[..k] == t[..k - 1] + [t[k - 1]];
    }
  }

  lemma SameTop(x: int, d: int, y: int, e: int, p: int)
    requires 0 <= x < p && 0 <= y < p && x + d * p == y + e * p
    ensures x == y && d == e
  {
    assert p * (d - e) == y - x;
    SmallMultiple(p, d - e);
  }

  /** A product of two digits plus two digits fits in two digits. */
  lemma TwoDigits(a: int, b: int, c: int, d: int, base: int)
    requires 0 <= a < base && 0 <= b < base && 0 <= c < base && 0 <= d < base
    ensures 0 <= a * b <= (base - 1) * (base - 1)
    ensures 0 <= a * b + c + d < base * base
  {
    assert a * b <= (base - 1) * b <= (base - 1) * (base - 1);
    assert (base - 1) * (base - 1) == base * base - 2 * base + 1;
  }

  /** Adding a digit times a limb at position j: the running sum of a row advances by that limb. */
  lemma RowStep(base: int, q: int, p: int, x: int, c1: int, c2: int, r: int, bi: int, sa: int, k: int, sp: int,
                rj: int, aj: int, pj: int, lo: int, d1: int, out: int, d2: int)
    requires p == q * base
    requires base * x + (c1 + c2) * p == r + bi * sa + k * sp
    requires rj + aj * bi + c1 == lo + base * d1
    requires lo + k * pj + c2 == out + base * d2
    ensures base * (x + out * q) + (d1 + d2) * (p * base) == (r + rj * p) + bi * (sa + aj * p) + k * (sp + pj * p)
  {
    assert rj + aj * bi + k * pj + c1 + c2 == out + base * (d1 + d2);
    assert (rj + aj * bi + k * pj + c1 + c2) * p == (out + base * (d1 + d2)) * p;
    RowExpand(p, rj, aj * bi, k * pj, c1 + c2);
    RowCollect(base, q, p, x, out, d1 + d2);
    RowFactors(p, bi, sa, aj, k, sp, pj);
  }

  lemma RowExpand(p: int, a: int, b: int, c: int, d: int)
    ensures (a + b + c + d) * p == a * p + b * p + c * p + d * p
  {
  }

  lemma RowCollect(base: int, q: int, p: int, x: int, out: int, d: int)
    requires p == q * base
    ensures base * (x + out * q) + d * (p * base) == base * x + (out + base * d) * p
  {
    assert base * (out * q) == out * p;
    assert d * (p * base) == (base * d) * p;
  }

  lemma RowFactors(p: int, bi: int, sa: int, aj: int, k: int, sp: int, pj: int)
    ensures bi * (sa + aj * p) == bi * sa + (aj * bi) * p
    ensures k * (sp + pj * p) == k * sp + (k * pj) * p
  {
    assert bi * (aj * p) == (aj * bi) * p;
    assert k * (pj * p) == (k * pj) * p;
  }

  /** Dividing an exact multiple: r' * base == r + a * bi + k * p stays below a + p. */
  lemma RowBound(base: int, next: int, r: int, a: int, bi: int, k: int, p: int)
    requires base > 0 && next * base == r + a * bi + k * p
    requires 0 <= r < a + p && 0 <= bi < base && 0 <= k < base && 0 <= a && 0 < p
    ensures 0 <= next < a + p
  {
    assert a * bi <= a * (base - 1);
    assert k * p <= (base - 1) * p;
    assert a * (base - 1) == a * base - a;
    assert (base - 1) * p == p * base - p;
    assert (a + p) * base == a * base + p * base;
    assert next * base < (a + p) * base;
    Cancel(base, next, a + p);
    NonNegative(base, next, a, bi, k, p);
  }

  /** The folded top carry of a row is one limb. */
  lemma CarryFits(base: int, low: int, carry: int, top: int, all: int, r: int, a: int, bi: int, k: int, p: int)
    requires base > 0 && top > 0 && all == top * base && a + p <= all && carry >= 0 && 0 <= low
    requires base * low + carry * all == r + bi * a + k * p
    requires 0 <= r < a + p && 0 <= bi < base && 0 <= k < base && 0 <= a && 0 < p
    ensures carry < base
    ensures (low + carry * top) * base == r + a * bi + k * p && 0 <= low + carry * top < a + p
  {
    assert carry * (top * base) == (carry * top) * base;
    RowBound(base, low + carry * top, r, a, bi, k, p);
    assert carry * top < base * top;
    Cancel(top, carry, base);
  }

  lemma Cancel(base: int, x: int, y: int)
    requires base > 0 && x * base < y * base
    ensures x < y
  {
  }

  lemma NonNegative(base: int, next: int, a: int, bi: int, k: int, p: int)
    requires base > 0 && next * base >= a * bi + k * p && 0 <= a && 0 <= bi && 0 <= k && 0 <= p
    ensures next >= 0
  {
    assert a * bi >= 0 && k * p >= 0;
  }

  lemma DigitArithmetic(x: int, p0: int, inv: int, base: int, q: int, k: int, m: int)
    requires x * inv == base * q + k && p0 * inv + 1 == base * m
    ensures x + k * p0 == base * (x * m - q * p0)
  {
    assert x * (p0 * inv + 1) == x * (base * m);
    assert x * (p0 * inv + 1) == (x * inv) * p0 + x;
    assert (base * q + k) * p0 == base * (q * p0) + k * p0;
    assert x * (base * m) == base * (x * m);
  }

  /** The reduction digit k makes the lowest limb vanish. */
  lemma DigitVanishes(x: int, p0: int, inv: int, base: int)
    requires base > 0 && (p0 * inv + 1) % base == 0
    ensures (x + ((x * inv) % base) * p0) % base == 0
  {
    var q, k, m := (x * inv) / base, (x * inv) % base, (p0 * inv + 1) / base;
    DigitArithmetic(x, p0, inv, base, q, k, m);
    MultipleIsZero(base, x * m - q * p0);
  }

  lemma LowHalf(lo: int, hi: int, base: int)
    requires base > 0 && 0 <= lo < base
    ensures (lo + base * hi) % base == lo
  {
    var v := lo + base * hi;
    assert v == base * (v / base) + v % base;
    assert base * (hi - v / base) == base * hi - base * (v / base);
    SmallMultiple(base, hi - v / base);
  }

  lemma MultipleIsZero(base: int, m: int)
    requires base > 0
    ensures (base * m) % base == 0
  {
    var v := base * m;
    assert v == base * (v / base) + v % base;
    assert base * (m - v / base) == base * m - base * (v / base);
    SmallMultiple(base, m - v / base);
  }

  lemma {:induction false} SumZero(s: seq<int>, base: nat, k: nat)
    requires k <= |s| && forall i | 0 <= i < k :: s[i] == 0
    ensures Sum(s, base, k) == 0
  {
    if k > 0 {
      SumZero(s, base, k - 1);
    }
  }

  lemma BorrowStep(base: int, p: int, t: int, b: int, r: int, m: int, ri: int, mi: int, ti: int, c: int)
    requires t - b * p == r - m && ri - mi - b == ti - c * base
    ensures (t + ti * p) - c * (p * base) == (r + ri * p) - (m + mi * p)
  {
    assert (ri - mi - b) * p == (ti - c * base) * p;
    assert (ri - mi - b) * p == ri * p - mi * p - b * p;
    assert (ti - c * base) * p == ti * p - c * (p * base);
  }

  /** One limb of a subtraction, on limb strings. */
  lemma BorrowLimb(before: seq<int>, r: seq<int>, m: seq<int>, base: nat, i: nat, word: int, b: int, c: int)
    requires i < |before| && i < |r| && i < |m| && r[i] - m[i] - b == word - c * base
    requires Sum(before, base, i) - b * Pow(base, i) == Sum(r, base, i) - Sum(m, base, i)
    ensures Sum(before[i := word], base, i + 1) - c * Pow(base, i + 1) == Sum(r, base, i + 1) - Sum(m, base, i + 1)
  {
    hide Sum, Pow;
    var now := before[i := word];
    SumFrame(before, now, base, i);
    SumNext(now, base, i);
    SumNext(r, base, i);
    SumNext(m, base, i);
    BorrowStep(base, Pow(base, i), Sum(before, base, i), b, Sum(r, base, i), Sum(m, base, i), r[i], m[i], word, c);
  }

  lemma OneLimb(s: seq<int>, base: nat)
    requires s != []
    ensures Sum(s, base, 1) == s[0] && Pow(base, 1) == base
  {
    assert Pow(base, 0) == 1 && Sum(s, base, 0) == 0;
  }

  lemma NoLimbsYet(s: seq<int>, base: nat)
    ensures Sum(s, base, 0) == 0 && Pow(base, 0) == 1
  {
  }

  /** One limb of a row of the reduction, on limb strings. */
  lemma RowAdvance(was: seq<int>, before: seq<int>, a: seq<int>, m: seq<int>, base: nat, j: nat, bi: int, k: int,
      c1: int, c2: int, lo: int, d1: int, out: int, d2: int)
    requires 1 <= j < |was| == |before| == |a| == |m| && before[j] == was[j]
    requires base * Sum(before, base, j - 1) + (c1 + c2) * Pow(base, j)
      == Sum(was, base, j) + bi * Sum(a, base, j) + k * Sum(m, base, j)
    requires was[j] + a[j] * bi + c1 == lo + base * d1 && lo + k * m[j] + c2 == out + base * d2
    ensures base * Sum(before[j := lo][j - 1 := out], base, j) + (d1 + d2) * Pow(base, j + 1)
      == Sum(was, base, j + 1) + bi * Sum(a, base, j + 1) + k * Sum(m, base, j + 1)
  {
    hide Sum, Pow;
    var now := before[j := lo][j - 1 := out];
    SumFrame(before, now, base, j - 1);
    SumNext(now, base, j - 1);
    SumNext(was, base, j);
    SumNext(a, base, j);
    SumNext(m, base, j);
    RowStep(base, Pow(base, j - 1), Pow(base, j), Sum(before, base, j - 1), c1, c2, Sum(was, base, j), bi,
      Sum(a, base, j), k, Sum(m, base, j), was[j], a[j], m[j], lo, d1, out, d2);
  }

  lemma OuterStep(base: int, q: int, v: int, next: int, a: int, sb: int, bi: int, ks: int, k: int, p: int)
    requires v * q == a * sb + ks * p && next * base == v + a * bi + k * p
    ensures next * (q * base) == a * (sb + bi * q) + (ks + k * q) * p
  {
    assert next * (q * base) == (next * base) * q;
    assert (v + a * bi + k * p) * q == v * q + (a * bi) * q + (k * p) * q;
    assert a * (sb + bi * q) == a * sb + (a * bi) * q;
    assert (ks + k * q) * p == ks * p + (k * p) * q;
  }

  lemma {:induction false} SumUpdate(s: seq<int>, base: nat, k: nat, i: nat, v: int)
    requires i < k <= |s|
    ensures Sum(s[i := v], base, k) == Sum(s, base, k) + (v - s[i]) * Pow(base, i)
  {
    if i == k - 1 {
      SumFrame(s, s[i := v], base, k - 1);
      assert (v - s[i]) * Pow(base, i) == v * Pow(base, i) - s[i] * Pow(base, i);
    } else {
      SumUpdate(s, base, k - 1, i, v);
    }
  }

  lemma {:induction false} PowAdd(base: nat, i: nat, j: nat)
    ensures Pow(base, i) * Pow(base, j) == Pow(base, i + j)
  {
    if j > 0 {
      PowAdd(base, i, j - 1);
      assert Pow(base, i) * (Pow(base, j - 1) * base) == (Pow(base, i) * Pow(base, j - 1)) * base;
    }
  }

  lemma {:induction false} PowMonotone(base: nat, i: nat, j: nat)
    requires base > 0 && i <= j
    ensures 0 < Pow(base, i) <= Pow(base, j)
  {
    PowPositive(base, i);
    if i < j {
      PowMonotone(base, i, j - 1);
      assert Pow(base, j - 1) * base >= Pow(base, j - 1);
    }
  }

  /** The value of m + k limbs, cut at m. */
  lemma {:induction false} SumShift(s: seq<int>, base: nat, m: nat, k: nat)
    requires m + k <= |s|
    ensures Sum(s, base, m + k) == Sum(s, base, m) + Pow(base, m) * Sum(s[m..], base, k)
  {
    if k > 0 {
      SumShift(s, base, m, k - 1);
      PowAdd(base, m, k - 1);
      var p, q, d := Pow(base, m), Pow(base, k - 1), s[m + k - 1];
      assert d * (p * q) == p * (d * q);
      assert p * (Sum(s[m..], base, k - 1) + d * q) == p * Sum(s[m..], base, k - 1) + p * (d * q);
    }
  }

  /** One limb of a multiply-accumulate row at position i + j. */
  lemma AccumulateStep(base: int, pi: int, pj: int, p: int, v: int, w: int, c: int, x: int, sy: int,
                       yj: int, was: int, lo: int, hi: int)
    requires p == pi * pj && v + c * p == w + x * (sy * pi)
    requires x * yj + was + c == lo + base * hi
    ensures (v + (lo - was) * p) + hi * (p * base) == w + x * ((sy + yj * pj) * pi)
  {
    assert (x * yj + was + c) * p == (lo + base * hi) * p;
    RowExpand(p, x * yj, was, c, 0);
    assert (lo + base * hi) * p == lo * p + hi * (p * base);
    assert (lo - was) * p == lo * p - was * p;
    assert x * ((sy + yj * pj) * pi) == x * (sy * pi) + (x * yj) * (pj * pi);
  }

  /** One limb of a carry at position k. */
  lemma CarryStep(base: int, p: int, v: int, w: int, c: int, was: int, lo: int, hi: int)
    requires v + c * p == w && was + c == lo + base * hi
    ensures (v + (lo - was) * p) + hi * (p * base) == w
  {
    assert (was + c) * p == (lo + base * hi) * p;
    assert (lo + base * hi) * p == lo * p + hi * (p * base);
    assert (lo - was) * p == lo * p - was * p;
  }

  /** One limb of a multiply-accumulate row, on limb strings. */
  lemma RowLimb(was: seq<int>, now: seq<int>, y: seq<int>, base: nat, n: nat, i: nat, j: nat, x: int, c: int, lo: int,
      hi: int)
    requires j < |y| && i + j < n <= |was| && n <= |now|
    requires x * y[j] + now[i + j] + c == lo + base * hi
    requires Sum(now, base, n) + c * Pow(base, i + j) == Sum(was, base, n) + x * (Sum(y, base, j) * Pow(base, i))
    ensures Sum(now[i + j := lo], base, n) + hi * Pow(base, i + j + 1)
            == Sum(was, base, n) + x * (Sum(y, base, j + 1) * Pow(base, i))
  {
    PowAdd(base, i, j);
    SumUpdate(now, base, n, i + j, lo);
    SumNext(y, base, j);
    SumNext(now, base, i + j);
    var pi, pj, p, v, w := Pow(base, i), Pow(base, j), Pow(base, i + j), Sum(now, base, n), Sum(was, base, n);
    hide Sum, Pow;
    AccumulateStep(base, pi, pj, p, v, w, c, x, Sum(y, base, j), y[j], now[i + j], lo, hi);
  }

  /** One limb of a carry, on limb strings. */
  lemma CarryLimb(now: seq<int>, base: nat, n: nat, k: nat, total: int, c: int, lo: int, hi: int)
    requires k < n <= |now| && now[k] + c == lo + base * hi
    requires Sum(now, base, n) + c * Pow(base, k) == total
    ensures Sum(now[k := lo], base, n) + hi * Pow(base, k + 1) == total
  {
    SumUpdate(now, base, n, k, lo);
    SumNext(now, base, k);
    hide Sum, Pow;
    CarryStep(base, Pow(base, k), Sum(now, base, n), total, c, now[k], lo, hi);
  }

  lemma NothingLost(v: int, lost: int, p: int)
    requires 0 <= v && 0 <= lost && 0 < p && v + lost * p < p
    ensures lost == 0
  {
  }

  lemma ProductBelow(a: int, b: int, p: int, q: int)
    requires 0 <= a < p && 0 <= b < q
    ensures 0 <= a * b < p * q
  {
    assert a * b <= a * q;
    assert a * q < p * q;
  }

  lemma SchoolbookStep(q: int, v: int, sa: int, x: int, b: int)
    requires v == sa * b
    ensures v + x * (b * q) == (sa + x * q) * b
  {
    assert x * (b * q) == (x * q) * b;
  }

  lemma ReduceStep(q: int, v: int, v0: int, k: int, m: int, p: int)
    requires v == v0 + k * p
    ensures v + m * (p * q) == v0 + (k + m * q) * p
  {
    assert m * (p * q) == (m * q) * p;
  }
}
