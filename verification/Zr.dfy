/** Exponent arithmetic modulo the group order, and vectors of exponents.
    A group element is represented by any integer exponent of a fixed generator;
    two exponents denote the same element when they are congruent. Scalar multiplication,
    GT exponentiation and the pairing all multiply exponents. */
module Zr {
  import opened Prelude
  import opened Bits

  /** Equality of two group elements (or of two field elements). */
  predicate Same(a: int, b: int, r: int)
    requires r > 0
  {
    a % r == b % r
  }

  lemma SameBy(a: int, b: int, k: int, r: int)
    requires r > 0 && a == b + r * k
    ensures Same(a, b, r)
  {
    var d := a / r - b / r - k;
    assert r * d == b % r - a % r by {
      assert a == r * (a / r) + a % r && b == r * (b / r) + b % r;
      assert r * d == r * (a / r) - r * (b / r) - r * k;
    }
    SmallMultiple(r, d);
  }

  /** The quotient that witnesses a congruence. */
  function Quot(a: int, b: int, r: int): (k: int)
    requires r > 0 && Same(a, b, r)
    ensures a == b + r * k
  {
    assert a == r * (a / r) + a % r && b == r * (b / r) + b % r;
    assert r * (a / r - b / r) == r * (a / r) - r * (b / r);
    a / r - b / r
  }

  lemma SameRefl(a: int, r: int)
    requires r > 0
    ensures Same(a, a, r)
  {
  }

  lemma SameSym(a: int, b: int, r: int)
    requires r > 0 && Same(a, b, r)
    ensures Same(b, a, r)
  {
  }

  lemma SameTrans(a: int, b: int, c: int, r: int)
    requires r > 0 && Same(a, b, r) && Same(b, c, r)
    ensures Same(a, c, r)
  {
  }

  lemma SameAdd(a: int, b: int, c: int, d: int, r: int)
    requires r > 0 && Same(a, b, r) && Same(c, d, r)
    ensures Same(a + c, b + d, r)
  {
    var j, k := Quot(a, b, r), Quot(c, d, r);
    assert r * (j + k) == r * j + r * k;
    SameBy(a + c, b + d, j + k, r);
  }

  lemma SameMul(a: int, b: int, c: int, d: int, r: int)
    requires r > 0 && Same(a, b, r) && Same(c, d, r)
    ensures Same(a * c, b * d, r)
  {
    var j, k := Quot(a, b, r), Quot(c, d, r);
    assert a * c == b * d + r * (b * k + j * d + r * j * k) by {
      assert a * c == (b + r * j) * (d + r * k);
      assert (b + r * j) * (d + r * k) == b * d + b * (r * k) + (r * j) * d + (r * j) * (r * k);
    }
    SameBy(a * c, b * d, b * k + j * d + r * j * k, r);
  }

  lemma SameMod(a: int, r: int)
    requires r > 0
    ensures Same(a % r, a, r)
  {
    SameBy(a % r, a, -(a / r), r);
  }

  /** big.Int's ModInverse: the inverse in [0, r), or nil. */
  function ModInverse(a: int, r: int): (inv: Option<int>)
    requires r > 0
    ensures inv.Some? ==> 0 <= inv.value < r && (a * inv.value) % r == 1 % r
    ensures inv.None? ==> forall x | 0 <= x < r :: (a * x) % r != 1 % r
  {
    InverseFrom(a, r, 0)
  }

  function InverseFrom(a: int, r: int, x: int): (inv: Option<int>)
    requires r > 0 && 0 <= x <= r
    ensures inv.Some? ==> 0 <= inv.value < r && (a * inv.value) % r == 1 % r
    ensures inv.None? ==> forall y | x <= y < r :: (a * y) % r != 1 % r
    decreases r - x
  {
    if x == r then None
    else if (a * x) % r == 1 % r then Some(x)
    else InverseFrom(a, r, x + 1)
  }

  predicate Invertible(a: int, r: int)
    requires r > 0
  {
    ModInverse(a, r).Some?
  }

  /** The inverse where there is one, 0 otherwise. */
  function Inv(a: int, r: int): (b: int)
    requires r > 0
    ensures 0 <= b < r && (Invertible(a, r) ==> Same(a * b, 1, r))
  {
    match ModInverse(a, r)
    case Some(b) => b
    case None => 0
  }
}

/** Inner products and linear combinations of integer vectors. */
module Vectors {

  function Dot(a: seq<int>, b: seq<int>): int
    requires |a| == |b|
  {
    if a == [] then 0 else a[0] * b[0] + Dot(a[1..], b[1..])
  }

  /** k * a + b, entry by entry. */
  function Axpy(k: int, a: seq<int>, b: seq<int>): (c: seq<int>)
    requires |a| == |b|
    ensures |c| == |a|
  {
    seq(|a|, i requires 0 <= i < |a| => k * a[i] + b[i])
  }

  function Scale(k: int, a: seq<int>): (c: seq<int>)
    ensures |c| == |a|
  {
    seq(|a|, i requires 0 <= i < |a| => k * a[i])
  }

  /** Fold the top half onto the bottom half: k * left + right. */
  function Fold(k: int, a: seq<int>): (c: seq<int>)
    requires |a| % 2 == 0
    ensures |c| == |a| / 2
  {
    Axpy(k, a[..|a| / 2], a[|a| / 2..])
  }

  lemma {:induction false} DotSymmetric(a: seq<int>, b: seq<int>)
    requires |a| == |b|
    ensures Dot(a, b) == Dot(b, a)
  {
    if a != [] {
      DotSymmetric(a[1..], b[1..]);
    }
  }

  lemma {:induction false} DotConcat(a: seq<int>, b: seq<int>, c: seq<int>, d: seq<int>)
    requires |a| == |c| && |b| == |d|
    ensures Dot(a + b, c + d) == Dot(a, c) + Dot(b, d)
  {
    if a == [] {
      assert a + b == b && c + d == d;
    } else {
      assert (a + b)[1..] == a[1..] + b && (c + d)[1..] == c[1..] + d;
      DotConcat(a[1..], b, c[1..], d);
    }
  }

  lemma {:induction false} DotAxpy(k: int, a: seq<int>, b: seq<int>, c: seq<int>)
    requires |a| == |b| == |c|
    ensures Dot(Axpy(k, a, b), c) == k * Dot(a, c) + Dot(b, c)
    ensures Dot(c, Axpy(k, a, b)) == k * Dot(c, a) + Dot(c, b)
  {
    if a != [] {
      assert Axpy(k, a, b)[1..] == Axpy(k, a[1..], b[1..]);
      DotAxpy(k, a[1..], b[1..], c[1..]);
      assert (k * a[0] + b[0]) * c[0] == k * (a[0] * c[0]) + b[0] * c[0];
      assert k * (a[0] * c[0] + Dot(a[1..], c[1..])) == k * (a[0] * c[0]) + k * Dot(a[1..], c[1..]);
      assert c[0] * (k * a[0] + b[0]) == k * (c[0] * a[0]) + c[0] * b[0];
      assert k * (c[0] * a[0] + Dot(c[1..], a[1..])) == k * (c[0] * a[0]) + k * Dot(c[1..], a[1..]);
    }
  }

  lemma {:induction false} DotScale(k: int, a: seq<int>, c: seq<int>)
    requires |a| == |c|
    ensures Dot(Scale(k, a), c) == k * Dot(a, c)
    ensures Dot(c, Scale(k, a)) == k * Dot(c, a)
  {
    if a != [] {
      assert Scale(k, a)[1..] == Scale(k, a[1..]);
      DotScale(k, a[1..], c[1..]);
      assert (k * a[0]) * c[0] == k * (a[0] * c[0]) && c[0] * (k * a[0]) == k * (c[0] * a[0]);
      assert k * (a[0] * c[0] + Dot(a[1..], c[1..])) == k * (a[0] * c[0]) + k * Dot(a[1..], c[1..]);
      assert k * (c[0] * a[0] + Dot(c[1..], a[1..])) == k * (c[0] * a[0]) + k * Dot(c[1..], a[1..]);
    }
  }

  lemma DotHalves(a: seq<int>, b: seq<int>)
    requires |a| == |b| && |a| % 2 == 0
    ensures var h := |a| / 2; Dot(a, b) == Dot(a[..h], b[..h]) + Dot(a[h..], b[h..])
  {
    var h := |a| / 2;
    assert a == a[..h] + a[h..] && b == b[..h] + b[h..];
    DotConcat(a[..h], a[h..], b[..h], b[h..]);
  }

  /** The inner product of two folded vectors, in terms of the four half products. */
  lemma FoldedDot(k: int, a: seq<int>, j: int, b: seq<int>)
    requires |a| == |b| && |a| % 2 == 0
    ensures
      var h := |a| / 2;
      Dot(Fold(k, a), Fold(j, b))
      == (k * j) * Dot(a[..h], b[..h]) + k * Dot(a[..h], b[h..]) + j * Dot(a[h..], b[..h]) + Dot(a[h..], b[h..])
  {
    hide Dot, Axpy;
    var h := |a| / 2;
    var al, ar, bl, br := a[..h], a[h..], b[..h], b[h..];
    DotAxpy(k, al, ar, Axpy(j, bl, br));
    DotAxpy(j, bl, br, al);
    DotAxpy(j, bl, br, ar);
    assert k * (j * Dot(al, bl) + Dot(al, br)) == (k * j) * Dot(al, bl) + k * Dot(al, br) by {
      Distribute(k, j, Dot(al, bl), Dot(al, br));
    }
  }

  lemma Distribute(k: int, j: int, x: int, y: int)
    ensures k * (j * x + y) == (k * j) * x + k * y
  {
    assert k * (j * x) == (k * j) * x;
  }
}
