/** The two parties whose values the wrapper circuit consumes: the setup tables,
    the honest prover, and the exporter that replays the verifier's accumulators.
    G1, G2 and GT elements are exponents, the pairing is multiplication and GT is
    written additively. */
module DoryProtocol {
  import opened Bits
  import opened Zr
  import opened Vectors

  /** The first 2^k generators. */
  function Prefix(g: nat -> int, k: nat): (v: seq<int>)
    ensures |v| == Pow2(k)
  {
    seq(Pow2(k), i requires 0 <= i => g(i))
  }

  /** Generators 2^(k-1) up to 2^k. */
  function Upper(g: nat -> int, k: nat): (v: seq<int>)
    requires k > 0
    ensures |v| == Pow2(k - 1)
  {
    seq(Pow2(k - 1), i requires 0 <= i => g(Pow2(k - 1) + i))
  }

  /** Prover setup: the exponents of the two generator vectors and of H1, H2. */
  datatype Srs = Srs(g1: nat -> int, g2: nat -> int, h1: int, h2: int) {
    /** The running sum that fills the chi table. */
    function Chi(k: nat): int {
      if k == 0 then g1(0) * g2(0) else Chi(k - 1) + Dot(Upper(g1, k), Upper(g2, k))
    }

    function Delta1R(k: nat): int
      requires k > 0
    {
      Dot(Upper(g1, k), Prefix(g2, k - 1))
    }

    function Delta2R(k: nat): int
      requires k > 0
    {
      Dot(Prefix(g1, k - 1), Upper(g2, k))
    }
  }

  datatype First = First(d1Left: int, d1Right: int, d2Left: int, d2Right: int, e1Beta: int, e2Beta: int)

  datatype Second = Second(cPlus: int, cMinus: int, e1Plus: int, e1Minus: int, e2Plus: int, e2Minus: int)

  /** The prover's four vectors, all of length 2^k with k rounds to go. */
  datatype Prover = Prover(v1: seq<int>, v2: seq<int>, s1: seq<int>, s2: seq<int>) {
    predicate Sized(k: nat) {
      |v1| == |v2| == |s1| == |s2| == Pow2(k)
    }

    function FirstMessage(srs: Srs, k: nat): First
      requires k > 0 && Sized(k)
    {
      var h := Pow2(k - 1);
      First(Dot(v1[..h], Prefix(srs.g2, k - 1)), Dot(v1[h..], Prefix(srs.g2, k - 1)),
            Dot(Prefix(srs.g1, k - 1), v2[..h]), Dot(Prefix(srs.g1, k - 1), v2[h..]),
            Dot(Prefix(srs.g1, k), s2), Dot(Prefix(srs.g2, k), s1))
    }

    function ApplyBeta(srs: Srs, k: nat, beta: int, betaInv: int): (p: Prover)
      requires Sized(k)
      ensures p.Sized(k)
    {
      this.(v1 := Axpy(beta, Prefix(srs.g1, k), v1), v2 := Axpy(betaInv, Prefix(srs.g2, k), v2))
    }

    function SecondMessage(k: nat): Second
      requires k > 0 && Sized(k)
    {
      var h := Pow2(k - 1);
      Second(Dot(v1[..h], v2[h..]), Dot(v1[h..], v2[..h]),
             Dot(v1[..h], s2[h..]), Dot(v1[h..], s2[..h]),
             Dot(s1[..h], v2[h..]), Dot(s1[h..], v2[..h]))
    }

    function ApplyAlpha(k: nat, alpha: int, alphaInv: int): (p: Prover)
      requires k > 0 && Sized(k)
      ensures p.Sized(k - 1)
    {
      Prover(Fold(alpha, v1), Fold(alphaInv, v2), Fold(alpha, s1), Fold(alphaInv, s2))
    }
  }

  /** The verifier's accumulators. */
  datatype Acc = Acc(c: int, d1: int, d2: int, e1: int, e2: int) {
    /** What the accumulators stand for: the inner products of the prover's vectors. */
    ghost predicate Means(p: Prover, srs: Srs, k: nat, r: int)
    {
      && r > 0 && p.Sized(k)
      && Same(c, Dot(p.v1, p.v2), r)
      && Same(d1, Dot(p.v1, Prefix(srs.g2, k)), r)
      && Same(d2, Dot(Prefix(srs.g1, k), p.v2), r)
      && Same(e1, Dot(p.v1, p.s2), r)
      && Same(e2, Dot(p.s1, p.v2), r)
    }
  }

  /** One round of the verifier, as the exporter replays it. */
  function Replay(a: Acc, f: First, m: Second, srs: Srs, k: nat, alpha: int, beta: int, alphaInv: int,
      betaInv: int): Acc
    requires k > 0
  {
    Acc(a.c + srs.Chi(k) + Product(a.d2, beta) + Product(a.d1, betaInv)
          + Product(m.cPlus, alpha) + Product(m.cMinus, alphaInv),
        Product(f.d1Left, alpha) + f.d1Right + Product(srs.Chi(k - 1), Product(alpha, beta))
          + Product(srs.Delta1R(k), beta),
        Product(f.d2Left, alphaInv) + f.d2Right + Product(srs.Chi(k - 1), Product(alphaInv, betaInv))
          + Product(srs.Delta2R(k), betaInv),
        a.e1 + Product(f.e1Beta, beta) + Product(m.e1Plus, alpha) + Product(m.e1Minus, alphaInv),
        a.e2 + Product(f.e2Beta, betaInv) + Product(m.e2Plus, alpha) + Product(m.e2Minus, alphaInv))
  }

  /** The first 2^k generators split into the first 2^(k-1) and the rest. */
  lemma PrefixHalves(g: nat -> int, k: nat)
    requires k > 0
    ensures
      var h := Pow2(k - 1);
      Pow2(k) == 2 * h && Prefix(g, k)[..h] == Prefix(g, k - 1) && Prefix(g, k)[h..] == Upper(g, k)
  {
  }

  /** The incremental chi table holds the full inner products. */
  lemma {:induction false} ChiIsDot(srs: Srs, k: nat)
    ensures srs.Chi(k) == Dot(Prefix(srs.g1, k), Prefix(srs.g2, k))
  {
    hide Dot, Prefix, Upper, Pow2;
    var g1, g2 := Prefix(srs.g1, k), Prefix(srs.g2, k);
    if k == 0 {
      DotOfFirst(srs);
    } else {
      PrefixHalves(srs.g1, k);
      PrefixHalves(srs.g2, k);
      ChiIsDot(srs, k - 1);
      DotHalves(g1, g2);
    }
  }

  lemma DotOfFirst(srs: Srs)
    ensures Dot(Prefix(srs.g1, 0), Prefix(srs.g2, 0)) == srs.g1(0) * srs.g2(0)
  {
    var g1, g2 := Prefix(srs.g1, 0), Prefix(srs.g2, 0);
    assert |g1| == |g2| == 1;
    assert Dot(g1[1..], g2[1..]) == 0;
  }

  lemma FoldArithmetic(a: int, b: int, acc: int, ll: int, lr: int, rl: int, rr: int, j: int, k: int, r: int)
    requires a * b == 1 + r * j && acc == ll + rr + r * k
    ensures acc + lr * a + rl * b == ((a * b) * ll + a * lr + b * rl + rr) + r * (k - j * ll)
  {
    assert (1 + r * j) * ll == ll + (r * j) * ll;
    assert r * (k - j * ll) == r * k - r * (j * ll);
    assert (r * j) * ll == r * (j * ll);
  }

  /** Both sides of a folded pair (x, y) with cross terms, up to a multiple of r. */
  lemma FoldStep(x: seq<int>, y: seq<int>, a: int, b: int, acc: int, r: int)
    requires r > 0 && |x| == |y| && |x| % 2 == 0 && Same(a * b, 1, r) && Same(acc, Dot(x, y), r)
    ensures
      var h := |x| / 2;
      Same(acc + Dot(x[..h], y[h..]) * a + Dot(x[h..], y[..h]) * b, Dot(Fold(a, x), Fold(b, y)), r)
  {
    hide Same, Dot, Axpy, Quot;
    var h := |x| / 2;
    var ll, lr, rl, rr := Dot(x[..h], y[..h]), Dot(x[..h], y[h..]), Dot(x[h..], y[..h]), Dot(x[h..], y[h..]);
    FoldedDot(a, x, b, y);
    DotHalves(x, y);
    var j, k := Quot(a * b, 1, r), Quot(acc, ll + rr, r);
    FoldArithmetic(a, b, acc, ll, lr, rl, rr, j, k, r);
    SameBy(acc + lr * a + rl * b, (a * b) * ll + a * lr + b * rl + rr, k - j * ll, r);
  }

  lemma BetaArithmetic(b: int, bInv: int, x: int, c: int, d1: int, d2: int,
                       c0: int, d10: int, d20: int, j: int, kc: int, k1: int, k2: int, r: int)
    requires b * bInv == 1 + r * j && c == c0 + r * kc && d1 == d10 + r * k1 && d2 == d20 + r * k2
    ensures c + x + d2 * b + d1 * bInv
            == (b * (bInv * x + d20) + (bInv * d10 + c0)) + r * (kc + k2 * b + k1 * bInv - j * x)
  {
    assert b * (bInv * x + d20) == (1 + r * j) * x + b * d20;
    assert (1 + r * j) * x == x + r * (j * x);
    assert (d20 + r * k2) * b == b * d20 + r * (k2 * b);
    assert (d10 + r * k1) * bInv == bInv * d10 + r * (k1 * bInv);
    assert r * (kc + k2 * b + k1 * bInv - j * x) == r * kc + r * (k2 * b) + r * (k1 * bInv) - r * (j * x);
  }

  lemma BetaStepC(p: Prover, srs: Srs, k: nat, beta: int, betaInv: int, c: int, d1: int, d2: int, r: int)
    requires r > 0 && p.Sized(k) && Same(beta * betaInv, 1, r)
    requires Same(c, Dot(p.v1, p.v2), r) && Same(d1, Dot(p.v1, Prefix(srs.g2, k)), r)
    requires Same(d2, Dot(Prefix(srs.g1, k), p.v2), r)
    ensures
      var q := p.ApplyBeta(srs, k, beta, betaInv);
      Same(c + srs.Chi(k) + d2 * beta + d1 * betaInv, Dot(q.v1, q.v2), r)
  {
    hide Same, Dot, Axpy, Quot, Srs.Chi, Prefix;
    var g1, g2 := Prefix(srs.g1, k), Prefix(srs.g2, k);
    var q := p.ApplyBeta(srs, k, beta, betaInv);
    DotAxpy(beta, g1, p.v1, q.v2);
    DotAxpy(betaInv, g2, p.v2, g1);
    DotAxpy(betaInv, g2, p.v2, p.v1);
    ChiIsDot(srs, k);
    var x := srs.Chi(k);
    var c0, d10, d20 := Dot(p.v1, p.v2), Dot(p.v1, g2), Dot(g1, p.v2);
    var j := Quot(beta * betaInv, 1, r);
    var kc, k1, k2 := Quot(c, c0, r), Quot(d1, d10, r), Quot(d2, d20, r);
    BetaArithmetic(beta, betaInv, x, c, d1, d2, c0, d10, d20, j, kc, k1, k2, r);
    SameBy(c + x + d2 * beta + d1 * betaInv, Dot(q.v1, q.v2), kc + k2 * beta + k1 * betaInv - j * x, r);
  }

  /** Adding k * g to the first vector adds k * <g, y> to an inner product with y. */
  lemma BetaStepE(g: seq<int>, k: int, v: seq<int>, y: seq<int>, e: int, r: int)
    requires r > 0 && |g| == |v| == |y| && Same(e, Dot(v, y), r)
    ensures Same(e + Dot(g, y) * k, Dot(Axpy(k, g, v), y), r)
  {
    hide Same, Dot, Axpy;
    DotAxpy(k, g, v, y);
    SameRefl(Dot(g, y) * k, r);
    SameAdd(e, Dot(v, y), Dot(g, y) * k, Dot(g, y) * k, r);
  }

  lemma AxpyHalves(k: int, g: seq<int>, v: seq<int>, h: nat)
    requires |g| == |v| == 2 * h
    ensures Axpy(k, g, v)[..h] == Axpy(k, g[..h], v[..h])
    ensures Axpy(k, g, v)[h..] == Axpy(k, g[h..], v[h..])
  {
  }

  /** Folding k * g + v against y: the four half products, in the order the code adds them. */
  lemma DFold(g: seq<int>, v: seq<int>, y: seq<int>, k: int, a: int)
    requires |g| == |v| == 2 * |y|
    ensures
      var h := |y|;
      Dot(Fold(a, Axpy(k, g, v)), y)
      == Dot(v[..h], y) * a + Dot(v[h..], y) + Dot(g[..h], y) * (a * k) + Dot(g[h..], y) * k
  {
    hide Dot;
    var h := |y|;
    AxpyHalves(k, g, v, h);
    DotAxpy(k, g[..h], v[..h], y);
    DotAxpy(k, g[h..], v[h..], y);
    DArithmetic(a, k, Dot(g[..h], y), Dot(v[..h], y), Dot(g[h..], y));
    DotAxpy(a, Axpy(k, g[..h], v[..h]), Axpy(k, g[h..], v[h..]), y);
  }

  lemma DArithmetic(a: int, k: int, x: int, w: int, z: int)
    ensures a * (k * x + w) == w * a + x * (a * k) && k * z == z * k
  {
    assert a * (k * x + w) == a * (k * x) + a * w;
    assert a * (k * x) == (a * k) * x;
  }

  /** D1' as assembled from the message and the tables is exactly <v1', G2'>; D2' likewise. */
  lemma DStep(p: Prover, srs: Srs, k: nat, alpha: int, beta: int, alphaInv: int, betaInv: int)
    requires k > 0 && p.Sized(k)
    ensures
      var f, h := p.FirstMessage(srs, k), Pow2(k - 1);
      var q := p.ApplyBeta(srs, k, beta, betaInv).ApplyAlpha(k, alpha, alphaInv);
      && Dot(q.v1, Prefix(srs.g2, k - 1))
         == f.d1Left * alpha + f.d1Right + srs.Chi(k - 1) * (alpha * beta) + srs.Delta1R(k) * beta
      && Dot(Prefix(srs.g1, k - 1), q.v2)
         == f.d2Left * alphaInv + f.d2Right + srs.Chi(k - 1) * (alphaInv * betaInv) + srs.Delta2R(k) * betaInv
  {
    hide Dot, Srs.Chi;
    var h := Pow2(k - 1);
    PrefixHalves(srs.g1, k);
    PrefixHalves(srs.g2, k);
    ChiIsDot(srs, k - 1);
    var g1, g2 := Prefix(srs.g1, k - 1), Prefix(srs.g2, k - 1);
    DFold(Prefix(srs.g1, k), p.v1, g2, beta, alpha);
    DFold(Prefix(srs.g2, k), p.v2, g1, betaInv, alphaInv);
    DotSymmetric(p.v2[..h], g1);
    DotSymmetric(p.v2[h..], g1);
    DotSymmetric(g2, g1);
    DotSymmetric(Upper(srs.g2, k), g1);
    DotSymmetric(p.ApplyBeta(srs, k, beta, betaInv).ApplyAlpha(k, alpha, alphaInv).v2, g1);
  }

  lemma RoundC(a: Acc, p: Prover, srs: Srs, k: nat, alpha: int, beta: int, alphaInv: int, betaInv: int, r: int)
    requires r > 0 && k > 0 && p.Sized(k) && Same(alpha * alphaInv, 1, r) && Same(beta * betaInv, 1, r)
    requires a.Means(p, srs, k, r)
    ensures
      var u := p.ApplyBeta(srs, k, beta, betaInv);
      var q, m := u.ApplyAlpha(k, alpha, alphaInv), u.SecondMessage(k);
      Same(a.c + srs.Chi(k) + a.d2 * beta + a.d1 * betaInv + m.cPlus * alpha + m.cMinus * alphaInv, Dot(q.v1, q.v2), r)
  {
    hide Same, Dot, Axpy, Prefix, Srs.Chi, Fold;
    var u := p.ApplyBeta(srs, k, beta, betaInv);
    assert Pow2(k) / 2 == Pow2(k - 1);
    BetaStepC(p, srs, k, beta, betaInv, a.c, a.d1, a.d2, r);
    FoldStep(u.v1, u.v2, alpha, alphaInv, a.c + srs.Chi(k) + a.d2 * beta + a.d1 * betaInv, r);
  }

  lemma RoundE1(a: Acc, p: Prover, srs: Srs, k: nat, alpha: int, beta: int, alphaInv: int, betaInv: int, r: int)
    requires r > 0 && k > 0 && p.Sized(k) && Same(alpha * alphaInv, 1, r) && Same(a.e1, Dot(p.v1, p.s2), r)
    ensures
      var u := p.ApplyBeta(srs, k, beta, betaInv);
      var q, f, m := u.ApplyAlpha(k, alpha, alphaInv), p.FirstMessage(srs, k), u.SecondMessage(k);
      Same(a.e1 + f.e1Beta * beta + m.e1Plus * alpha + m.e1Minus * alphaInv, Dot(q.v1, q.s2), r)
  {
    hide Same, Dot, Axpy, Prefix, Fold;
    var u := p.ApplyBeta(srs, k, beta, betaInv);
    assert Pow2(k) / 2 == Pow2(k - 1);
    BetaStepE(Prefix(srs.g1, k), beta, p.v1, p.s2, a.e1, r);
    FoldStep(u.v1, u.s2, alpha, alphaInv, a.e1 + Dot(Prefix(srs.g1, k), p.s2) * beta, r);
  }

  lemma RoundE2(a: Acc, p: Prover, srs: Srs, k: nat, alpha: int, beta: int, alphaInv: int, betaInv: int, r: int)
    requires r > 0 && k > 0 && p.Sized(k) && Same(alpha * alphaInv, 1, r) && Same(a.e2, Dot(p.s1, p.v2), r)
    ensures
      var u := p.ApplyBeta(srs, k, beta, betaInv);
      var q, f, m := u.ApplyAlpha(k, alpha, alphaInv), p.FirstMessage(srs, k), u.SecondMessage(k);
      Same(a.e2 + f.e2Beta * betaInv + m.e2Plus * alpha + m.e2Minus * alphaInv, Dot(q.s1, q.v2), r)
  {
    hide Same, Dot, Axpy, Prefix, Fold;
    var u := p.ApplyBeta(srs, k, beta, betaInv);
    assert Pow2(k) / 2 == Pow2(k - 1);
    DotSymmetric(p.s1, p.v2);
    BetaStepE(Prefix(srs.g2, k), betaInv, p.v2, p.s1, a.e2, r);
    DotSymmetric(u.v2, u.s1);
    FoldStep(u.s1, u.v2, alpha, alphaInv, a.e2 + Dot(Prefix(srs.g2, k), p.s1) * betaInv, r);
  }

  /** One Dory-Reduce round keeps the meaning of all five accumulators. */
  lemma RoundKeepsMeaning(a: Acc, p: Prover, srs: Srs, k: nat, alpha: int, beta: int, alphaInv: int, betaInv: int,
      r: int)
    requires r > 0 && k > 0 && p.Sized(k)
    requires Same(alpha * alphaInv, 1, r) && Same(beta * betaInv, 1, r)
    requires a.Means(p, srs, k, r)
    ensures
      var u := p.ApplyBeta(srs, k, beta, betaInv);
      Replay(a, p.FirstMessage(srs, k), u.SecondMessage(k), srs, k, alpha, beta, alphaInv, betaInv)
        .Means(u.ApplyAlpha(k, alpha, alphaInv), srs, k - 1, r)
  {
    hide Same, Dot, Prover.ApplyBeta, Prover.ApplyAlpha, Prover.FirstMessage, Prover.SecondMessage, Prefix,
         Srs.Chi, Srs.Delta1R, Srs.Delta2R, Pow2;
    RoundC(a, p, srs, k, alpha, beta, alphaInv, betaInv, r);
    DStep(p, srs, k, alpha, beta, alphaInv, betaInv);
    var q := p.ApplyBeta(srs, k, beta, betaInv).ApplyAlpha(k, alpha, alphaInv);
    SameRefl(Dot(q.v1, Prefix(srs.g2, k - 1)), r);
    SameRefl(Dot(Prefix(srs.g1, k - 1), q.v2), r);
    RoundE1(a, p, srs, k, alpha, beta, alphaInv, betaInv, r);
    RoundE2(a, p, srs, k, alpha, beta, alphaInv, betaInv, r);
  }
}
