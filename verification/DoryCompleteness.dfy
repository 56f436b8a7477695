/** Completeness of the wrapper circuit: an honest opening of any coefficient matrix at any
    point, exported and loaded, satisfies every constraint of the circuit. */
module DoryCompleteness {
  import opened Bits
  import opened Zr
  import opened Vectors
  import opened DoryProtocol
  import opened DoryCircuit

  /** A prover and a verifier going through n rounds of Dory-Reduce under given challenges. */
  datatype Run = Run(srs: Srs, n: nat, r: int, start: Prover, init: Acc, alpha: seq<int>, beta: seq<int>) {
    predicate Valid() {
      r > 0 && n >= 1 && start.Sized(n) && |alpha| == |beta| == n
    }

    ghost predicate Honest() {
      && Valid() && init.Means(start, srs, n, r)
      && forall i | 0 <= i < n :: Invertible(alpha[i], r) && Invertible(beta[i], r)
    }

    /** The prover after i rounds. */
    function ProverAt(i: nat): (p: Prover)
      requires Valid() && i <= n
      ensures p.Sized(n - i)
      decreases i
    {
      if i == 0 then start
      else
        ProverAt(i - 1).ApplyBeta(srs, n - i + 1, beta[i - 1], Inv(beta[i - 1], r))
          .ApplyAlpha(n - i + 1, alpha[i - 1], Inv(alpha[i - 1], r))
    }

    function FirstAt(i: nat): First
      requires Valid() && i < n
    {
      ProverAt(i).FirstMessage(srs, n - i)
    }

    function SecondAt(i: nat): Second
      requires Valid() && i < n
    {
      ProverAt(i).ApplyBeta(srs, n - i, beta[i], Inv(beta[i], r)).SecondMessage(n - i)
    }

    /** The exporter's accumulators after i rounds. */
    function AccAt(i: nat): Acc
      requires Valid() && i <= n
    {
      if i == 0 then init
      else
        Replay(AccAt(i - 1), FirstAt(i - 1), SecondAt(i - 1), srs, n - i + 1,
               alpha[i - 1], beta[i - 1], Inv(alpha[i - 1], r), Inv(beta[i - 1], r))
    }
  }

  /** After every round the five accumulators are the inner products of the prover's vectors. */
  lemma {:induction false} AccumulatorsMean(o: Run, i: nat)
    requires o.Honest() && i <= o.n
    ensures o.AccAt(i).Means(o.ProverAt(i), o.srs, o.n - i, o.r)
  {
    hide Acc.Means, Replay, Prover.ApplyBeta, Prover.ApplyAlpha, Prover.FirstMessage, Prover.SecondMessage, Inv;
    if i > 0 {
      AccumulatorsMean(o, i - 1);
      RoundKeepsMeaning(o.AccAt(i - 1), o.ProverAt(i - 1), o.srs, o.n - i + 1, o.alpha[i - 1], o.beta[i - 1],
                        Inv(o.alpha[i - 1], o.r), Inv(o.beta[i - 1], o.r), o.r);
    }
  }

  /** The verifier's setup tables. */
  function SetupTables(srs: Srs, n: nat): (t: Tables)
    ensures |t.chi| == |t.delta1L| == |t.delta1R| == |t.delta2L| == |t.delta2R| == n + 1
  {
    var delta1L := seq(n + 1, k requires 0 <= k => if k == 0 then 0 else srs.Chi(k - 1));
    Tables(seq(n + 1, k requires 0 <= k => srs.Chi(k)), delta1L,
           seq(n + 1, k requires 0 <= k => if k == 0 then 0 else srs.Delta1R(k)), delta1L,
           seq(n + 1, k requires 0 <= k => if k == 0 then 0 else srs.Delta2R(k)),
           srs.g1(0), srs.g2(0), srs.h1, srs.h2, Product(srs.h1, srs.h2))
  }

  function FinalE1(o: Run, gamma: int): int
    requires o.Valid()
  {
    var p := o.ProverAt(o.n);
    p.v1[0] + Product(Product(gamma, p.s1[0]), o.srs.h1)
  }

  function FinalP1G2(o: Run, gamma: int, d: int): int
    requires o.Valid()
  {
    var p := o.ProverAt(o.n);
    p.v2[0] + Product(o.srs.h2, Product(Inv(gamma, o.r), p.s2[0])) + Product(o.srs.g2(0), Inv(d, o.r))
  }

  function FinalP2G2(o: Run, s1: int, gamma: int, d: int): int
    requires o.Valid()
  {
    Product(o.AccAt(o.n).e2 + Product(o.srs.g2(0), Product(Inv(d, o.r), s1)), -gamma)
  }

  /** The exported JSON witness of a run with final challenges gamma and d. */
  function Export(o: Run, s1Coords: seq<int>, s2Coords: seq<int>, gamma: int, d: int): (w: Witness)
    requires o.Valid() && |s1Coords| == |s2Coords| == o.n
    ensures w.Sized(o.n) && w.numRounds == o.n && w.vmvE1 == o.init.e1
  {
    Witness(o.n, o.alpha, o.beta, gamma, d, s1Coords, s2Coords, o.init.d1, o.init.c, o.init.d2, o.init.e1,
            seq(o.n, i requires 0 <= i < o.n => o.FirstAt(i)), seq(o.n, i requires 0 <= i < o.n => o.SecondAt(i)),
            FinalE1(o, gamma), FinalP1G2(o, gamma, d), FinalP2G2(o, FoldAcc(o.alpha, s1Coords, o.n), gamma, d),
            seq(o.n, i requires 0 <= i < o.n => o.AccAt(i + 1).c),
            seq(o.n, i requires 0 <= i < o.n => o.AccAt(i + 1).d1),
            seq(o.n, i requires 0 <= i < o.n => o.AccAt(i + 1).d2), SetupTables(o.srs, o.n))
  }

  /** What the witness holds for round index i. */
  ghost predicate RoundFields(o: Run, w: Witness, i: nat)
    requires o.Valid() && w.Sized(o.n) && i < o.n
  {
    var k := o.n - i;
    && w.alpha[i] == o.alpha[i] && w.beta[i] == o.beta[i]
    && w.first[i] == o.FirstAt(i) && w.second[i] == o.SecondAt(i)
    && w.debugC[i] == o.AccAt(i + 1).c && w.debugD1[i] == o.AccAt(i + 1).d1 && w.debugD2[i] == o.AccAt(i + 1).d2
    && o.AccAt(i).c == (if i == 0 then w.vmvC else w.debugC[i - 1])
    && o.AccAt(i).d1 == (if i == 0 then w.commitment else w.debugD1[i - 1])
    && o.AccAt(i).d2 == (if i == 0 then w.vmvD2 else w.debugD2[i - 1])
    && w.setup.chi[k] == o.srs.Chi(k)
    && w.setup.delta1L[k] == o.srs.Chi(k - 1) == w.setup.delta2L[k]
    && w.setup.delta1R[k] == o.srs.Delta1R(k) && w.setup.delta2R[k] == o.srs.Delta2R(k)
  }

  lemma ExportFields(o: Run, s1Coords: seq<int>, s2Coords: seq<int>, gamma: int, d: int, i: nat)
    requires o.Valid() && |s1Coords| == |s2Coords| == o.n && i < o.n
    ensures RoundFields(o, Export(o, s1Coords, s2Coords, gamma, d), i)
  {
    hide Run.FirstAt, Run.SecondAt, FinalE1, FinalP1G2, FinalP2G2, FoldAcc, Srs.Chi, Srs.Delta1R, Srs.Delta2R;
    if i == 0 {
      assert o.AccAt(0) == o.init;
    }
  }

  /** The loader's running E1 is the exporter's. */
  lemma {:induction false} LoaderTracksE1(o: Run, w: Witness, i: nat)
    requires o.Valid() && w.Sized(o.n) && i <= o.n && w.vmvE1 == o.init.e1
    requires forall j | 0 <= j < o.n :: RoundFields(o, w, j)
    ensures AccumE1(w, i, o.n, o.r) == o.AccAt(i).e1
  {
    hide Product, Prover.ApplyBeta, Prover.ApplyAlpha, Run.FirstAt, Run.SecondAt, Inv;
    if i > 0 {
      LoaderTracksE1(o, w, i - 1);
      assert RoundFields(o, w, i - 1);
    }
  }

  /** Every checkpoint equation holds for an exported and loaded witness. */
  lemma CheckpointHolds(o: Run, w: Witness, c: Circuit, i: nat)
    requires o.Valid() && w.Sized(o.n) && i < o.n
    requires RoundFields(o, w, i) && IsAssignment(w, c, o.n, o.r)
    ensures Checkpoint(c, i, o.n, o.r)
  {
    hide Product, Same, Inv, FoldAcc, AccumE1, Run.FirstAt, Run.SecondAt, Srs.Chi, Srs.Delta1R, Srs.Delta2R, Inverses;
    var a, b, aInv, bInv := o.alpha[i], o.beta[i], Inv(o.alpha[i], o.r), Inv(o.beta[i], o.r);
    var k := o.n - i;
    var s, x := c.scaled[i], o.srs.Chi(k - 1);
    assert s == ScaledRound(w, i, o.n, o.r);
    assert o.AccAt(i + 1) == Replay(o.AccAt(i), o.FirstAt(i), o.SecondAt(i), o.srs, k, a, b, aInv, bInv);
    SameRefl(c.checkpointC[i], o.r);
    ReducedExponent(x, Product(a, b), s.d1L + c.d1Right[i], s.d1RSetup, o.r);
    ReducedExponent(x, Product(aInv, bInv), s.d2L + c.d2Right[i], s.d2RSetup, o.r);
  }

  lemma ReducedExponent(x: int, e: int, before: int, after: int, r: int)
    requires r > 0
    ensures Same(before + Product(x, e % r) + after, before + Product(x, e) + after, r)
  {
    hide Same;
    SameMod(e, r);
    SameRefl(x, r);
    SameRefl(before + after, r);
    SameMul(x, x, e % r, e, r);
    SameAdd(x * (e % r), x * e, before + after, before + after, r);
  }

  /** The multilinear Lagrange basis at a point; the last coordinate selects the half. */
  function Tensor(point: seq<int>): (t: seq<int>)
    ensures |t| == Pow2(|point|)
  {
    if point == [] then [1]
    else
      var k := |point| - 1;
      Scale(1 - point[k], Tensor(point[..k])) + Scale(point[k], Tensor(point[..k]))
  }

  lemma FactorArithmetic(k: int, m: int, x: int, t: int)
    ensures k * (m * ((1 - x) * t)) + m * (x * t) == (m * (k * (1 - x) + x)) * t
  {
    assert m * ((1 - x) * t) == m * t - m * (x * t);
    assert k * (m * t - m * (x * t)) == k * (m * t) - k * (m * (x * t));
    assert (m * (k * (1 - x) + x)) * t == (m * k - m * (k * x) + m * x) * t;
  }

  lemma FoldScaledAt(k: int, m: int, x: int, t: seq<int>, i: nat)
    requires i < |t|
    ensures Fold(k, Scale(m, Scale(1 - x, t) + Scale(x, t)))[i] == (m * (k * (1 - x) + x)) * t[i]
  {
    var both := Scale(m, Scale(1 - x, t) + Scale(x, t));
    FactorArithmetic(k, m, x, t[i]);
    assert both[i] == m * ((1 - x) * t[i]) && both[|t| + i] == m * (x * t[i]);
  }

  lemma FoldScaled(k: int, m: int, x: int, t: seq<int>)
    ensures Fold(k, Scale(m, Scale(1 - x, t) + Scale(x, t))) == Scale(m * (k * (1 - x) + x), t)
  {
    hide Fold;
    var folded, scaled := Fold(k, Scale(m, Scale(1 - x, t) + Scale(x, t))), Scale(m * (k * (1 - x) + x), t);
    forall i | 0 <= i < |t|
      ensures folded[i] == scaled[i]
    {
      FoldScaledAt(k, m, x, t, i);
    }
  }

  /** Folding a scaled Lagrange vector from the top coordinate multiplies its scale by one factor. */
  lemma TensorFold(point: seq<int>, m: int, k: int)
    requires point != []
    ensures |Tensor(point)| % 2 == 0
    ensures
      var last := |point| - 1;
      var x := point[last];
      Fold(k, Scale(m, Tensor(point))) == Scale(m * (k * (1 - x) + x), Tensor(point[..last]))
  {
    hide Fold, Scale;
    var last := |point| - 1;
    FoldScaled(k, m, point[last], Tensor(point[..last]));
  }

  /** A round folds the scalar vectors and does nothing else to them. */
  lemma ScalarsStep(o: Run, i: nat)
    requires o.Valid() && 0 < i <= o.n
    ensures |o.ProverAt(i - 1).s1| % 2 == |o.ProverAt(i - 1).s2| % 2 == 0
    ensures o.ProverAt(i).s1 == Fold(o.alpha[i - 1], o.ProverAt(i - 1).s1)
    ensures o.ProverAt(i).s2 == Fold(Inv(o.alpha[i - 1], o.r), o.ProverAt(i - 1).s2)
  {
    hide Fold, Inv, Axpy, Prefix;
  }

  /** One scalar vector through one round. */
  lemma ScalarFold(coords: seq<int>, ks: seq<int>, i: nat, before: seq<int>)
    requires 0 < i <= |ks| == |coords| && |before| % 2 == 0
    requires before == Scale(FoldAcc(ks, coords, i - 1), Tensor(coords[..|ks| - (i - 1)]))
    ensures Fold(ks[i - 1], before) == Scale(FoldAcc(ks, coords, i), Tensor(coords[..|ks| - i]))
  {
    hide Fold, Tensor, Scale;
    var k := |ks| - i;
    TensorFold(coords[..k + 1], FoldAcc(ks, coords, i - 1), ks[i - 1]);
    assert coords[..k + 1][..k] == coords[..k];
  }

  /** After i rounds the prover's scalar vectors are the folded factors times a shorter basis. */
  lemma {:induction false} ScalarsFold(o: Run, s1Coords: seq<int>, s2Coords: seq<int>, i: nat)
    requires o.Valid() && |s1Coords| == |s2Coords| == o.n && i <= o.n
    requires o.start.s1 == Tensor(s1Coords) && o.start.s2 == Tensor(s2Coords)
    ensures o.ProverAt(i).s1 == Scale(FoldAcc(o.alpha, s1Coords, i), Tensor(s1Coords[..o.n - i]))
    ensures o.ProverAt(i).s2 == Scale(FoldAcc(Inverses(o.alpha, o.r), s2Coords, i), Tensor(s2Coords[..o.n - i]))
  {
    hide Fold, Tensor, Inv, Pow2, Axpy, Scale, FoldAcc, Run.ProverAt;
    if i == 0 {
      ScalarsStart(o, s1Coords, s2Coords);
    } else {
      ScalarsFold(o, s1Coords, s2Coords, i - 1);
      ScalarsStep(o, i);
      ScalarFold(s1Coords, o.alpha, i, o.ProverAt(i - 1).s1);
      ScalarFold(s2Coords, Inverses(o.alpha, o.r), i, o.ProverAt(i - 1).s2);
    }
  }

  lemma ScalarsStart(o: Run, s1Coords: seq<int>, s2Coords: seq<int>)
    requires o.Valid() && |s1Coords| == |s2Coords| == o.n
    requires o.start.s1 == Tensor(s1Coords) && o.start.s2 == Tensor(s2Coords)
    ensures o.ProverAt(0).s1 == Scale(FoldAcc(o.alpha, s1Coords, 0), Tensor(s1Coords[..o.n]))
    ensures o.ProverAt(0).s2 == Scale(FoldAcc(Inverses(o.alpha, o.r), s2Coords, 0), Tensor(s2Coords[..o.n]))
  {
    hide Tensor;
    assert s1Coords[..o.n] == s1Coords && s2Coords[..o.n] == s2Coords;
  }

  /** The row vector l * m. */
  function VecMat(l: seq<int>, m: seq<seq<int>>, width: nat): (v: seq<int>)
    requires |l| == |m| && forall row | row in m :: |row| == width
    ensures |v| == width
  {
    if l == [] then seq(width, _ => 0) else Axpy(l[0], m[0], VecMat(l[1..], m[1..], width))
  }

  /** The product of every matrix row with x. */
  function MatVec(m: seq<seq<int>>, x: seq<int>): (v: seq<int>)
    requires forall row | row in m :: |row| == |x|
    ensures |v| == |m|
  {
    seq(|m|, i requires 0 <= i < |m| => Dot(x, m[i]))
  }

  /** x * (l * m) read either way: <x, l * m> == <l, m * x>. */
  lemma {:induction false} VecMatDot(l: seq<int>, m: seq<seq<int>>, x: seq<int>)
    requires |l| == |m| && forall row | row in m :: |row| == |x|
    ensures Dot(x, VecMat(l, m, |x|)) == Dot(l, MatVec(m, x))
  {
    if l == [] {
      DotScale(0, x, x);
      assert VecMat(l, m, |x|) == Scale(0, x);
    } else {
      VecMatDot(l[1..], m[1..], x);
      DotAxpy(l[0], m[0], VecMat(l[1..], m[1..], |x|), x);
      assert MatVec(m, x)[1..] == MatVec(m[1..], x);
    }
  }

  /** A 2^n by 2^n coefficient matrix and a point to open it at. */
  datatype Opening = Opening(srs: Srs, n: nat, matrix: seq<seq<int>>, rowPoint: seq<int>, colPoint: seq<int>) {
    predicate Valid() {
      && n >= 1 && |matrix| == Pow2(n) && (forall row | row in matrix :: |row| == Pow2(n))
      && |rowPoint| == |colPoint| == n
    }

    /** L^T * M * R. */
    function Evaluation(): int
      requires Valid()
    {
      Dot(Tensor(rowPoint), MatVec(matrix, Tensor(colPoint)))
    }

    function RowCommitments(): (v: seq<int>)
      requires Valid()
      ensures |v| == Pow2(n)
    {
      MatVec(matrix, Prefix(srs.g1, n))
    }

    function ColumnEvaluations(): (v: seq<int>)
      requires Valid()
      ensures |v| == Pow2(n)
    {
      VecMat(Tensor(rowPoint), matrix, Pow2(n))
    }

    function Start(): (p: Prover)
      requires Valid()
      ensures p.Sized(n)
    {
      Prover(RowCommitments(), Scale(srs.g2(0), ColumnEvaluations()), Tensor(colPoint), Tensor(rowPoint))
    }

    /** The VMV message, the commitment and the public evaluation as the verifier starts from them. */
    function Initial(): Acc
      requires Valid()
    {
      Acc(Product(Dot(RowCommitments(), ColumnEvaluations()), srs.g2(0)),
          Dot(RowCommitments(), Prefix(srs.g2, n)),
          Product(Dot(Prefix(srs.g1, n), ColumnEvaluations()), srs.g2(0)),
          Dot(RowCommitments(), Tensor(rowPoint)),
          Product(srs.g2(0), Evaluation()))
    }
  }

  predicate Binary(point: seq<int>) {
    forall i | 0 <= i < |point| :: point[i] == 0 || point[i] == 1
  }

  /** The number whose binary digits are the coordinates, the lowest first. */
  function Index(point: seq<int>): (i: nat)
    ensures i < Pow2(|point|)
  {
    if point == [] then 0
    else
      var k := |point| - 1;
      Index(point[..k]) + (if point[k] == 1 then Pow2(k) else 0)
  }

  function Unit(n: nat, i: int): (u: seq<int>)
    ensures |u| == n
  {
    seq(n, j => if j == i then 1 else 0)
  }

  /** At a vertex of the cube the Lagrange basis picks one entry. */
  lemma {:induction false} TensorUnit(point: seq<int>)
    requires Binary(point)
    ensures Tensor(point) == Unit(Pow2(|point|), Index(point))
  {
    hide Unit, Scale, Index, Pow2;
    if point == [] {
      UnitOne();
    } else {
      var k := |point| - 1;
      TensorUnit(point[..k]);
      IndexNext(point);
      UnitHalves(Pow2(k), Index(point[..k]), point[k]);
    }
  }

  lemma UnitOne()
    ensures Pow2(0) == 1 && Index([]) == 0 && Unit(1, 0) == [1]
  {
  }

  lemma IndexNext(point: seq<int>)
    requires point != []
    ensures
      var k := |point| - 1;
      && Pow2(k + 1) == 2 * Pow2(k)
      && Index(point) == Index(point[..k]) + (if point[k] == 1 then Pow2(k) else 0)
  {
  }

  lemma UnitHalves(h: nat, i: nat, x: int)
    requires i < h && (x == 0 || x == 1)
    ensures Scale(1 - x, Unit(h, i)) + Scale(x, Unit(h, i)) == Unit(2 * h, if x == 1 then i + h else i)
  {
  }

  lemma {:induction false} DotUnit(v: seq<int>, i: int)
    ensures Dot(Unit(|v|, i), v) == if 0 <= i < |v| then v[i] else 0
  {
    if v != [] {
      DotUnit(v[1..], i - 1);
      assert Unit(|v|, i)[1..] == Unit(|v| - 1, i - 1);
      hide Unit;
      assert Unit(|v|, i)[0] == (if i == 0 then 1 else 0) by {
        UnitFirst(|v|, i);
      }
    }
  }

  lemma UnitFirst(n: nat, i: int)
    requires n > 0
    ensures Unit(n, i)[0] == if i == 0 then 1 else 0
  {
  }

  /** What is opened: the polynomial that has the matrix entries as its values at the vertices of the cube. */
  lemma EvaluationAtVertex(o: Opening)
    requires o.Valid() && Binary(o.rowPoint) && Binary(o.colPoint)
    ensures o.Evaluation() == o.matrix[Index(o.rowPoint)][Index(o.colPoint)]
  {
    hide Tensor, Unit, Dot, Index, Pow2;
    var row, column := Index(o.rowPoint), Index(o.colPoint);
    TensorUnit(o.rowPoint);
    TensorUnit(o.colPoint);
    var values := MatVec(o.matrix, Tensor(o.colPoint));
    DotUnit(values, row);
    DotUnit(o.matrix[row], column);
  }

  /** The first messages are inner products too, and D2 is E1 paired with the first G2 generator. */
  lemma StartMeans(o: Opening, r: int)
    requires o.Valid() && r > 0
    ensures o.Initial().Means(o.Start(), o.srs, o.n, r)
    ensures o.Initial().d2 == Product(o.Initial().e1, o.srs.g2(0))
  {
    hide Dot, VecMat, MatVec, Scale, Tensor, Prefix, Same, Pow2;
    var g, v, rows := o.srs.g2(0), o.ColumnEvaluations(), o.RowCommitments();
    var g1 := Prefix(o.srs.g1, o.n);
    DotScale(g, v, rows);
    DotScale(g, v, g1);
    DotScale(g, v, Tensor(o.colPoint));
    VecMatDot(Tensor(o.rowPoint), o.matrix, Tensor(o.colPoint));
    VecMatDot(Tensor(o.rowPoint), o.matrix, g1);
    DotSymmetric(rows, Tensor(o.rowPoint));
    var a := o.Initial();
    SameRefl(a.c, r);
    SameRefl(a.d1, r);
    SameRefl(a.d2, r);
    SameRefl(a.e1, r);
    SameRefl(a.e2, r);
  }

  lemma NineTerms(a: int, b: int, c: int, d: int, e: int, f: int)
    ensures (a + b + c) * (d + e + f) == a * d + a * e + a * f + b * d + b * e + b * f + c * d + c * e + c * f
  {
  }

  lemma SecondPairing(y: int, s1: int, h1: int, v2: int, g2: int, dInv: int)
    ensures h1 * ((s1 * v2 + g2 * (dInv * s1)) * -y) == -(((y * s1) * h1) * v2) - ((y * s1) * h1) * (g2 * dInv)
  {
    assert h1 * ((s1 * v2) * -y) == -(((y * s1) * h1) * v2);
    assert h1 * ((g2 * (dInv * s1)) * -y) == -(((y * s1) * h1) * (g2 * dInv));
  }

  lemma ThirdPairing(v1: int, s2: int, g1: int, d: int, yInv: int, h2: int)
    ensures ((v1 * s2 + g1 * (d * s2)) * -yInv) * h2 == -(v1 * (h2 * (yInv * s2))) - (g1 * d) * (h2 * (yInv * s2))
  {
    assert ((v1 * s2) * -yInv) * h2 == -(v1 * (h2 * (yInv * s2)));
    assert ((g1 * (d * s2)) * -yInv) * h2 == -((g1 * d) * (h2 * (yInv * s2)));
  }

  lemma UnitFactor(a: int, aInv: int, x: int, z: int, k: int, r: int)
    requires a * aInv == 1 + r * k
    ensures (x * a) * (z * aInv) == x * z + r * (k * (x * z))
  {
    assert (x * a) * (z * aInv) == (a * aInv) * (x * z);
    assert (1 + r * k) * (x * z) == x * z + (r * k) * (x * z);
  }

  /** The first three pairings multiplied out: the accumulators' cross terms cancel. */
  lemma PairingArithmetic(v1: int, v2: int, s1: int, s2: int, g1: int, g2: int, h1: int, h2: int,
                          y: int, yInv: int, d: int, dInv: int, j: int, k: int, r: int)
    requires y * yInv == 1 + r * j && d * dInv == 1 + r * k
    ensures (v1 + (y * s1) * h1 + g1 * d) * (v2 + h2 * (yInv * s2) + g2 * dInv)
            + h1 * ((s1 * v2 + g2 * (dInv * s1)) * -y)
            + ((v1 * s2 + g1 * (d * s2)) * -yInv) * h2
            == (v1 * v2 + (s1 * h1) * (h2 * s2) + g1 * g2 + (g1 * d) * v2 + v1 * (g2 * dInv))
               + r * (j * ((s1 * h1) * (h2 * s2)) + k * (g1 * g2))
  {
    NineTerms(v1, (y * s1) * h1, g1 * d, v2, h2 * (yInv * s2), g2 * dInv);
    SecondPairing(y, s1, h1, v2, g2, dInv);
    ThirdPairing(v1, s2, g1, d, yInv, h2);
    UnitFactor(y, yInv, s1 * h1, h2 * s2, j, r);
    UnitFactor(d, dInv, g1, g2, k, r);
    assert (y * s1) * h1 == (s1 * h1) * y && h2 * (yInv * s2) == (h2 * s2) * yInv;
  }

  lemma SecondTerm(e: int, e0: int, t: int, h1: int, y: int, r: int)
    requires r > 0 && Same(e, e0, r)
    ensures Same(h1 * ((e + t) * -y), h1 * ((e0 + t) * -y), r)
  {
    hide Same;
    SameRefl(t, r);
    SameAdd(e, e0, t, t, r);
    SameRefl(-y, r);
    SameMul(e + t, e0 + t, -y, -y, r);
    SameRefl(h1, r);
    SameMul(h1, h1, (e + t) * -y, (e0 + t) * -y, r);
  }

  lemma ThirdTerm(e: int, e0: int, g: int, x: int, yInv: int, h2: int, r: int)
    requires r > 0 && Same(e, e0, r)
    ensures Same(((e + g * (x % r)) * ((-yInv) % r)) * h2, ((e0 + g * x) * -yInv) * h2, r)
  {
    hide Same;
    SameMod(x, r);
    SameRefl(g, r);
    SameMul(g, g, x % r, x, r);
    SameAdd(e, e0, g * (x % r), g * x, r);
    SameMod(-yInv, r);
    SameMul(e + g * (x % r), e0 + g * x, (-yInv) % r, -yInv, r);
    SameRefl(h2, r);
    SameMul((e + g * (x % r)) * ((-yInv) % r), (e0 + g * x) * -yInv, h2, h2, r);
  }

  lemma RightSide(c: int, c0: int, ht: int, sp: int, sp0: int, chi: int, d2: int, d20: int, d: int,
                  d1: int, d10: int, dInv: int, r: int)
    requires r > 0 && Same(c, c0, r) && Same(sp, sp0, r) && Same(d2, d20, r) && Same(d1, d10, r)
    ensures Same(c + ht * sp + chi + d2 * d + d1 * dInv, c0 + ht * sp0 + chi + d20 * d + d10 * dInv, r)
  {
    hide Same;
    SameRefl(ht, r);
    SameMul(ht, ht, sp, sp0, r);
    SameAdd(c, c0, ht * sp, ht * sp0, r);
    SameRefl(chi, r);
    SameAdd(c + ht * sp, c0 + ht * sp0, chi, chi, r);
    SameRefl(d, r);
    SameMul(d2, d20, d, d, r);
    SameAdd(c + ht * sp + chi, c0 + ht * sp0 + chi, d2 * d, d20 * d, r);
    SameRefl(dInv, r);
    SameMul(d1, d10, dInv, dInv, r);
    SameAdd(c + ht * sp + chi + d2 * d, c0 + ht * sp0 + chi + d20 * d, d1 * dInv, d10 * dInv, r);
  }

  /** The final equation, from the meaning of the accumulators at vectors of length one. */
  lemma FinalEquation(v1: int, v2: int, s1: int, s2: int, g1: int, g2: int, h1: int, h2: int,
                      y: int, yInv: int, d: int, dInv: int, a: Acc, sp: int, last: int, r: int)
    requires r > 0 && Same(y * yInv, 1, r) && Same(d * dInv, 1, r) && Same(sp, s1 * s2, r)
    requires Same(a.c, v1 * v2, r) && Same(a.d1, v1 * g2, r) && Same(a.d2, g1 * v2, r)
    requires Same(a.e1, v1 * s2, r) && Same(a.e2, s1 * v2, r)
    ensures
      var p1 := v1 + Product(Product(y, s1), h1) + Product(g1, d);
      var p1G2 := v2 + Product(h2, Product(yInv, s2)) + Product(g2, dInv);
      var p2G2 := Product(a.e2 + Product(g2, Product(dInv, s1)), -y);
      var p3 := Product(a.e1 + Product(g1, Product(d, s2) % r), (-yInv) % r);
      var rhs := a.c + Product(Product(h1, h2), sp) + Product(g1, g2) + Product(a.d2, d) + Product(a.d1, dInv);
      Same(Product(p1, p1G2) + Product(h1, p2G2) + Product(p3, h2) + last, rhs + last, r)
  {
    hide Same, Quot;
    var p1 := (v1 + (y * s1) * h1 + g1 * d) * (v2 + h2 * (yInv * s2) + g2 * dInv);
    var p2, p20 := h1 * ((a.e2 + g2 * (dInv * s1)) * -y), h1 * ((s1 * v2 + g2 * (dInv * s1)) * -y);
    var p3 := ((a.e1 + g1 * ((d * s2) % r)) * ((-yInv) % r)) * h2;
    var p30 := ((v1 * s2 + g1 * (d * s2)) * -yInv) * h2;
    SecondTerm(a.e2, s1 * v2, g2 * (dInv * s1), h1, y, r);
    ThirdTerm(a.e1, v1 * s2, g1, d * s2, yInv, h2, r);
    SameRefl(p1, r);
    SameAdd(p1, p1, p2, p20, r);
    SameAdd(p1 + p2, p1 + p20, p3, p30, r);
    var rhs := a.c + (h1 * h2) * sp + g1 * g2 + a.d2 * d + a.d1 * dInv;
    var rhs0 := v1 * v2 + (h1 * h2) * (s1 * s2) + g1 * g2 + (g1 * v2) * d + (v1 * g2) * dInv;
    RightSide(a.c, v1 * v2, h1 * h2, sp, s1 * s2, g1 * g2, a.d2, g1 * v2, d, a.d1, v1 * g2, dInv, r);
    SameSym(rhs, rhs0, r);
    var j, k := Quot(y * yInv, 1, r), Quot(d * dInv, 1, r);
    PairingArithmetic(v1, v2, s1, s2, g1, g2, h1, h2, y, yInv, d, dInv, j, k, r);
    RightProducts(v1, v2, s1, s2, g1, g2, h1, h2, d, dInv);
    SameBy(p1 + p20 + p30, rhs0, j * ((s1 * h1) * (h2 * s2)) + k * (g1 * g2), r);
    SameTrans(p1 + p2 + p3, p1 + p20 + p30, rhs0, r);
    SameTrans(p1 + p2 + p3, rhs0, rhs, r);
    SameRefl(last, r);
    SameAdd(p1 + p2 + p3, rhs, last, last, r);
  }

  lemma RightProducts(v1: int, v2: int, s1: int, s2: int, g1: int, g2: int, h1: int, h2: int, d: int, dInv: int)
    ensures (s1 * h1) * (h2 * s2) == (h1 * h2) * (s1 * s2)
    ensures (g1 * d) * v2 == (g1 * v2) * d && v1 * (g2 * dInv) == (v1 * g2) * dInv
  {
    assert (s1 * h1) * (h2 * s2) == s1 * (h1 * h2) * s2;
  }

  /** Vectors of length one: an inner product is a product. */
  lemma DotSingle(a: seq<int>, b: seq<int>)
    requires |a| == |b| == 1
    ensures Dot(a, b) == a[0] * b[0]
  {
    assert Dot(a[1..], b[1..]) == 0;
  }

  /** What is left after the last round: the folded scalars, and accumulators that are products. */
  lemma LastRound(o: Run, s1Coords: seq<int>, s2Coords: seq<int>)
    requires o.Honest() && |s1Coords| == |s2Coords| == o.n
    requires o.start.s1 == Tensor(s1Coords) && o.start.s2 == Tensor(s2Coords)
    ensures
      var p, a, g1, g2 := o.ProverAt(o.n), o.AccAt(o.n), o.srs.g1(0), o.srs.g2(0);
      && p.Sized(0)
      && p.s1[0] == FoldAcc(o.alpha, s1Coords, o.n) && p.s2[0] == FoldAcc(Inverses(o.alpha, o.r), s2Coords, o.n)
      && Same(a.c, p.v1[0] * p.v2[0], o.r) && Same(a.d1, p.v1[0] * g2, o.r) && Same(a.d2, g1 * p.v2[0], o.r)
      && Same(a.e1, p.v1[0] * p.s2[0], o.r) && Same(a.e2, p.s1[0] * p.v2[0], o.r)
  {
    hide Same, Inv, Dot, Inverses, Replay, FoldAcc;
    var p, a := o.ProverAt(o.n), o.AccAt(o.n);
    ScalarsFold(o, s1Coords, s2Coords, o.n);
    assert s1Coords[..0] == [] && s2Coords[..0] == [];
    AccumulatorsMean(o, o.n);
    DotSingle(p.v1, p.v2);
    DotSingle(p.v1, Prefix(o.srs.g2, 0));
    DotSingle(Prefix(o.srs.g1, 0), p.v2);
    DotSingle(p.v1, p.s2);
    DotSingle(p.s1, p.v2);
  }

  lemma Swap(a: int, b: int, c: int)
    ensures Product(Product(a, b), c) == Product(Product(a, c), b)
  {
  }

  /** The circuit's fields that the final equation reads, after export and loading. */
  ghost predicate FinalFields(o: Run, c: Circuit, s1: int, s2: int, gamma: int, d: int)
    requires o.Valid() && c.Sized(o.n)
  {
    var a := o.AccAt(o.n);
    && c.gamma == gamma && c.d == d
    && c.h1 == o.srs.h1 && c.h2 == o.srs.h2
    && c.g1_0 == o.srs.g1(0) && c.g2_0 == o.srs.g2(0)
    && c.finalE1 == FinalE1(o, gamma)
    && c.finalP1G2 == FinalP1G2(o, gamma, d)
    && c.finalP2G2 == FinalP2G2(o, s1, gamma, d)
    && c.accumE1 == a.e1 && c.checkpointC[o.n - 1] == a.c
    && c.htScaled == Product(Product(c.h1, c.h2), c.sProduct)
    && c.setupChi[0] == Product(c.g1_0, c.g2_0)
    && c.d2Final == Product(a.d2, d)
    && c.d1Final == Product(a.d1, Inv(d, o.r))
    && c.d2InitScaled == Product(Product(c.vmvE1, c.g2_0), Product(d, d) % o.r)
    && Same(c.sProduct, Product(s1, s2), o.r)
  }

  /** What the exported witness holds for the final equation. */
  ghost predicate FinalExported(o: Run, w: Witness, s1: int, s2: int, gamma: int, d: int)
    requires o.Valid() && w.Sized(o.n)
  {
    var t := w.setup;
    && w.gamma == gamma && w.d == d
    && w.vmvE1 == o.init.e1 && w.vmvD2 == o.init.d2
    && w.finalE1 == FinalE1(o, gamma)
    && w.finalP1G2 == FinalP1G2(o, gamma, d)
    && w.finalP2G2 == FinalP2G2(o, s1, gamma, d)
    && FoldAcc(w.alpha, w.s1Coords, o.n) == s1
    && FoldAcc(Inverses(w.alpha, o.r), w.s2Coords, o.n) == s2
    && t.chi[0] == Product(t.g1_0, t.g2_0)
    && t.ht == Product(t.h1, t.h2)
    && t.g1_0 == o.srs.g1(0) && t.g2_0 == o.srs.g2(0)
    && t.h1 == o.srs.h1 && t.h2 == o.srs.h2
  }

  lemma FinalExportedHolds(o: Run, s1Coords: seq<int>, s2Coords: seq<int>, gamma: int, d: int)
    requires o.Valid() && |s1Coords| == |s2Coords| == o.n
    ensures
      var s1, s2 := FoldAcc(o.alpha, s1Coords, o.n), FoldAcc(Inverses(o.alpha, o.r), s2Coords, o.n);
      FinalExported(o, Export(o, s1Coords, s2Coords, gamma, d), s1, s2, gamma, d)
  {
    assert o.srs.Chi(0) == Product(o.srs.g1(0), o.srs.g2(0));
    hide Product, FoldAcc, Inverses, Run.FirstAt, Run.SecondAt, Run.ProverAt, Run.AccAt, Pow2,
         Srs.Chi, Srs.Delta1R, Srs.Delta2R, FinalE1, FinalP1G2, FinalP2G2;
  }

  lemma LastRoundFields(o: Run, w: Witness)
    requires o.Valid() && w.Sized(o.n) && RoundFields(o, w, o.n - 1)
    ensures
      var a, last := o.AccAt(o.n), o.n - 1;
      w.debugC[last] == a.c && w.debugD1[last] == a.d1 && w.debugD2[last] == a.d2
  {
    hide Run.AccAt, Run.ProverAt, Pow2;
  }

  lemma FinalFieldsHold(o: Run, w: Witness, c: Circuit, s1: int, s2: int, gamma: int, d: int)
    requires o.Valid() && w.Sized(o.n) && o.init.d2 == Product(o.init.e1, o.srs.g2(0))
    requires FinalExported(o, w, s1, s2, gamma, d) && IsAssignment(w, c, o.n, o.r)
    requires
      var a, last := o.AccAt(o.n), o.n - 1;
      && w.debugC[last] == a.c && w.debugD1[last] == a.d1 && w.debugD2[last] == a.d2
      && AccumE1(w, o.n, o.n, o.r) == a.e1
    ensures FinalFields(o, c, s1, s2, gamma, d)
  {
    hide Product, Same, Inv, FoldAcc, Inverses, Run.ProverAt, Run.AccAt, AccumE1, FinalE1, FinalP1G2, FinalP2G2;
    assert c.setupChi[0] == w.setup.chi[0] && c.checkpointC[o.n - 1] == w.debugC[o.n - 1];
    hide RoundsAssigned;
  }

  /** The final equation in terms of the circuit's fields. */
  lemma PairingFromFields(o: Run, c: Circuit, s1: int, s2: int, gamma: int, d: int)
    requires o.Valid() && c.Sized(o.n) && Invertible(gamma, o.r) && Invertible(d, o.r)
    requires FinalFields(o, c, s1, s2, gamma, d)
    requires
      var p, a := o.ProverAt(o.n), o.AccAt(o.n);
      && p.s1[0] == s1 && p.s2[0] == s2
      && Same(a.c, p.v1[0] * p.v2[0], o.r) && Same(a.d1, p.v1[0] * c.g2_0, o.r) && Same(a.d2, c.g1_0 * p.v2[0], o.r)
      && Same(a.e1, p.v1[0] * s2, o.r) && Same(a.e2, s1 * p.v2[0], o.r)
    ensures FinalPairing(c, s1, s2, o.n, o.r)
  {
    hide Same, Invertible, Run.ProverAt, Run.AccAt, Pow2;
    var p, a := o.ProverAt(o.n), o.AccAt(o.n);
    var v1, v2, yInv, dInv := p.v1[0], p.v2[0], Inv(gamma, o.r), Inv(d, o.r);
    hide Inv;
    FinalEquation(v1, v2, s1, s2, c.g1_0, c.g2_0, c.h1, c.h2, gamma, yInv, d, dInv, a, c.sProduct, c.d2InitScaled, o.r);
    Swap(c.vmvE1, c.g2_0, Product(d, d) % o.r);
  }

  /** The final pairing equation holds for an honest run, exported and loaded. */
  lemma FinalPairingHolds(o: Run, w: Witness, c: Circuit, s1Coords: seq<int>, s2Coords: seq<int>, gamma: int, d: int)
    requires o.Honest() && |s1Coords| == |s2Coords| == o.n && Invertible(gamma, o.r) && Invertible(d, o.r)
    requires o.start.s1 == Tensor(s1Coords) && o.start.s2 == Tensor(s2Coords)
    requires o.init.d2 == Product(o.init.e1, o.srs.g2(0))
    requires w == Export(o, s1Coords, s2Coords, gamma, d) && IsAssignment(w, c, o.n, o.r)
    ensures FinalPairing(c, FoldAcc(o.alpha, s1Coords, o.n), FoldAcc(Inverses(o.alpha, o.r), s2Coords, o.n), o.n, o.r)
  {
    LastRound(o, s1Coords, s2Coords);
    LoaderTracks(o, w, s1Coords, s2Coords, gamma, d);
    LastRoundFields(o, w);
    FinalExportedHolds(o, s1Coords, s2Coords, gamma, d);
    hide Product, Same, Inv, FoldAcc, Dot, Srs.Chi, Inverses, Run.ProverAt, Run.AccAt, Invertible, Pow2, Tensor,
         Run.Honest,
         FinalPairing, Export, FinalE1, FinalP1G2, FinalP2G2, FinalExported, IsAssignment, RoundFields, AccumE1;
    var s1, s2 := FoldAcc(o.alpha, s1Coords, o.n), FoldAcc(Inverses(o.alpha, o.r), s2Coords, o.n);
    FinalFieldsHold(o, w, c, s1, s2, gamma, d);
    PairingFromFields(o, c, s1, s2, gamma, d);
  }

  /** An honest run from Lagrange vectors, exported and loaded, satisfies every constraint. */
  lemma HonestRunAccepted(o: Run, w: Witness, c: Circuit, s1Coords: seq<int>, s2Coords: seq<int>, gamma: int, d: int)
    requires o.Honest() && |s1Coords| == |s2Coords| == o.n && Invertible(gamma, o.r) && Invertible(d, o.r)
    requires o.start.s1 == Tensor(s1Coords) && o.start.s2 == Tensor(s2Coords)
    requires o.init.d2 == Product(o.init.e1, o.srs.g2(0))
    requires w == Export(o, s1Coords, s2Coords, gamma, d) && IsAssignment(w, c, o.n, o.r)
    ensures Accepts(c, o.n, o.r)
  {
    hide Product, Same, Inv, FoldAcc, Dot, Inverses, Run.ProverAt, Run.AccAt, Invertible, Pow2, Tensor, FinalPairing,
        Checkpoint,
         RoundFields, ScaledRound, AccumE1, Acc.Means;
    LoaderTracks(o, w, s1Coords, s2Coords, gamma, d);
    FinalPairingHolds(o, w, c, s1Coords, s2Coords, gamma, d);
    forall i | 0 <= i < o.n
      ensures Invertible(c.alpha[i], o.r) && Checkpoint(c, i, o.n, o.r)
    {
      CheckpointHolds(o, w, c, i);
    }
    SameSym(c.sProduct, Product(FoldAcc(o.alpha, s1Coords, o.n), FoldAcc(Inverses(o.alpha, o.r), s2Coords, o.n)), o.r);
  }

  lemma LoaderTracks(o: Run, w: Witness, s1Coords: seq<int>, s2Coords: seq<int>, gamma: int, d: int)
    requires o.Valid() && |s1Coords| == |s2Coords| == o.n && w == Export(o, s1Coords, s2Coords, gamma, d)
    ensures AccumE1(w, o.n, o.n, o.r) == o.AccAt(o.n).e1
    ensures forall i | 0 <= i < o.n :: RoundFields(o, w, i)
  {
    hide Export, RoundFields;
    forall i | 0 <= i < o.n
      ensures RoundFields(o, w, i)
    {
      ExportFields(o, s1Coords, s2Coords, gamma, d, i);
    }
    LoaderTracksE1(o, w, o.n);
  }

  lemma OpeningStart(o: Opening)
    requires o.Valid()
    ensures o.Start().s1 == Tensor(o.colPoint) && o.Start().s2 == Tensor(o.rowPoint)
  {
    hide Tensor, Scale, Opening.RowCommitments, Opening.ColumnEvaluations;
  }

  /** Completeness: for every coefficient matrix, point, generators and invertible challenges, the
      opening proof, exported and loaded, makes the circuit accept. */
  lemma HonestOpeningAccepted(o: Opening, alpha: seq<int>, beta: seq<int>, gamma: int, d: int, r: int, c: Circuit)
    requires o.Valid() && r > 0 && |alpha| == |beta| == o.n
    requires forall i | 0 <= i < o.n :: Invertible(alpha[i], r) && Invertible(beta[i], r)
    requires Invertible(gamma, r) && Invertible(d, r)
    requires
      var run := Run(o.srs, o.n, r, o.Start(), o.Initial(), alpha, beta);
      IsAssignment(Export(run, o.colPoint, o.rowPoint, gamma, d), c, o.n, r)
    ensures Accepts(c, o.n, r)
  {
    hide Acc.Means, Export, IsAssignment, Invertible, Accepts, Tensor, Opening.Initial, Opening.Evaluation;
    hide Opening.RowCommitments, Opening.ColumnEvaluations, Pow2, Scale, Product;
    StartMeans(o, r);
    OpeningStart(o);
    hide Opening.Start;
    var run := Run(o.srs, o.n, r, o.Start(), o.Initial(), alpha, beta);
    HonestRunAccepted(run, Export(run, o.colPoint, o.rowPoint, gamma, d), c, o.colPoint, o.rowPoint, gamma, d);
  }

  /** Prover, exporter, loader and circuit in a row: an opening is accepted exactly if every challenge
      has an inverse. */
  method ProveLoadAndCheck(o: Opening, alpha: seq<int>, beta: seq<int>, gamma: int, d: int, r: int) returns (ok: bool)
    requires o.Valid() && r > 0 && |alpha| == |beta| == o.n
    ensures ok
      <==>
      && Invertible(gamma, r)
      && Invertible(d, r)
      && forall i | 0 <= i < o.n :: Invertible(alpha[i], r) && Invertible(beta[i], r)
  {
    hide Opening.Start, Opening.Initial, IsAssignment, Accepts, Invertible, Run.ProverAt, Run.AccAt, Pow2;
    hide Witness.Front;
    var run := Run(o.srs, o.n, r, o.Start(), o.Initial(), alpha, beta);
    var w := Export(run, o.colPoint, o.rowPoint, gamma, d);
    ExportedChallenges(run, o.colPoint, o.rowPoint, gamma, d);
    hide Export;
    var loaded := AssignWitness(w, o.n, r);
    if !loaded.Loaded? {
      return false;
    }
    var c := loaded.c;
    LoadedGamma(w, c, o.n, r);
    ok := Define(c, o.n, r);
    AcceptsGamma(c, o.n, r);
    if Invertible(gamma, r) {
      HonestOpeningAccepted(o, alpha, beta, gamma, d, r, c);
    }
  }

  lemma ExportedChallenges(o: Run, s1Coords: seq<int>, s2Coords: seq<int>, gamma: int, d: int)
    requires o.Valid() && |s1Coords| == |s2Coords| == o.n
    ensures
      var w := Export(o, s1Coords, s2Coords, gamma, d);
      w.alpha == o.alpha && w.beta == o.beta && w.gamma == gamma && w.d == d
  {
  }

  lemma AcceptsGamma(c: Circuit, n: nat, r: int)
    requires r > 0 && c.Sized(n)
    ensures Accepts(c, n, r) ==> Invertible(c.gamma, r)
  {
    hide Checkpoint, FinalPairing, Same, FoldAcc;
  }

  lemma LoadedGamma(w: Witness, c: Circuit, n: nat, r: int)
    requires r > 0 && w.Sized(n) && IsAssignment(w, c, n, r)
    ensures c.Sized(n) && c.gamma == w.gamma
  {
    hide RoundsAssigned;
  }
}
