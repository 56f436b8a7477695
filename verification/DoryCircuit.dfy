/** The exported witness, the loader that completes it and the wrapper circuit that
    checks it, with the round count as a parameter n. */
module DoryCircuit {
  import opened Bits
  import opened Zr
  import opened DoryProtocol

  datatype Tables = Tables(
    chi: seq<int>, delta1L: seq<int>, delta1R: seq<int>, delta2L: seq<int>, delta2R: seq<int>,
    g1_0: int, g2_0: int, h1: int, h2: int, ht: int)

  /** The JSON witness. */
  datatype Witness = Witness(
    numRounds: int, alpha: seq<int>, beta: seq<int>, gamma: int, d: int, s1Coords: seq<int>, s2Coords: seq<int>,
    commitment: int, vmvC: int, vmvD2: int, vmvE1: int, first: seq<First>, second: seq<Second>,
    finalE1: int, finalP1G2: int, finalP2G2: int,
    debugC: seq<int>, debugD1: seq<int>, debugD2: seq<int>, setup: Tables)
  {
    predicate Sized(n: nat) {
      && n >= 1
      && |alpha| == |beta| == |s1Coords| == |s2Coords| == |first| == |second| == n
      && |debugC| == |debugD1| == |debugD2| == n
      && |setup.chi| == |setup.delta1L| == |setup.delta1R| == |setup.delta2L| == |setup.delta2R| == n + 1
    }

    /** Lists may be longer than the circuit needs. */
    predicate Long(n: nat) {
      && n >= 1
      && |alpha| >= n && |beta| >= n && |s1Coords| >= n && |s2Coords| >= n && |first| >= n && |second| >= n
      && |debugC| >= n && |debugD1| >= n && |debugD2| >= n && |setup.chi| > n
      && |setup.delta1L| > n && |setup.delta1R| > n && |setup.delta2L| > n && |setup.delta2R| > n
    }

    /** The entries that n rounds look at. */
    function Front(n: nat): (w: Witness)
      requires Long(n)
      ensures w.Sized(n) && (Sized(n) ==> w == this)
    {
      var t := setup.(chi := setup.chi[..n + 1], delta1L := setup.delta1L[..n + 1], delta1R := setup.delta1R[..n + 1],
                      delta2L := setup.delta2L[..n + 1], delta2R := setup.delta2R[..n + 1]);
      this.(alpha := alpha[..n], beta := beta[..n], s1Coords := s1Coords[..n], s2Coords := s2Coords[..n],
            first := first[..n], second := second[..n], debugC := debugC[..n], debugD1 := debugD1[..n],
            debugD2 := debugD2[..n], setup := t)
    }

    /** The entries that are looked at are the first ones of every list. */
    lemma FrontIsFirst(n: nat)
      requires Long(n)
      ensures
        var w := Front(n);
        && w.alpha <= alpha && w.beta <= beta && w.s1Coords <= s1Coords && w.s2Coords <= s2Coords
        && w.first <= first && w.second <= second
        && w.debugC <= debugC && w.debugD1 <= debugD1 && w.debugD2 <= debugD2
        && w.setup.chi <= setup.chi
        && w.setup.delta1L <= setup.delta1L && w.setup.delta1R <= setup.delta1R
        && w.setup.delta2L <= setup.delta2L && w.setup.delta2R <= setup.delta2R
    {
    }

    predicate InvertibleChallenges(n: nat, r: int)
      requires r > 0 && Sized(n)
    {
      && (forall i | 0 <= i < n :: Invertible(alpha[i], r) && Invertible(beta[i], r))
      && Invertible(d, r)
    }
  }

  /** GT exponentiation results the loader computes for one round. */
  datatype Scaled = Scaled(
    d2: int, d1: int, cp: int, cm: int,
    d1L: int, d1LSetup: int, d1RSetup: int, d2L: int, d2LSetup: int, d2RSetup: int)

  datatype Circuit = Circuit(
    alpha: seq<int>, gamma: int, d: int, s1Coords: seq<int>, s2Coords: seq<int>, sProduct: int,
    vmvC: int, vmvE1: int, d1Right: seq<int>, d2Right: seq<int>, accumE1: int,
    finalE1: int, finalP1G2: int, finalP2G2: int, scaled: seq<Scaled>,
    htScaled: int, d2Final: int, d1Final: int, d2InitScaled: int,
    checkpointC: seq<int>, checkpointD1: seq<int>, checkpointD2: seq<int>,
    setupChi: seq<int>, g1_0: int, g2_0: int, h1: int, h2: int)
  {
    predicate Sized(n: nat) {
      && n >= 1
      && |alpha| == |s1Coords| == |s2Coords| == |d1Right| == |d2Right| == |scaled| == n
      && |checkpointC| == |checkpointD1| == |checkpointD2| == n && |setupChi| == n + 1
    }
  }

  /** A list that is too short and a challenge without inverse make the loader panic. */
  datatype Loaded = Loaded(c: Circuit) | WrongRoundCount | Panic

  /** The loader's scaled values for round index i. */
  function ScaledRound(w: Witness, i: nat, n: nat, r: int): Scaled
    requires r > 0 && w.Sized(n) && i < n
  {
    var a, b, aInv, bInv := w.alpha[i], w.beta[i], Inv(w.alpha[i], r), Inv(w.beta[i], r);
    Scaled(Product(if i == 0 then w.vmvD2 else w.debugD2[i - 1], b),
           Product(if i == 0 then w.commitment else w.debugD1[i - 1], bInv),
           Product(w.second[i].cPlus, a), Product(w.second[i].cMinus, aInv),
           Product(w.first[i].d1Left, a), Product(w.setup.delta1L[n - i], Product(a, b) % r),
           Product(w.setup.delta1R[n - i], b),
           Product(w.first[i].d2Left, aInv), Product(w.setup.delta2L[n - i], Product(aInv, bInv) % r),
           Product(w.setup.delta2R[n - i], bInv))
  }

  /** E1 after the first i rounds. */
  function AccumE1(w: Witness, i: nat, n: nat, r: int): int
    requires r > 0 && w.Sized(n) && i <= n
  {
    if i == 0 then w.vmvE1
    else
      AccumE1(w, i - 1, n, r) + Product(w.first[i - 1].e1Beta, w.beta[i - 1])
      + Product(w.second[i - 1].e1Plus, w.alpha[i - 1]) + Product(w.second[i - 1].e1Minus, Inv(w.alpha[i - 1], r))
  }

  /** The product of the first i folding factors k * (1 - x) + x, coordinates taken from the top,
      in the integers. */
  function FoldAcc(ks: seq<int>, xs: seq<int>, i: nat): int
    requires i <= |ks| == |xs|
  {
    if i == 0 then 1
    else
      var x := xs[|xs| - i];
      FoldAcc(ks, xs, i - 1) * (ks[i - 1] * (1 - x) + x)
  }

  function Inverses(a: seq<int>, r: int): (b: seq<int>)
    requires r > 0
    ensures |b| == |a|
  {
    seq(|a|, i requires 0 <= i < |a| => Inv(a[i], r))
  }

  /** What the loader puts in the circuit for each round. */
  ghost predicate RoundsAssigned(w: Witness, c: Circuit, n: nat, r: int)
    requires r > 0 && w.Sized(n) && c.Sized(n)
  {
    && c.alpha == w.alpha && c.s1Coords == w.s1Coords && c.s2Coords == w.s2Coords && c.vmvC == w.vmvC
    && (forall i | 0 <= i < n :: c.d1Right[i] == w.first[i].d1Right && c.d2Right[i] == w.first[i].d2Right)
    && (forall i | 0 <= i < n :: c.scaled[i] == ScaledRound(w, i, n, r))
    && c.checkpointC == w.debugC && c.checkpointD1 == w.debugD1 && c.checkpointD2 == w.debugD2
    && c.setupChi == w.setup.chi
  }

  /** What the loader puts in the circuit for the final equation. */
  ghost predicate FinalAssigned(w: Witness, c: Circuit, n: nat, r: int)
    requires r > 0 && w.Sized(n)
  {
    && c.gamma == w.gamma && c.d == w.d && c.vmvE1 == w.vmvE1 && c.accumE1 == AccumE1(w, n, n, r)
    && Same(c.sProduct, Product(FoldAcc(w.alpha, w.s1Coords, n), FoldAcc(Inverses(w.alpha, r), w.s2Coords, n)), r)
    && c.finalE1 == w.finalE1 && c.finalP1G2 == w.finalP1G2 && c.finalP2G2 == w.finalP2G2
    && c.htScaled == Product(w.setup.ht, c.sProduct)
    && c.d2Final == Product(w.debugD2[n - 1], w.d) && c.d1Final == Product(w.debugD1[n - 1], Inv(w.d, r))
    && c.d2InitScaled == Product(w.vmvD2, Product(w.d, w.d) % r)
    && c.g1_0 == w.setup.g1_0 && c.g2_0 == w.setup.g2_0 && c.h1 == w.setup.h1 && c.h2 == w.setup.h2
  }

  /** Everything the loader puts in the circuit. */
  ghost predicate IsAssignment(w: Witness, c: Circuit, n: nat, r: int)
    requires r > 0 && w.Sized(n)
  {
    c.Sized(n) && RoundsAssigned(w, c, n, r) && FinalAssigned(w, c, n, r)
  }

  /** Reducing each intermediate value does not change a folding factor. */
  lemma ReducedFactor(k: int, x: int, u: int, f: int, r: int)
    requires r > 0 && u == (1 - x) % r && f == k * u + x
    ensures Same(f % r, k * (1 - x) + x, r)
  {
    hide Same;
    SameMod(1 - x, r);
    SameRefl(k, r);
    SameMul(k, k, u, 1 - x, r);
    SameRefl(x, r);
    SameAdd(k * u, k * (1 - x), x, x, r);
    SameMod(f, r);
    SameTrans(f % r, f, k * (1 - x) + x, r);
  }

  lemma ReducedProduct(acc: int, exact: int, f: int, g: int, r: int)
    requires r > 0 && Same(acc, exact, r) && Same(f, g, r)
    ensures Same((acc * f) % r, exact * g, r)
  {
    hide Same;
    SameMul(acc, exact, f, g, r);
    SameMod(acc * f, r);
    SameTrans((acc * f) % r, acc * f, exact * g, r);
  }

  lemma FoldAccStart(ks: seq<int>, xs: seq<int>)
    requires |ks| == |xs|
    ensures FoldAcc(ks, xs, 0) == 1
  {
  }

  /** Multiplying in the next factor, or anything congruent to it, advances the folded product. */
  lemma FoldAccNext(acc: int, f: int, ks: seq<int>, xs: seq<int>, i: nat, r: int)
    requires r > 0 && i < |ks| == |xs| && Same(acc, FoldAcc(ks, xs, i), r)
    requires var x := xs[|xs| - 1 - i]; Same(f, ks[i] * (1 - x) + x, r)
    ensures Same((acc * f) % r, FoldAcc(ks, xs, i + 1), r)
  {
    hide Same;
    var x := xs[|xs| - 1 - i];
    ReducedProduct(acc, FoldAcc(ks, xs, i), f, ks[i] * (1 - x) + x, r);
  }

  /** The loader's exponentiations for one round; the challenges must have inverses. */
  method ScaleRound(w: Witness, i: nat, n: nat, r: int) returns (ok: bool, scaled: Scaled)
    requires r > 0 && w.Sized(n) && i < n
    ensures ok == (Invertible(w.alpha[i], r) && Invertible(w.beta[i], r))
    ensures ok ==> scaled == ScaledRound(w, i, n, r)
  {
    hide Product;
    var alpha, beta := w.alpha[i], w.beta[i];
    var alphaInv, betaInv := ModInverse(alpha, r), ModInverse(beta, r);
    if alphaInv.None? || betaInv.None? {
      return false, Scaled(0, 0, 0, 0, 0, 0, 0, 0, 0, 0);
    }
    var alphaBeta := Product(alpha, beta) % r;
    var alphaInvBetaInv := Product(alphaInv.value, betaInv.value) % r;
    var round := n - i;
    var fm, sm := w.first[i], w.second[i];
    var d2Scaled, d1Scaled := Product(w.vmvD2, beta), Product(w.commitment, betaInv.value);
    if i != 0 {
      d2Scaled, d1Scaled := Product(w.debugD2[i - 1], beta), Product(w.debugD1[i - 1], betaInv.value);
    }
    ok, scaled := true, Scaled(
      d2Scaled, d1Scaled, Product(sm.cPlus, alpha), Product(sm.cMinus, alphaInv.value),
      Product(fm.d1Left, alpha), Product(w.setup.delta1L[round], alphaBeta), Product(w.setup.delta1R[round], beta),
      Product(fm.d2Left, alphaInv.value), Product(w.setup.delta2L[round], alphaInvBetaInv),
      Product(w.setup.delta2R[round], betaInv.value));
  }

  /** The loader's round loop: exponentiations and the running E1 point. */
  method ScaleRounds(w: Witness, n: nat, r: int) returns (ok: bool, scaled: seq<Scaled>, accumE1: int)
    requires r > 0 && w.Sized(n)
    ensures ok == forall i | 0 <= i < n :: Invertible(w.alpha[i], r) && Invertible(w.beta[i], r)
    ensures ok ==> |scaled| == n && forall i | 0 <= i < n :: scaled[i] == ScaledRound(w, i, n, r)
    ensures ok ==> accumE1 == AccumE1(w, n, n, r)
  {
    hide Product, ScaledRound, Invertible, Inv;
    accumE1, scaled := w.vmvE1, [];
    for i := 0 to n
      invariant forall j | 0 <= j < i :: Invertible(w.alpha[j], r) && Invertible(w.beta[j], r)
      invariant |scaled| == i && forall j | 0 <= j < i :: scaled[j] == ScaledRound(w, j, n, r)
      invariant accumE1 == AccumE1(w, i, n, r)
    {
      var invertible, s := ScaleRound(w, i, n, r);
      if !invertible {
        return false, [], 0;
      }
      scaled := scaled + [s];
      var alpha, beta, fm, sm := w.alpha[i], w.beta[i], w.first[i], w.second[i];
      accumE1 := accumE1 + Product(fm.e1Beta, beta);
      accumE1 := accumE1 + Product(sm.e1Plus, alpha);
      accumE1 := accumE1 + Product(sm.e1Minus, Inv(alpha, r));
    }
    ok := true;
  }

  /** One factor of the native folding, with every intermediate value reduced. */
  method FoldFactor(acc: int, k: int, x: int, r: int, ghost ks: seq<int>, ghost xs: seq<int>, ghost i: nat)
      returns (next: int)
    requires r > 0 && i < |ks| == |xs| && k == ks[i] && x == xs[|xs| - 1 - i] && Same(acc, FoldAcc(ks, xs, i), r)
    ensures Same(next, FoldAcc(ks, xs, i + 1), r)
  {
    hide Same, FoldAcc;
    var oneMinusX := (1 - x) % r;
    var factor := k * oneMinusX + x;
    ReducedFactor(k, x, oneMinusX, factor, r);
    factor := factor % r;
    FoldAccNext(acc, factor, ks, xs, i, r);
    next := (acc * factor) % r;
  }

  /** The loader's native folding of the evaluation coordinates. */
  method FoldScalars(w: Witness, n: nat, r: int) returns (sProduct: int)
    requires r > 0 && w.Sized(n)
    ensures Same(sProduct, Product(FoldAcc(w.alpha, w.s1Coords, n), FoldAcc(Inverses(w.alpha, r), w.s2Coords, n)), r)
  {
    hide Same, Inv, FoldAcc;
    var s1Acc, s2Acc := 1, 1;
    SameRefl(1, r);
    ghost var inverses := Inverses(w.alpha, r);
    FoldAccStart(w.alpha, w.s1Coords);
    FoldAccStart(inverses, w.s2Coords);
    for i := 0 to n
      invariant Same(s1Acc, FoldAcc(w.alpha, w.s1Coords, i), r)
      invariant Same(s2Acc, FoldAcc(inverses, w.s2Coords, i), r)
    {
      var coordIdx := n - 1 - i;
      var alpha, alphaInv := w.alpha[i], Inv(w.alpha[i], r);
      s1Acc := FoldFactor(s1Acc, alpha, w.s1Coords[coordIdx], r, w.alpha, w.s1Coords, i);
      s2Acc := FoldFactor(s2Acc, alphaInv, w.s2Coords[coordIdx], r, inverses, w.s2Coords, i);
    }
    SameProduct(s1Acc, FoldAcc(w.alpha, w.s1Coords, n), s2Acc, FoldAcc(inverses, w.s2Coords, n), r);
    sProduct := (s1Acc * s2Acc) % r;
  }

  lemma SameProduct(a: int, s1: int, b: int, s2: int, r: int)
    requires r > 0 && Same(a, s1, r) && Same(b, s2, r)
    ensures Same((a * b) % r, Product(s1, s2), r)
  {
    hide Same;
    SameMul(a, s1, b, s2, r);
    SameMod(a * b, r);
    SameTrans((a * b) % r, a * b, s1 * s2, r);
  }

  /** The loader: completes a witness into a circuit assignment. */
  method AssignWitness(json: Witness, n: nat, r: int) returns (res: Loaded)
    requires r > 0 && n >= 1
    ensures res.WrongRoundCount? <==> json.numRounds != n
    ensures res.Loaded? <==>
      json.numRounds == n && json.Long(n) && json.Front(n).InvertibleChallenges(n, r)
    ensures res.Loaded? ==> IsAssignment(json.Front(n), res.c, n, r)
  {
    hide Product, Witness.Front;
    if json.numRounds != n {
      return WrongRoundCount;
    }
    if !json.Long(n) {
      return Panic;
    }
    var w := json.Front(n);
    var ok, scaled, accumE1 := ScaleRounds(w, n, r);
    var dInv := ModInverse(w.d, r);
    if !ok || dInv.None? {
      return Panic;
    }
    var sProduct := FoldScalars(w, n, r);
    var last := n - 1;
    res := Loaded(Circuit(
      w.alpha, w.gamma, w.d, w.s1Coords, w.s2Coords, sProduct, w.vmvC, w.vmvE1,
      seq(n, i requires 0 <= i < n => w.first[i].d1Right), seq(n, i requires 0 <= i < n => w.first[i].d2Right), accumE1,
      w.finalE1, w.finalP1G2, w.finalP2G2, scaled,
      Product(w.setup.ht, sProduct), Product(w.debugD2[last], w.d), Product(w.debugD1[last], dInv.value),
      Product(w.vmvD2, Product(w.d, w.d) % r),
      w.debugC, w.debugD1, w.debugD2, w.setup.chi, w.setup.g1_0, w.setup.g2_0, w.setup.h1, w.setup.h2));
  }

  /** The three checkpoint equations of round index i. */
  predicate Checkpoint(c: Circuit, i: nat, n: nat, r: int)
    requires r > 0 && c.Sized(n) && i < n
  {
    var s, gtC := c.scaled[i], if i == 0 then c.vmvC else c.checkpointC[i - 1];
    && Same(gtC + c.setupChi[n - i] + s.d2 + s.d1 + s.cp + s.cm, c.checkpointC[i], r)
    && Same(s.d1L + c.d1Right[i] + s.d1LSetup + s.d1RSetup, c.checkpointD1[i], r)
    && Same(s.d2L + c.d2Right[i] + s.d2LSetup + s.d2RSetup, c.checkpointD2[i], r)
  }

  /** The four-pairing equation, for given folded scalars s1 and s2. */
  predicate FinalPairing(c: Circuit, s1: int, s2: int, n: nat, r: int)
    requires r > 0 && c.Sized(n) && Invertible(c.gamma, r)
  {
    Same(Product(c.finalE1 + Product(c.g1_0, c.d), c.finalP1G2)
         + Product(c.h1, c.finalP2G2)
         + Product(Product(c.accumE1 + Product(c.g1_0, Product(c.d, s2) % r), (-Inv(c.gamma, r)) % r), c.h2)
         + Product(Product(c.vmvE1, Product(c.d, c.d) % r), c.g2_0),
         c.checkpointC[n - 1] + c.htScaled + c.setupChi[0] + c.d2Final + c.d1Final + c.d2InitScaled, r)
  }

  /** The circuit's constraints, without the input hash. */
  ghost predicate Accepts(c: Circuit, n: nat, r: int)
    requires r > 0 && c.Sized(n)
  {
    && (forall i | 0 <= i < n :: Invertible(c.alpha[i], r) && Checkpoint(c, i, n, r))
    && Invertible(c.gamma, r)
    && var s1, s2 := FoldAcc(c.alpha, c.s1Coords, n), FoldAcc(Inverses(c.alpha, r), c.s2Coords, n);
    && Same(Product(s1, s2), c.sProduct, r)
    && FinalPairing(c, s1, s2, n, r)
  }

  /** The same assignment but for the checkpoints and the public product. */
  predicate OtherChecks(c: Circuit, e: Circuit) {
    e == c.(checkpointC := e.checkpointC, checkpointD1 := e.checkpointD1, checkpointD2 := e.checkpointD2,
            sProduct := e.sProduct)
  }

  /** Checkpoints and public product are congruent, entry by entry. */
  predicate SameChecks(c: Circuit, e: Circuit, n: nat, r: int)
    requires r > 0 && c.Sized(n) && e.Sized(n)
  {
    && (forall i | 0 <= i < n :: SameCheckpoint(c, e, i, n, r))
    && Same(e.sProduct, c.sProduct, r)
  }

  predicate SameCheckpoint(c: Circuit, e: Circuit, i: nat, n: nat, r: int)
    requires r > 0 && c.Sized(n) && e.Sized(n) && i < n
  {
    && Same(e.checkpointC[i], c.checkpointC[i], r)
    && Same(e.checkpointD1[i], c.checkpointD1[i], r)
    && Same(e.checkpointD2[i], c.checkpointD2[i], r)
  }

  /** Where one value passes, another does exactly if it is congruent. */
  lemma Passes(computed: int, computed': int, check: int, check': int, r: int)
    requires r > 0 && Same(computed, check, r) && Same(computed', computed, r)
    ensures Same(computed', check', r) <==> Same(check', check, r)
  {
    hide Same;
    SameSym(computed, check, r);
    SameSym(computed', computed, r);
    if Same(computed', check', r) {
      SameSym(computed', check', r);
      SameTrans(check', computed', computed, r);
      SameTrans(check', computed, check, r);
    }
    if Same(check', check, r) {
      SameSym(check', check, r);
      SameTrans(computed', computed, check, r);
      SameTrans(computed', check, check', r);
    }
  }

  /** One round passes with other checkpoints exactly if they are congruent, provided the checkpoint before is. */
  lemma CheckpointDetermined(c: Circuit, e: Circuit, i: nat, n: nat, r: int)
    requires r > 0 && c.Sized(n) && e.Sized(n) && OtherChecks(c, e) && i < n && Checkpoint(c, i, n, r)
    requires i > 0 ==> SameCheckpoint(c, e, i - 1, n, r)
    ensures Checkpoint(e, i, n, r) <==> SameCheckpoint(c, e, i, n, r)
  {
    hide Same;
    var s, s' := c.scaled[i], e.scaled[i];
    var gtC, gtC' := if i == 0 then c.vmvC else c.checkpointC[i - 1], if i == 0 then e.vmvC else e.checkpointC[i - 1];
    SameRefl(c.vmvC, r);
    var rest := c.setupChi[n - i] + s.d2 + s.d1 + s.cp + s.cm;
    SameRefl(rest, r);
    SameAdd(gtC', gtC, rest, rest, r);
    var d1, d2 := s.d1L + c.d1Right[i] + s.d1LSetup + s.d1RSetup, s.d2L + c.d2Right[i] + s.d2LSetup + s.d2RSetup;
    SameRefl(d1, r);
    SameRefl(d2, r);
    Passes(gtC + rest, gtC' + rest, c.checkpointC[i], e.checkpointC[i], r);
    Passes(d1, d1, c.checkpointD1[i], e.checkpointD1[i], r);
    Passes(d2, d2, c.checkpointD2[i], e.checkpointD2[i], r);
  }

  lemma {:induction false} RoundsDetermined(c: Circuit, e: Circuit, k: nat, n: nat, r: int)
    requires r > 0 && c.Sized(n) && e.Sized(n) && OtherChecks(c, e) && k <= n
    requires forall i | 0 <= i < n :: Checkpoint(c, i, n, r)
    ensures (forall i | 0 <= i < k :: Checkpoint(e, i, n, r))
      <==> (forall i | 0 <= i < k :: SameCheckpoint(c, e, i, n, r))
  {
    hide Checkpoint, SameCheckpoint;
    if k > 0 {
      RoundsDetermined(c, e, k - 1, n, r);
      if forall i | 0 <= i < k - 1 :: SameCheckpoint(c, e, i, n, r) {
        CheckpointDetermined(c, e, k - 1, n, r);
      }
    }
  }

  /** The final section passes with other checks exactly if the product is congruent, given the last checkpoint. */
  lemma FinalDetermined(c: Circuit, e: Circuit, s1: int, s2: int, n: nat, r: int)
    requires r > 0 && c.Sized(n) && e.Sized(n) && OtherChecks(c, e) && Invertible(c.gamma, r)
    requires Same(e.checkpointC[n - 1], c.checkpointC[n - 1], r) && FinalPairing(c, s1, s2, n, r)
    ensures FinalPairing(e, s1, s2, n, r)
  {
    hide Same, Product, Inv, ModInverse;
    var rest := c.htScaled + c.setupChi[0] + c.d2Final + c.d1Final + c.d2InitScaled;
    var left := Product(c.finalE1 + Product(c.g1_0, c.d), c.finalP1G2) + Product(c.h1, c.finalP2G2)
      + Product(Product(c.accumE1 + Product(c.g1_0, Product(c.d, s2) % r), (-Inv(c.gamma, r)) % r), c.h2)
      + Product(Product(c.vmvE1, Product(c.d, c.d) % r), c.g2_0);
    SameRefl(rest, r);
    SameRefl(left, r);
    SameAdd(e.checkpointC[n - 1], c.checkpointC[n - 1], rest, rest, r);
    Passes(left, left, c.checkpointC[n - 1] + rest, e.checkpointC[n - 1] + rest, r);
  }

  /**
   * An accepted assignment determines what it is checked against: with other checkpoints or another public product
   * it is accepted exactly if these are congruent to the old ones, every entry.
   */
  lemma ChecksDetermined(c: Circuit, e: Circuit, n: nat, r: int)
    requires r > 0 && c.Sized(n) && e.Sized(n) && OtherChecks(c, e) && Accepts(c, n, r)
    ensures Accepts(e, n, r) <==> SameChecks(c, e, n, r)
  {
    hide Same, Product, Inv, ModInverse, Checkpoint, SameCheckpoint, FinalPairing, FoldAcc, Inverses;
    RoundsDetermined(c, e, n, n, r);
    var s1, s2 := FoldAcc(c.alpha, c.s1Coords, n), FoldAcc(Inverses(c.alpha, r), c.s2Coords, n);
    SameRefl(Product(s1, s2), r);
    Passes(Product(s1, s2), Product(s1, s2), c.sProduct, e.sProduct, r);
    if forall i | 0 <= i < n :: SameCheckpoint(c, e, i, n, r) {
      LastCheckpoint(c, e, n, r);
      FinalDetermined(c, e, s1, s2, n, r);
    }
  }

  lemma LastCheckpoint(c: Circuit, e: Circuit, n: nat, r: int)
    requires r > 0 && c.Sized(n) && e.Sized(n) && SameCheckpoint(c, e, n - 1, n, r)
    ensures Same(e.checkpointC[n - 1], c.checkpointC[n - 1], r)
  {
    hide Same;
  }

  /** The same assignment but for the right-hand side of the pairing equation beside the last checkpoint. */
  predicate OtherFinal(c: Circuit, e: Circuit) {
    && |c.setupChi| == |e.setupChi| > 0
    && e == c.(htScaled := e.htScaled, d2Final := e.d2Final, d1Final := e.d1Final, d2InitScaled := e.d2InitScaled,
               setupChi := c.setupChi[0 := e.setupChi[0]])
  }

  /** With other values on the right of the pairing equation it is accepted exactly if their sums are congruent. */
  lemma FinalSumDetermined(c: Circuit, e: Circuit, n: nat, r: int)
    requires r > 0 && c.Sized(n) && e.Sized(n) && OtherFinal(c, e) && Accepts(c, n, r)
    ensures Accepts(e, n, r)
      <==> Same(e.htScaled + e.setupChi[0] + e.d2Final + e.d1Final + e.d2InitScaled,
                c.htScaled + c.setupChi[0] + c.d2Final + c.d1Final + c.d2InitScaled, r)
  {
    hide Same, Product, Inv, ModInverse, FoldAcc, Inverses;
    forall i | 0 <= i < n
      ensures Checkpoint(e, i, n, r)
    {
      assert Checkpoint(c, i, n, r) && e.setupChi[n - i] == c.setupChi[n - i];
    }
    hide Checkpoint;
    var s1, s2 := FoldAcc(c.alpha, c.s1Coords, n), FoldAcc(Inverses(c.alpha, r), c.s2Coords, n);
    var last := c.checkpointC[n - 1];
    var sum := c.htScaled + c.setupChi[0] + c.d2Final + c.d1Final + c.d2InitScaled;
    var sum' := e.htScaled + e.setupChi[0] + e.d2Final + e.d1Final + e.d2InitScaled;
    var left := Product(c.finalE1 + Product(c.g1_0, c.d), c.finalP1G2) + Product(c.h1, c.finalP2G2)
      + Product(Product(c.accumE1 + Product(c.g1_0, Product(c.d, s2) % r), (-Inv(c.gamma, r)) % r), c.h2)
      + Product(Product(c.vmvE1, Product(c.d, c.d) % r), c.g2_0);
    SameRefl(left, r);
    Passes(left, left, last + sum, last + sum', r);
    SameCancel(last, sum', sum, r);
  }

  lemma SameCancel(k: int, a: int, b: int, r: int)
    requires r > 0
    ensures Same(k + a, k + b, r) <==> Same(a, b, r)
  {
    if Same(k + a, k + b, r) {
      var j := Quot(k + a, k + b, r);
      SameBy(a, b, j, r);
    } else if Same(a, b, r) {
      SameRefl(k, r);
      SameAdd(k, k, a, b, r);
    }
  }

  lemma ZeroNotInvertible(a: int, r: int)
    requires r > 1 && a % r == 0
    ensures !Invertible(a, r)
  {
    if Invertible(a, r) {
      var x := Inv(a, r);
      SameRefl(x, r);
      SameMul(a, 0, x, x, r);
    }
  }

  /** A challenge that is congruent to zero is rejected. */
  lemma ZeroChallengeRejected(c: Circuit, i: nat, n: nat, r: int)
    requires r > 1 && c.Sized(n) && i < n
    requires c.alpha[i] % r == 0 || c.gamma % r == 0
    ensures !Accepts(c, n, r)
  {
    hide Checkpoint, FinalPairing, Same, FoldAcc, Inverses, Invertible;
    if c.alpha[i] % r == 0 {
      ZeroNotInvertible(c.alpha[i], r);
    } else {
      ZeroNotInvertible(c.gamma, r);
    }
  }

  /** The accumulation of one round and its checkpoint assertions. */
  method Accumulate(c: Circuit, gtC: int, round: nat, n: nat, r: int) returns (ok: bool)
    requires r > 0 && c.Sized(n) && 1 <= round <= n
    requires gtC == if round == n then c.vmvC else c.checkpointC[n - round - 1]
    ensures ok == Checkpoint(c, n - round, n, r)
  {
    var idx := n - round;
    var s := c.scaled[idx];
    var newC := gtC + c.setupChi[round];
    newC := newC + s.d2;
    newC := newC + s.d1;
    newC := newC + s.cp;
    newC := newC + s.cm;
    var newD1 := s.d1L + c.d1Right[idx];
    newD1 := newD1 + s.d1LSetup;
    newD1 := newD1 + s.d1RSetup;
    var newD2 := s.d2L + c.d2Right[idx];
    newD2 := newD2 + s.d2LSetup;
    newD2 := newD2 + s.d2RSetup;
    ok := Same(newC, c.checkpointC[idx], r)
      && Same(newD1, c.checkpointD1[idx], r)
      && Same(newD2, c.checkpointD2[idx], r);
  }

  /** One factor of the circuit's folding: the emulated field reduces the products. */
  method CircuitFactor(acc: int, k: int, x: int, r: int, ghost ks: seq<int>, ghost xs: seq<int>, ghost i: nat)
      returns (next: int)
    requires r > 0 && i < |ks| == |xs| && k == ks[i] && x == xs[|xs| - 1 - i] && Same(acc, FoldAcc(ks, xs, i), r)
    ensures Same(next, FoldAcc(ks, xs, i + 1), r)
  {
    hide Same, FoldAcc;
    var factor := k * (1 - x) + x;
    SameRefl(factor, r);
    FoldAccNext(acc, factor, ks, xs, i, r);
    next := (acc * factor) % r;
  }

  /** The circuit body: true when every assertion it emits holds. */
  method Define(c: Circuit, n: nat, r: int) returns (ok: bool)
    requires r > 0 && c.Sized(n)
    ensures ok == Accepts(c, n, r)
  {
    hide Same, ModInverse, FoldAcc, Checkpoint, FinalPairing;
    ghost var inverses := Inverses(c.alpha, r);
    FoldAccStart(c.alpha, c.s1Coords);
    FoldAccStart(inverses, c.s2Coords);
    var s1Acc, s2Acc, gtC := 1, 1, c.vmvC;
    SameRefl(1, r);
    var round := n;
    while round >= 1
      invariant 0 <= round <= n
      invariant forall i | 0 <= i < n - round :: Invertible(c.alpha[i], r) && Checkpoint(c, i, n, r)
      invariant gtC == if round == n then c.vmvC else c.checkpointC[n - round - 1]
      invariant Same(s1Acc, FoldAcc(c.alpha, c.s1Coords, n - round), r)
      invariant Same(s2Acc, FoldAcc(inverses, c.s2Coords, n - round), r)
    {
      var idx := n - round;
      var a := c.alpha[idx];
      var inverse := ModInverse(a, r);
      if inverse.None? {
        return false;
      }
      var aInv := inverse.value;
      var matches := Accumulate(c, gtC, round, n, r);
      if !matches {
        return false;
      }
      gtC := c.checkpointC[idx];
      var coordIdx := round - 1;
      s1Acc := CircuitFactor(s1Acc, a, c.s1Coords[coordIdx], r, c.alpha, c.s1Coords, idx);
      s2Acc := CircuitFactor(s2Acc, aInv, c.s2Coords[coordIdx], r, inverses, c.s2Coords, idx);
      round := round - 1;
    }
    ok := FinalSection(c, s1Acc, s2Acc, gtC, FoldAcc(c.alpha, c.s1Coords, n), FoldAcc(inverses, c.s2Coords, n), n, r);
  }

  /** The part of the circuit after the round loop. */
  method FinalSection(c: Circuit, s1Acc: int, s2Acc: int, gtC: int, ghost s1: int, ghost s2: int, n: nat, r: int)
    returns (ok: bool)
    requires r > 0 && c.Sized(n) && gtC == c.checkpointC[n - 1]
    requires Same(s1Acc, s1, r) && Same(s2Acc, s2, r)
    ensures ok == (Invertible(c.gamma, r) && Same(Product(s1, s2), c.sProduct, r) && FinalPairing(c, s1, s2, n, r))
  {
    var sProduct := (s1Acc * s2Acc) % r;
    SameMul(s1Acc, s1, s2Acc, s2, r);
    SameMod(s1Acc * s2Acc, r);
    var gammaInv := ModInverse(c.gamma, r);
    if gammaInv.None? || !Same(sProduct, c.sProduct, r) {
      return false;
    }
    var negGammaInv := (-gammaInv.value) % r;
    var dSq := Product(c.d, c.d) % r;
    var dS2 := Product(c.d, s2Acc) % r;
    SameMul(c.d, c.d, s2Acc, s2, r);
    var rhs := gtC + c.htScaled + c.setupChi[0] + c.d2Final + c.d1Final + c.d2InitScaled;
    var p1 := c.finalE1 + Product(c.g1_0, c.d);
    var p3 := Product(c.accumE1 + Product(c.g1_0, dS2), negGammaInv);
    var p4 := Product(c.vmvE1, dSq);
    var lhs := Product(p1, c.finalP1G2) + Product(c.h1, c.finalP2G2) + Product(p3, c.h2) + Product(p4, c.g2_0);
    ok := Same(lhs, rhs, r);
  }
}
