/** Commutative rings and their integer literals. */
module CommutativeRing {

  datatype Ring<!F> = Ring(zero: F, one: F, add: (F, F) -> F, mul: (F, F) -> F, neg: F -> F, literal: int -> F)

  ghost predicate Additive<F(!new)>(r: Ring<F>) {
    && (forall a, b, c :: r.add(r.add(a, b), c) == r.add(a, r.add(b, c)))
    && (forall a, b :: r.add(a, b) == r.add(b, a))
    && (forall a :: r.add(a, r.zero) == a)
    && (forall a :: r.add(a, r.neg(a)) == r.zero)
  }

  ghost predicate Multiplicative<F(!new)>(r: Ring<F>) {
    && (forall a, b, c :: r.mul(r.mul(a, b), c) == r.mul(a, r.mul(b, c)))
    && (forall a, b :: r.mul(a, b) == r.mul(b, a))
    && (forall a :: r.mul(a, r.one) == a)
    && (forall a, b, c :: r.mul(r.add(a, b), c) == r.add(r.mul(a, c), r.mul(b, c)))
  }

  /** Literals are the image of the integers. */
  ghost predicate Literal<F(!new)>(r: Ring<F>) {
    && r.literal(0) == r.zero && r.literal(1) == r.one
    && (forall a, b :: r.literal(a + b) == r.add(r.literal(a), r.literal(b)))
  }

  ghost predicate IsRing<F(!new)>(r: Ring<F>) {
    Additive(r) && Multiplicative(r) && Literal(r)
  }

  /** Additive inverses are unique. */
  lemma NegUnique<F(!new)>(r: Ring<F>, a: F, b: F)
    requires Additive(r) && r.add(a, b) == r.zero
    ensures b == r.neg(a)
  {
    calc {
      b;
      r.add(b, r.zero);
      r.add(b, r.add(a, r.neg(a)));
      r.add(r.add(b, a), r.neg(a));
      { assert r.add(b, a) == r.add(a, b); }
      r.add(r.zero, r.neg(a));
      r.add(r.neg(a), r.zero);
      r.neg(a);
    }
  }

  lemma ZeroMul<F(!new)>(r: Ring<F>, b: F)
    requires IsRing(r)
    ensures r.mul(r.zero, b) == r.zero
  {
    var z := r.mul(r.zero, b);
    assert r.add(r.zero, r.zero) == r.zero;
    assert r.add(z, z) == z;
    calc {
      z;
      r.add(z, r.zero);
      r.add(z, r.add(z, r.neg(z)));
      r.add(r.add(z, z), r.neg(z));
      r.zero;
    }
  }

  lemma NegMul<F(!new)>(r: Ring<F>, a: F, b: F)
    requires IsRing(r)
    ensures r.mul(r.neg(a), b) == r.neg(r.mul(a, b))
  {
    ZeroMul(r, b);
    assert r.add(r.mul(a, b), r.mul(r.neg(a), b)) == r.mul(r.add(a, r.neg(a)), b);
    NegUnique(r, r.mul(a, b), r.mul(r.neg(a), b));
  }

  lemma NegLiteral<F(!new)>(r: Ring<F>, v: int)
    requires IsRing(r)
    ensures r.literal(-v) == r.neg(r.literal(v))
  {
    assert r.literal(v + -v) == r.add(r.literal(v), r.literal(-v));
    NegUnique(r, r.literal(v), r.literal(-v));
  }

  lemma MulAssociates<F(!new)>(r: Ring<F>, a: F, b: F, c: F)
    requires IsRing(r)
    ensures r.mul(r.mul(a, b), c) == r.mul(a, r.mul(b, c))
  {
  }

  lemma AddAssociates<F(!new)>(r: Ring<F>, a: F, b: F, c: F)
    requires IsRing(r)
    ensures r.add(r.add(a, b), c) == r.add(a, r.add(b, c))
  {
  }
}

/** Infix notation: a printer that leaves out parentheses, and a reader with standard precedence. */
module Notation {
  import opened CommutativeRing

  datatype Token<A> = Open | Close | Plus | Minus | Star | Name(a: A)

  datatype Expr<A> =
    | Operand(a: A)
    | Neg(e: Expr<A>)
    | Add(l: Expr<A>, r: Expr<A>)
    | Sub(l: Expr<A>, r: Expr<A>)
    | Mul(l: Expr<A>, r: Expr<A>)

  /** What was read before an operand, and the operator between. */
  datatype Left<A> = Start | PlusAfter(e: Expr<A>) | MinusAfter(e: Expr<A>) | TimesAfter(e: Expr<A>)

  function Join<A>(left: Left<A>, x: Expr<A>): Expr<A> {
    match left
    case Start => x
    case PlusAfter(e) => Add(e, x)
    case MinusAfter(e) => Sub(e, x)
    case TimesAfter(e) => Mul(e, x)
  }

  function Wrap<A>(parens: bool, ts: seq<Token<A>>): seq<Token<A>> {
    if parens then [Open] + ts + [Close] else ts
  }

  /** Sums are wrapped when grouped; products too if strict. */
  function Print<A>(e: Expr<A>, group: bool, strict: bool): seq<Token<A>> {
    match e
    case Operand(a) => [Name(a)]
    case Neg(x) => [Minus] + Print(x, true, strict)
    case Add(x, y) => Wrap(group, Print(x, false, strict) + [Plus] + Print(y, false, strict))
    case Sub(x, y) => Wrap(group, Print(x, false, strict) + [Minus] + Print(y, true, strict))
    case Mul(x, y) => Wrap(group && strict, Print(x, true, strict) + [Star] + Print(y, true, strict))
  }

  datatype Parsed<A> = Stuck | Got(tree: Expr<A>, rest: seq<Token<A>>)

  predicate StartsWith<A(==)>(ts: seq<Token<A>>, t: Token<A>) {
    ts != [] && ts[0] == t
  }

  /** A prefix minus binds tightest. */
  function ReadFactor<A(==)>(ts: seq<Token<A>>): (p: Parsed<A>)
    ensures p.Got? ==> |p.rest| < |ts|
    decreases |ts|, 0
  {
    if ts == [] then Stuck
    else match ts[0] {
      case Minus =>
        var p := ReadFactor(ts[1..]);
        if p.Got? then Got(Neg(p.tree), p.rest) else Stuck
      case Open =>
        var p := ReadSum(Start, ts[1..]);
        if p.Got? && StartsWith(p.rest, Close) then Got(p.tree, p.rest[1..]) else Stuck
      case Name(a) => Got(Operand(a), ts[1..])
      case _ => Stuck
    }
  }

  /** A factor joined to what was read before it, then more factors: products associate to the left. */
  function ReadProduct<A(==)>(left: Left<A>, ts: seq<Token<A>>): (p: Parsed<A>)
    ensures p.Got? ==> |p.rest| < |ts|
    decreases |ts|, 1
  {
    var p := ReadFactor(ts);
    if p.Got? then MoreFactors(Join(left, p.tree), p.rest) else Stuck
  }

  function MoreFactors<A(==)>(acc: Expr<A>, ts: seq<Token<A>>): (p: Parsed<A>)
    ensures p.Got? ==> |p.rest| <= |ts|
    decreases |ts|, 0
  {
    if StartsWith(ts, Star) then ReadProduct(TimesAfter(acc), ts[1..]) else Got(acc, ts)
  }

  /** A product joined to what was read before it, then more terms: sums associate to the left. */
  function ReadSum<A(==)>(left: Left<A>, ts: seq<Token<A>>): (p: Parsed<A>)
    ensures p.Got? ==> |p.rest| < |ts|
    decreases |ts|, 2
  {
    var p := ReadProduct(Start, ts);
    if p.Got? then MoreTerms(Join(left, p.tree), p.rest) else Stuck
  }

  function MoreTerms<A(==)>(acc: Expr<A>, ts: seq<Token<A>>): (p: Parsed<A>)
    ensures p.Got? ==> |p.rest| <= |ts|
    decreases |ts|, 0
  {
    if StartsWith(ts, Plus) then ReadSum(PlusAfter(acc), ts[1..])
    else if StartsWith(ts, Minus) then ReadSum(MinusAfter(acc), ts[1..])
    else Got(acc, ts)
  }

  /** Reads a whole text. */
  function Read<A(==)>(ts: seq<Token<A>>): Parsed<A> {
    var p := ReadSum(Start, ts);
    if p.Got? && p.rest == [] then p else Stuck
  }

  function Value<F, A>(r: Ring<F>, env: A -> F, e: Expr<A>): F {
    match e
    case Operand(a) => env(a)
    case Neg(x) => r.neg(Value(r, env, x))
    case Add(x, y) => r.add(Value(r, env, x), Value(r, env, y))
    case Sub(x, y) => r.add(Value(r, env, x), r.neg(Value(r, env, y)))
    case Mul(x, y) => r.mul(Value(r, env, x), Value(r, env, y))
  }

  /** n prefix minuses. */
  function Minuses<A>(n: nat): seq<Token<A>> {
    seq(n, _ => Minus)
  }

  function NegTimes<F>(r: Ring<F>, n: nat, v: F): F {
    if n == 0 then v else r.neg(NegTimes(r, n - 1, v))
  }

  /** The value of an operand of value v joined to what is on its left. */
  function Joined<F, A>(r: Ring<F>, env: A -> F, left: Left<A>, v: F): F {
    match left
    case Start => v
    case PlusAfter(e) => r.add(Value(r, env, e), v)
    case MinusAfter(e) => r.add(Value(r, env, e), r.neg(v))
    case TimesAfter(e) => r.mul(Value(r, env, e), v)
  }

  lemma {:induction false} NegTimesMul<F(!new)>(r: Ring<F>, n: nat, a: F, b: F)
    requires IsRing(r)
    ensures r.mul(NegTimes(r, n, a), b) == NegTimes(r, n, r.mul(a, b))
  {
    hide IsRing;
    if n > 0 {
      NegTimesMul(r, n - 1, a, b);
      NegMul(r, NegTimes(r, n - 1, a), b);
    }
  }

  lemma {:induction false} NegTimesInner<F>(r: Ring<F>, n: nat, v: F)
    ensures NegTimes(r, n + 1, v) == NegTimes(r, n, r.neg(v))
  {
    if n > 0 {
      NegTimesInner(r, n - 1, v);
    }
  }

  /** A factor that follows a scaled one scales the product. */
  lemma ProductValue<F(!new), A>(r: Ring<F>, env: A -> F, left: Left<A>, n: nat, a: F, b: F)
    requires IsRing(r) && (left.Start? || left.TimesAfter?)
    ensures r.mul(Joined(r, env, left, NegTimes(r, n, a)), b) == Joined(r, env, left, NegTimes(r, n, r.mul(a, b)))
  {
    hide IsRing;
    NegTimesMul(r, n, a, b);
    if left.TimesAfter? {
      MulAssociates(r, Value(r, env, left.e), NegTimes(r, n, a), b);
    }
  }

  /** A term that follows an added one is added to the sum. */
  lemma SumValue<F(!new), A>(r: Ring<F>, env: A -> F, left: Left<A>, a: F, b: F)
    requires IsRing(r) && (left.Start? || left.PlusAfter?)
    ensures r.add(Joined(r, env, left, a), b) == Joined(r, env, left, r.add(a, b))
  {
    hide IsRing;
    if left.PlusAfter? {
      AddAssociates(r, Value(r, env, left.e), a, b);
    }
  }

  /** Minuses in front of a factor are read as negations of it. */
  lemma {:induction false} MinusesRead<F, A>(r: Ring<F>, env: A -> F, n: nat, ts: seq<Token<A>>)
    requires ReadFactor(ts).Got?
    ensures
      var p := ReadFactor(Minuses(n) + ts);
      && p.Got?
      && p.rest == ReadFactor(ts).rest
      && Value(r, env, p.tree) == NegTimes(r, n, Value(r, env, ReadFactor(ts).tree))
  {
    hide ReadSum;
    if n == 0 {
      assert Minuses(n) + ts == ts;
    } else {
      MinusesRead(r, env, n - 1, ts);
      var all := Minuses(n) + ts;
      assert all[0] == Minus && all[1..] == Minuses(n - 1) + ts;
    }
  }

  /** A factor under minuses joins what is on its left. */
  lemma FactorRead<F, A>(r: Ring<F>, env: A -> F, n: nat, left: Left<A>, ts: seq<Token<A>>,
      k: seq<Token<A>>) returns (acc: Expr<A>)
    requires ReadFactor(ts + k).Got? && ReadFactor(ts + k).rest == k
    ensures ReadProduct(left, Minuses(n) + ts + k) == MoreFactors(acc, k)
    ensures Value(r, env, acc) == Joined(r, env, left, NegTimes(r, n, Value(r, env, ReadFactor(ts + k).tree)))
  {
    hide ReadFactor, MoreFactors;
    MinusesRead(r, env, n, ts + k);
    assert Minuses(n) + ts + k == Minuses(n) + (ts + k);
    var x := ReadFactor(Minuses(n) + (ts + k)).tree;
    acc := Join(left, x);
  }

  lemma OperandRead<A>(a: A, k: seq<Token<A>>)
    ensures ReadFactor([Name(a)] + k) == Got(Operand(a), k)
  {
    assert ([Name(a)] + k)[1..] == k;
  }

  lemma SumEnds<A>(acc: Expr<A>, k: seq<Token<A>>)
    requires k == [] || k[0] == Close
    ensures MoreTerms(acc, k) == Got(acc, k)
  {
    hide ReadSum;
  }

  lemma ParensRead<A>(body: seq<Token<A>>, acc: Expr<A>, k: seq<Token<A>>)
    requires ReadSum(Start, body + ([Close] + k)) == MoreTerms(acc, [Close] + k)
    ensures ReadFactor([Open] + body + [Close] + k) == Got(acc, k)
  {
    hide ReadSum, MoreTerms;
    var inner := body + ([Close] + k);
    SumEnds(acc, [Close] + k);
    assert ([Close] + k)[1..] == k;
    assert [Open] + body + [Close] + k == [Open] + inner;
    OpenRead(inner, acc, [Close] + k);
  }

  lemma OpenRead<A>(inner: seq<Token<A>>, acc: Expr<A>, closed: seq<Token<A>>)
    requires ReadSum(Start, inner) == Got(acc, closed) && StartsWith(closed, Close)
    ensures ReadFactor([Open] + inner) == Got(acc, closed[1..])
  {
    hide ReadSum;
    assert ([Open] + inner)[1..] == inner;
  }

  lemma StarRead<A>(acc: Expr<A>, q: seq<Token<A>>, k: seq<Token<A>>)
    ensures MoreFactors(acc, [Star] + q + k) == ReadProduct(TimesAfter(acc), Minuses(0) + q + k)
  {
    hide ReadProduct;
    var ts := [Star] + q + k;
    assert ts[0] == Star && ts[1..] == Minuses(0) + q + k;
  }

  lemma SignRead<A>(acc: Expr<A>, plus: bool, q: seq<Token<A>>, k: seq<Token<A>>)
    ensures
      var t := if plus then Plus else Minus;
      && MoreTerms(acc, [t] + q + k) == ReadSum(if plus then PlusAfter(acc) else MinusAfter(acc), q + k)
      && !StartsWith([t] + q + k, Star)
  {
    hide ReadSum;
    var ts := [if plus then Plus else Minus] + q + k;
    assert ts[1..] == q + k;
  }

  /** An unwrapped operand, negation or product is read as a run of factors. */
  lemma {:induction false} RunRead<F(!new), A>(r: Ring<F>, env: A -> F, e: Expr<A>, strict: bool, n: nat,
      left: Left<A>, k: seq<Token<A>>) returns (acc: Expr<A>)
    requires IsRing(r) && (e.Operand? || e.Neg? || e.Mul?) && (left.Start? || left.TimesAfter?)
    ensures ReadProduct(left, Minuses(n) + Print(e, false, strict) + k) == MoreFactors(acc, k)
    ensures Value(r, env, acc) == Joined(r, env, left, NegTimes(r, n, Value(r, env, e)))
    decreases e, 1
  {
    hide IsRing, ReadProduct, MoreFactors, ReadFactor, NegTimes, Joined;
    match e
    case Operand(a) =>
      OperandRead(a, k);
      acc := FactorRead(r, env, n, left, [Name(a)], k);
    case Neg(x) =>
      acc := TermRead(r, env, x, strict, n + 1, left, k);
      var p := Print(x, true, strict);
      assert Minuses<A>(n + 1) == Minuses(n) + [Minus];
      assert Minuses(n + 1) + p + k == Minuses(n) + ([Minus] + p) + k;
      NegTimesInner(r, n, Value(r, env, x));
    case Mul(x, y) =>
      acc := ProductRead(r, env, x, y, strict, n, left, k);
      assert e == Mul(x, y);
  }

  lemma {:induction false} ProductRead<F(!new), A>(r: Ring<F>, env: A -> F, x: Expr<A>, y: Expr<A>, strict: bool,
      n: nat, left: Left<A>, k: seq<Token<A>>) returns (acc: Expr<A>)
    requires IsRing(r) && (left.Start? || left.TimesAfter?)
    ensures
      var product := Print(x, true, strict) + [Star] + Print(y, true, strict);
      ReadProduct(left, Minuses(n) + product + k) == MoreFactors(acc, k)
    ensures Value(r, env, acc) == Joined(r, env, left, NegTimes(r, n, r.mul(Value(r, env, x), Value(r, env, y))))
    decreases Mul(x, y), 0
  {
    hide IsRing, ReadProduct, MoreFactors, ReadFactor, NegTimes, Joined, Value;
    var p, q := Print(x, true, strict), Print(y, true, strict);
    var after := [Star] + q + k;
    var first := TermRead(r, env, x, strict, n, left, after);
    StarRead(first, q, k);
    acc := TermRead(r, env, y, strict, 0, TimesAfter(first), k);
    assert Minuses(n) + (p + [Star] + q) + k == Minuses(n) + p + after;
    JoinedTimes(r, env, first, Value(r, env, y));
    ProductValue(r, env, left, n, Value(r, env, x), Value(r, env, y));
  }

  lemma JoinedStart<F, A>(r: Ring<F>, env: A -> F, v: F)
    ensures Joined(r, env, Start, v) == v && NegTimes(r, 0, v) == v
  {
  }

  /** A run of factors with no factor following is one term of a sum. */
  lemma RunEnds<A>(left: Left<A>, ts: seq<Token<A>>, run: Expr<A>, k: seq<Token<A>>)
    requires !StartsWith(k, Star) && ReadProduct(Start, Minuses(0) + ts + k) == MoreFactors(run, k)
    ensures ReadSum(left, ts + k) == MoreTerms(Join(left, run), k)
  {
    hide ReadProduct, MoreTerms;
    assert Minuses(0) + ts + k == ts + k;
  }

  lemma JoinedTimes<F, A>(r: Ring<F>, env: A -> F, first: Expr<A>, b: F)
    ensures Joined(r, env, TimesAfter(first), NegTimes(r, 0, b)) == r.mul(Value(r, env, first), b)
  {
  }

  /** A grouped expression is read as a run of factors. */
  lemma {:induction false} TermRead<F(!new), A>(r: Ring<F>, env: A -> F, e: Expr<A>, strict: bool, n: nat,
      left: Left<A>, k: seq<Token<A>>) returns (acc: Expr<A>)
    requires IsRing(r) && (left.Start? || left.TimesAfter?)
    ensures ReadProduct(left, Minuses(n) + Print(e, true, strict) + k) == MoreFactors(acc, k)
    ensures Value(r, env, acc) == Joined(r, env, left, NegTimes(r, n, Value(r, env, e)))
    decreases e, 3
  {
    hide IsRing, ReadProduct, MoreFactors, ReadFactor, ReadSum, MoreTerms, NegTimes, Joined, Value;
    if e.Add? || e.Sub? || (e.Mul? && strict) {
      var body := Print(e, false, strict);
      assert !StartsWith([Close] + k, Star);
      var inner := SumRead(r, env, e, strict, Start, [Close] + k);
      JoinedStart(r, env, Value(r, env, e));
      ParensRead(body, inner, k);
      acc := FactorRead(r, env, n, left, [Open] + body + [Close], k);
    } else {
      acc := RunRead(r, env, e, strict, n, left, k);
    }
  }

  /** An ungrouped expression, with no factor following, adds to the sum on its left. */
  lemma {:induction false} SumRead<F(!new), A>(r: Ring<F>, env: A -> F, e: Expr<A>, strict: bool, left: Left<A>,
      k: seq<Token<A>>) returns (acc: Expr<A>)
    requires IsRing(r) && !StartsWith(k, Star) && (left.Start? || left.PlusAfter?)
    ensures ReadSum(left, Print(e, false, strict) + k) == MoreTerms(acc, k)
    ensures Value(r, env, acc) == Joined(r, env, left, Value(r, env, e))
    decreases e, 2
  {
    hide IsRing, ReadProduct, MoreFactors, ReadFactor, ReadSum, MoreTerms, NegTimes, StartsWith;
    if e.Add? || e.Sub? {
      var p, q := Print(e.l, false, strict), Print(e.r, e.Sub?, strict);
      var a, b := Value(r, env, e.l), Value(r, env, e.r);
      var after := [if e.Add? then Plus else Minus] + q + k;
      assert Print(e, false, strict) + k == p + after;
      SignRead(e.l, e.Add?, q, k);
      var first := SumRead(r, env, e.l, strict, left, after);
      SignRead(first, e.Add?, q, k);
      if e.Add? {
        acc := SumRead(r, env, e.r, strict, PlusAfter(first), k);
        SumValue(r, env, left, a, b);
      } else {
        var term := TermRead(r, env, e.r, strict, 0, Start, k);
        RunEnds(MinusAfter(first), q, term, k);
        acc := Sub(first, term);
        JoinedStart(r, env, b);
        SumValue(r, env, left, a, r.neg(b));
      }
    } else {
      var run := RunRead(r, env, e, strict, 0, Start, k);
      RunEnds(left, Print(e, false, strict), run, k);
      acc := Join(left, run);
      JoinedStart(r, env, Value(r, env, e));
    }
  }

  /**
   * Round trip: reading a printed expression with standard precedence gives an expression of the same
   * value in every commutative ring, whether or not products are wrapped.
   */
  lemma ReadAfterPrint<F(!new), A>(r: Ring<F>, env: A -> F, e: Expr<A>, group: bool, strict: bool)
    requires IsRing(r)
    ensures
      var p := Read(Print(e, group, strict));
      p.Got? && Value(r, env, p.tree) == Value(r, env, e)
  {
    hide IsRing, Value, Joined, NegTimes;
    var ts := Print(e, group, strict);
    assert ts + [] == ts;
    var acc: Expr<A>;
    if group {
      acc := TermRead(r, env, e, strict, 0, Start, []);
      RunEnds(Start, ts, acc, []);
      JoinedStart(r, env, NegTimes(r, 0, Value(r, env, e)));
      JoinedStart(r, env, Value(r, env, e));
    } else {
      acc := SumRead(r, env, e, strict, Start, []);
      JoinedStart(r, env, Value(r, env, e));
    }
    assert MoreTerms(acc, []) == Got(acc, []);
  }
}
