/** The field addition that combines partial sums on the CPU. */
module FieldSum {
  import opened Prelude
  import opened Limbs
  import opened Montgomery
  import opened Montgomery32
  import opened Bits

  /** The sum of the elements as numbers. */
  function Total(elements: seq<seq<u32>>): int
    requires forall i | 0 <= i < |elements| :: |elements[i]| == 8
  {
    if elements == [] then 0 else Total(elements[..|elements| - 1]) + Sum(elements[|elements| - 1], W, 8)
  }

  lemma AdditionStep(base: int, p: int, s: int, c: int, x: int, y: int, now: int, next: int, sx: int, sy: int)
    requires s + c * p == sx + sy && x + y + c == now + base * next
    ensures (s + now * p) + next * (p * base) == (sx + x * p) + (sy + y * p)
  {
    var both := (x + y) * p;
    CarryStep(base, p, s + both, sx + sy + both, c, x + y, now, next);
    assert (now - (x + y)) * p == now * p - both && both == x * p + y * p;
  }

  /** Limb by limb with a carry; the last carry is dropped. */
  method AddLimbs(acc: seq<u64>, limbs: seq<u64>) returns (sum: array<u64>, ghost carryOut: int)
    requires |acc| == |limbs| == 4
    ensures sum.Length == 4 && fresh(sum) && 0 <= carryOut <= 1
    ensures Value(sum[..]) + carryOut * R == Value(acc) + Value(limbs)
  {
    sum := new u64[4](_ => 0);
    var carry: int := 0;
    var i := 0;
    while i < 4
      invariant 0 <= i <= 4 && 0 <= carry <= 1
      invariant Sum(sum[..], B, i) + carry * Pow(B, i) == Sum(acc, B, i) + Sum(limbs, B, i)
    {
      ghost var before: seq<int> := sum[..];
      ghost var c := carry;
      carry := carry + acc[i] + limbs[i];
      sum[i] := carry % B;
      carry := carry / B;
      SumFrame(before, sum[..], B, i);
      ghost var sx, sy := Sum(acc, B, i), Sum(limbs, B, i);
      AdditionStep(B, Pow(B, i), Sum(before, B, i), c, acc[i], limbs[i], sum[i], carry, sx, sy);
      i := i + 1;
    }
    Constants();
    carryOut := carry;
  }

  /** One turn: a sum of 256 bits, less p where it is not below p. */
  function Turn(acc: int, x: int): int {
    var sum := (acc + x) % R;
    if sum >= P then sum - P else sum
  }

  function Folded(elements: seq<seq<u32>>): int
    requires forall i | 0 <= i < |elements| :: |elements[i]| == 8
  {
    if elements == [] then 0 else Turn(Folded(elements[..|elements| - 1]), Sum(elements[|elements| - 1], W, 8))
  }

  lemma TurnArithmetic(p: int, radix: int, acc: int, x: int, sum: int)
    requires 5 * p < radix < 6 * p && 0 <= acc < radix && 0 <= x < radix
    requires sum == (if acc + x < radix then acc + x else acc + x - radix)
    ensures (if sum >= p then sum - p else sum) == (acc + x) % p <==> acc + x < 2 * p
  {
    var out, t := if sum >= p then sum - p else sum, acc + x;
    if t < p {
      DivUnique(t, p, 0, t);
    } else if t < 2 * p {
      DivUnique(t, p, 1, t - p);
    } else if out == t % p {
      assert t == p * (t / p) + t % p;
      if t >= radix {
        var q := t / p;
        assert p * (q - 5) == p * q - 5 * p && p * (q - 6) == p * q - 6 * p;
        SmallMultiple(p, if sum >= p then q - 6 else q - 5);
      }
    }
  }

  /** A turn gives the reduced sum exactly when one subtraction is enough. */
  lemma TurnRightIff(acc: int, x: int)
    requires 0 <= acc < R && 0 <= x < R
    ensures Turn(acc, x) == (acc + x) % P <==> acc + x < 2 * P
  {
    Constants();
    var sum := if acc + x < R then acc + x else acc + x - R;
    DivUnique(acc + x, R, if acc + x < R then 0 else 1, sum);
    TurnArithmetic(P, R, acc, x, sum);
  }

  /** As long as the sum is right, it stays right exactly for an element with which it is below twice p. */
  lemma FoldedRightIff(elements: seq<seq<u32>>, x: seq<u32>)
    requires (forall i | 0 <= i < |elements| :: |elements[i]| == 8) && |x| == 8
    requires Folded(elements) == Total(elements) % P
    ensures
      var all, v := elements + [x], Sum(x, W, 8);
      Folded(all) == Total(all) % P <==> Total(elements) % P + v < 2 * P
  {
    var all, v := elements + [x], Sum(x, W, 8);
    Constants();
    SumBound(x, W, 8);
    assert all[..|all| - 1] == elements;
    TurnRightIff(Total(elements) % P, v);
    ModOfSum(Total(elements), v);
  }

  /** The sum of reduced elements, such as the partial sums are, is always right. */
  lemma {:induction false} ReducedElements(elements: seq<seq<u32>>)
    requires forall i | 0 <= i < |elements| :: |elements[i]| == 8 && Sum(elements[i], W, 8) < P
    ensures Folded(elements) == Total(elements) % P
  {
    Constants();
    if elements != [] {
      var last := |elements| - 1;
      ReducedElements(elements[..last]);
      FoldedRightIff(elements[..last], elements[last]);
      assert elements[..last] + [elements[last]] == elements;
    }
  }

  /** The sum over the first n elements is right. */
  predicate RightAfter(elements: seq<seq<u32>>, n: nat)
    requires n <= |elements| && forall i | 0 <= i < |elements| :: |elements[i]| == 8
  {
    Folded(elements[..n]) == Total(elements[..n]) % P
  }

  /** One subtraction is enough for element n, if the sum before it is right. */
  predicate StaysBelow(elements: seq<seq<u32>>, n: nat)
    requires n < |elements| && forall i | 0 <= i < |elements| :: |elements[i]| == 8
  {
    Total(elements[..n]) % P + Sum(elements[n], W, 8) < 2 * P
  }

  lemma RightNext(elements: seq<seq<u32>>, n: nat)
    requires n < |elements| && forall i | 0 <= i < |elements| :: |elements[i]| == 8
    requires RightAfter(elements, n)
    ensures RightAfter(elements, n + 1) <==> StaysBelow(elements, n)
  {
    hide Folded, Total, Sum;
    FoldedRightIff(elements[..n], elements[n]);
    assert elements[..n] + [elements[n]] == elements[..n + 1];
  }

  /** The running sum is right all the way exactly if every step stays below twice p. */
  lemma {:induction false} EveryPrefixRightIff(elements: seq<seq<u32>>, n: nat)
    requires n <= |elements| && forall i | 0 <= i < |elements| :: |elements[i]| == 8
    ensures (forall i | 0 <= i <= n :: RightAfter(elements, i)) <==> (forall i | 0 <= i < n :: StaysBelow(elements, i))
  {
    if n == 0 {
      assert elements[..0] == [];
      assert RightAfter(elements, 0);
    } else {
      EveryPrefixRightIff(elements, n - 1);
      hide RightAfter, StaysBelow;
      if RightAfter(elements, n - 1) {
        RightNext(elements, n - 1);
      }
    }
  }

  /** How often the last carry, which is worth 2^256, was dropped. */
  function Drops(elements: seq<seq<u32>>): (d: nat)
    requires forall i | 0 <= i < |elements| :: |elements[i]| == 8
    ensures d <= |elements|
  {
    if elements == [] then 0
    else
      var front, last := elements[..|elements| - 1], elements[|elements| - 1];
      Drops(front) + (if Folded(front) + Sum(last, W, 8) >= R then 1 else 0)
  }

  /** What a turn takes away: 2^256 for a dropped carry, and p for a subtraction. */
  lemma TurnTakes(acc: int, x: int) returns (subtracted: nat)
    requires 0 <= acc < R && 0 <= x < R
    ensures 0 <= Turn(acc, x) < R
    ensures acc + x == Turn(acc, x) + (if acc + x >= R then R else 0) + subtracted * P
  {
    var dropped := if acc + x >= R then 1 else 0;
    var sum := acc + x - dropped * R;
    DivUnique(acc + x, R, dropped, sum);
    subtracted := if sum >= P then 1 else 0;
  }

  /** The elements add up to the result, the dropped carries, and a multiple of p. */
  lemma {:induction false} FoldedExact(elements: seq<seq<u32>>) returns (subtracted: nat)
    requires forall i | 0 <= i < |elements| :: |elements[i]| == 8
    ensures 0 <= Folded(elements) < R
    ensures Total(elements) == Folded(elements) + Drops(elements) * R + subtracted * P
  {
    hide Turn, Sum;
    if elements == [] {
      subtracted := 0;
    } else {
      var front, last := elements[..|elements| - 1], elements[|elements| - 1];
      var before := FoldedExact(front);
      Constants();
      SumBound(last, W, 8);
      var now := TurnTakes(Folded(front), Sum(last, W, 8));
      subtracted := before + now;
    }
  }

  /** Dropped carries do no harm only if their number is a multiple of p. */
  lemma DropsVanishIff(d: nat)
    ensures (d * R) % P == 0 <==> d % P == 0
  {
    Constants();
    var q, m := d / P, (R * R_INVERSE - 1) / P;
    if d % P == 0 {
      assert d == P * q;
      Regroup(P, q, R);
      MultipleIsZero(P, q * R);
    } else if (d * R) % P == 0 {
      var j := (d * R) / P;
      assert R * R_INVERSE == 1 + P * m;
      UniqueArithmetic(d, R, R_INVERSE, j, m, P);
      MultipleIsZero(P, j * R_INVERSE - d * m);
    }
  }

  lemma Regroup(p: int, q: int, r: int)
    ensures (p * q) * r == (q * r) * p
  {
  }

  /** The result is right exactly if it is reduced and the number of dropped carries is a multiple of p. */
  lemma FoldedIsSumIff(elements: seq<seq<u32>>)
    requires forall i | 0 <= i < |elements| :: |elements[i]| == 8
    ensures Folded(elements) == Total(elements) % P <==> Folded(elements) < P && Drops(elements) % P == 0
  {
    hide Folded, Total, Drops;
    var subtracted := FoldedExact(elements);
    var out, dropped := Folded(elements), Drops(elements) * R;
    DivShift(out + dropped, P, subtracted);
    DropsVanishIff(Drops(elements));
    RightIffVanishes(out, dropped, P);
  }

  lemma RightIffVanishes(out: int, dropped: int, p: int)
    requires p > 0 && 0 <= out
    ensures out == (out + dropped) % p <==> out < p && dropped % p == 0
  {
    var q := dropped / p;
    assert dropped == p * q + dropped % p;
    DivShift(out + dropped % p, p, q);
    var rest := dropped % p;
    if out < p {
      if out + rest < p {
        DivUnique(out + rest, p, 0, out + rest);
      } else {
        DivUnique(out + rest, p, 1, out + rest - p);
      }
    }
  }

  /** The words of twice p. */
  const TWICE_MODULUS_32: seq<u32> := [
    0xe0000002, 0x87c3eb27, 0xf372e122, 0x5067d090, 0x0302b0ba, 0x70a08b6d, 0xc2634053, 0x60c89ce5]

  lemma TwiceModulus()
    ensures Sum(TWICE_MODULUS_32, W, 8) == 2 * P && 2 * P < R
  {
    var w := TWICE_MODULUS_32;
    assert Pow(W, 1) == W && Pow(W, 2) == B && Pow(W, 3) == B * W && Pow(W, 4) == B * B;
    assert Pow(W, 5) == B * B * W && Pow(W, 6) == B * B * B && Pow(W, 7) == B * B * B * W;
    assert Sum(w, W, 1) == w[0];
    assert Sum(w, W, 2) == w[0] + w[1] * W;
    assert Sum(w, W, 3) == Sum(w, W, 2) + w[2] * B;
    assert Sum(w, W, 4) == Sum(w, W, 3) + w[3] * (B * W);
    assert Sum(w, W, 5) == Sum(w, W, 4) + w[4] * (B * B);
    assert Sum(w, W, 6) == Sum(w, W, 5) + w[5] * (B * B * W);
    assert Sum(w, W, 7) == Sum(w, W, 6) + w[6] * (B * B * B);
  }

  /** A single element of twice p comes out as p and not as zero; a zero element after it repairs the sum. */
  lemma TwiceModulusWrong()
    ensures
      var x, z := TWICE_MODULUS_32, [0, 0, 0, 0, 0, 0, 0, 0];
      && Folded([x]) == P && Total([x]) % P == 0
      && !RightAfter([x, z], 1) && RightAfter([x, z], 2)
  {
    hide Sum, Turn;
    var x: seq<u32>, z: seq<u32> := TWICE_MODULUS_32, [0, 0, 0, 0, 0, 0, 0, 0];
    TwiceModulus();
    SumZero(z, W, 8);
    assert [x, z][..1] == [x] && [x, z][..2] == [x, z];
    TurnTwice();
    MultipleIsZero(P, 2);
  }

  lemma TurnTwice()
    ensures Turn(0, 2 * P) == P && Turn(P, 0) == 0
  {
    Constants();
    DivUnique(2 * P, R, 0, 2 * P);
    DivUnique(P, R, 0, P);
  }

  /** The limbs after one conditional subtraction are a turn. */
  lemma TurnOfLimbs(a: int, x: int, sum: int, carry: int, tmp: int, borrow: int)
    requires 0 <= a < R && 0 <= x < R && sum + carry * R == a + x && 0 <= sum < R && 0 <= carry <= 1
    requires tmp == sum - P + borrow * R && (borrow == 0 || borrow == 1) && (borrow == 1 <==> sum < P)
    ensures (if borrow == 0 then tmp else sum) == Turn(a, x)
  {
    DivUnique(a + x, R, carry, sum);
  }

  lemma ModOfSum(total: int, x: int)
    ensures (total % P + x) % P == (total + x) % P
  {
    DivShift(total % P + x, P, total / P);
  }

  /** Adds up any elements of 256 bits; reduced ones give their sum modulo p in one reduced element. */
  method CpuFieldSum(elements: seq<seq<u32>>) returns (out: seq<u32>)
    requires forall i | 0 <= i < |elements| :: |elements[i]| == 8
    ensures |out| == 8 && Sum(out, W, 8) == Folded(elements)
    ensures (forall i | 0 <= i < |elements| :: Sum(elements[i], W, 8) < P) ==> Sum(out, W, 8) == Total(elements) % P
  {
    Constants();
    hide Turn;
    var acc: seq<u64> := [0, 0, 0, 0];
    SumZero(acc, B, 4);
    var i := 0;
    while i < |elements|
      invariant 0 <= i <= |elements| && |acc| == 4 && Value(acc) == Folded(elements[..i])
    {
      var limbs := ToU64Limbs(elements[i]);
      var sum, carry := AddLimbs(acc, limbs);
      var tmp, borrow := SubtractModulus(sum[..]);
      SumBound(acc, B, 4);
      SumBound(sum[..], B, 4);
      SumBound(limbs, B, 4);
      TurnOfLimbs(Value(acc), Value(limbs), Value(sum[..]), carry, Value(tmp[..]), borrow);
      assert elements[..i + 1][..i] == elements[..i];
      acc := if borrow == 0 then tmp[..] else sum[..];
      i := i + 1;
    }
    assert elements[..i] == elements;
    if forall i | 0 <= i < |elements| :: Sum(elements[i], W, 8) < P {
      ReducedElements(elements);
    }
    out := FromU64Limbs(acc);
  }
}
