/** The whole multi-scalar multiplication: windows, scatter, sort, offsets, buckets, combination. */
module MetalMsm {
  import opened Prelude
  import opened AbelianGroup
  import opened Pippenger
  import opened Scatter
  import opened Bits
  import L = Limbs

  ghost predicate Words(words: seq<seq<u32>>) {
    forall i | 0 <= i < |words| :: |words[i]| == 8
  }

  function ScalarOf(words: seq<u32>): (s: nat)
    requires |words| == 8
  {
    L.SumBound(words, W, 8);
    Scalar(words)
  }

  /** The scalars without their lowest k bits. */
  function Shifted(words: seq<seq<u32>>, k: nat): (s: seq<nat>)
    requires Words(words)
    ensures |s| == |words|
  {
    seq(|words|, i requires 0 <= i < |words| => Shr(ScalarOf(words[i]), k))
  }

  /** The bit where window w of width c starts. */
  function Start(c: nat, w: nat): nat {
    w * c
  }

  lemma StartNext(c: nat, w: nat)
    ensures Start(c, 0) == 0 && Start(c, w + 1) == Start(c, w) + c
  {
  }

  /** The digits of every scalar in the window of width c at a bit offset. */
  function Digits(words: seq<seq<u32>>, c: nat, offset: nat): (s: seq<nat>)
    requires Words(words) && 1 <= c <= 16 && offset < 256
    ensures |s| == |words|
  {
    seq(|words|, i requires 0 <= i < |words| => BucketAt(words[i], c, offset))
  }

  /** The scatter kernel's output. */
  function ScatterEntries(digits: seq<nat>): (es: seq<Entry>)
    ensures |es| == |digits|
  {
    seq(|digits|, i requires 0 <= i < |digits| => Entry(digits[i], i))
  }

  lemma {:induction false} WeightedScatter<G(!new)>(m: Group<G>, digits: seq<nat>, points: seq<G>, k: nat)
    requires k <= |digits| == |points|
    ensures Weighted(m, ScatterEntries(digits)[..k], points) == Msm(m, digits[..k], points[..k])
  {
    if k > 0 {
      WeightedScatter(m, digits, points, k - 1);
      assert ScatterEntries(digits)[..k][..k - 1] == ScatterEntries(digits)[..k - 1];
      assert digits[..k][..k - 1] == digits[..k - 1] && points[..k][..k - 1] == points[..k - 1];
    }
  }

  lemma DigitBelow(words: seq<u32>, c: nat, offset: nat)
    requires |words| == 8 && 1 <= c <= 16 && offset < 256
    ensures BucketAt(words, c, offset) < Pow2(c)
  {
    BucketAtIsDigit(words, c, offset);
  }

  /** One window: scatter, sort, prefix scan, accumulate, reduce. */
  method ProcessWindow<G(!new)>(m: Group<G>, points: seq<G>, words: seq<seq<u32>>, c: nat, w: nat) returns (sum: G)
    requires Abelian(m) && Words(words) && |points| == |words| && 1 <= c <= 16 && Start(c, w) < 256
    ensures sum == Msm(m, Digits(words, c, Start(c, w)), points)
  {
    var offset := Start(c, w);
    var digits, numBuckets := Digits(words, c, offset), Pow2(c);
    forall i | 0 <= i < |words|
      ensures digits[i] < numBuckets
    {
      DigitBelow(words[i], c, offset);
    }
    hide Digits, Pow2;
    sum := SumOfBuckets(m, points, digits, numBuckets);
  }

  /** The same for given digits. */
  method SumOfBuckets<G(!new)>(m: Group<G>, points: seq<G>, digits: seq<nat>, numBuckets: nat) returns (sum: G)
    requires Abelian(m) && |points| == |digits| && forall i | 0 <= i < |digits| :: digits[i] < numBuckets
    ensures sum == Msm(m, digits, points)
  {
    var scatter := ScatterEntries(digits);
    var sorted := SortByBucket(scatter);
    InRangePermutes(scatter, sorted, numBuckets, |points|);
    var bucketSums := AccumulateBuckets(m, points, sorted, numBuckets);
    sum := ReduceBuckets(m, bucketSums);
    hide Sorted, BucketSum, Graded;
    SlicesAddUp(m, sorted, points, bucketSums, 0);
    CutIsCount(sorted, 0, 0);
    assert sorted[0..] == sorted;
    WeightedPermutes(m, scatter, sorted, points);
    WeightedScatter(m, digits, points, |digits|);
    assert scatter[..|digits|] == scatter && digits[..|digits|] == digits && points[..|digits|] == points;
  }

  /** The accumulate kernel over all buckets of the sorted entries. */
  method AccumulateBuckets<G(!new)>(m: Group<G>, points: seq<G>, sorted: seq<Entry>,
      numBuckets: nat) returns (sums: seq<G>)
    requires Sorted(sorted) && InRange(sorted, numBuckets, |points|)
    ensures |sums| == numBuckets
    ensures forall b | 0 <= b <= numBuckets :: IsCut(sorted, b, CountBelow(sorted, b))
    ensures forall b | 0 <= b < numBuckets :: IsSlice(sorted, b) && sums[b] == BucketSum(m, sorted, points, b)
  {
    var offsets := BucketOffsets(sorted, numBuckets);
    sums := [];
    for b := 0 to numBuckets
      invariant |sums| == b
      invariant forall k | 0 <= k <= numBuckets :: offsets[k] == CountBelow(sorted, k)
      invariant forall k | 0 <= k < b :: IsSlice(sorted, k) && sums[k] == BucketSum(m, sorted, points, k)
    {
      CountGrows(sorted, b);
      sums := sums + [Accumulate(m, sorted[offsets[b]..offsets[b + 1]], points)];
    }
    forall b | 0 <= b <= numBuckets
      ensures IsCut(sorted, b, CountBelow(sorted, b))
    {
      CountIsCut(sorted, b);
    }
  }

  lemma InRangePermutes(a: seq<Entry>, b: seq<Entry>, buckets: nat, points: nat)
    requires InRange(a, buckets, points) && multiset(a) == multiset(b)
    ensures InRange(b, buckets, points) && |a| == |b|
  {
    assert |multiset(a)| == |multiset(b)|;
    forall i | 0 <= i < |b|
      ensures b[i].bucket < buckets && b[i].point < points
    {
      assert b[i] in multiset(b);
      assert b[i] in a;
    }
  }

  lemma {:induction false} CountGrows(es: seq<Entry>, b: nat)
    ensures IsSlice(es, b)
  {
    if es != [] {
      CountGrows(es[..|es| - 1], b);
    }
  }

  /** In sorted entries the count below b is where bucket b starts. */
  lemma {:induction false} CountIsCut(es: seq<Entry>, b: nat)
    requires Sorted(es)
    ensures IsCut(es, b, CountBelow(es, b))
  {
    if es != [] {
      CountIsCut(es[..|es| - 1], b);
    }
  }

  /** Window sums combined from window k up: shift by c bits and add. */
  function Horner<G>(m: Group<G>, sums: seq<G>, c: nat, k: nat): G
    requires k <= |sums|
    decreases |sums| - k
  {
    if k == |sums| then m.zero else m.add(Times(m, Pow2(c), Horner(m, sums, c, k + 1)), sums[k])
  }

  /** c doublings. */
  method Double<G(!new)>(m: Group<G>, x: G, c: nat) returns (y: G)
    requires Abelian(m)
    ensures y == Times(m, Pow2(c), x)
  {
    y := x;
    ZeroRight(m, x);
    assert Times(m, 1, x) == x;
    for i := 0 to c
      invariant y == Times(m, Pow2(i), x)
    {
      TimesAdd(m, Pow2(i), Pow2(i), x);
      y := m.add(y, y);
    }
  }

  /** Combines the window sums from the top window down. */
  method CombineWindows<G(!new)>(m: Group<G>, sums: seq<G>, c: nat) returns (total: G)
    requires Abelian(m)
    ensures total == Horner(m, sums, c, 0)
  {
    total := m.zero;
    var w := |sums|;
    while w > 0
      invariant 0 <= w <= |sums| && total == Horner(m, sums, c, w)
    {
      w := w - 1;
      if w < |sums| - 1 {
        total := Double(m, total, c);
      } else {
        TimesZero(m, Pow2(c));
      }
      total := m.add(total, sums[w]);
    }
  }

  lemma DigitStep(words: seq<u32>, c: nat, offset: nat)
    requires |words| == 8 && 1 <= c <= 16 && offset < 256
    ensures Shr(ScalarOf(words), offset) == Pow2(c) * Shr(ScalarOf(words), offset + c) + BucketAt(words, c, offset)
  {
    BucketAtIsDigit(words, c, offset);
    ShiftTwice(ScalarOf(words), offset, c);
    Division(Shr(ScalarOf(words), offset), c);
    hide BucketAt, Shr, Pow2;
  }

  lemma Division(x: nat, c: nat)
    ensures x == Pow2(c) * Shr(x, c) + x % Pow2(c)
  {
  }

  lemma AllShiftedOut(words: seq<u32>, k: nat)
    requires |words| == 8 && k >= 256
    ensures Shr(ScalarOf(words), k) == 0
  {
    L.SumBound(words, W, 8);
    PowIsPow2(8);
    Pow2Monotone(256, k);
    hide Pow2, L.Pow, Scalar;
    DivUnique(ScalarOf(words), Pow2(k), 0, ScalarOf(words));
  }

  /** The Horner value from window k up is the product with the scalars shifted by k windows. */
  lemma {:induction false} HornerIsMsm<G(!new)>(m: Group<G>, points: seq<G>, words: seq<seq<u32>>, c: nat,
      sums: seq<G>, k: nat)
    requires Abelian(m) && Words(words) && |points| == |words| && 1 <= c <= 16 && k <= |sums|
    requires Start(c, |sums|) >= 256
    requires forall w | 0 <= w < |sums| :: Start(c, w) < 256 && sums[w] == Msm(m, Digits(words, c, Start(c, w)), points)
    ensures Horner(m, sums, c, k) == Msm(m, Shifted(words, Start(c, k)), points)
    decreases |sums| - k
  {
    hide Shr, Pow2, BucketAt, Start, ScalarOf;
    var offset := Start(c, k);
    var u := Shifted(words, offset);
    if k == |sums| {
      forall i | 0 <= i < |words|
        ensures u[i] == 0
      {
        AllShiftedOut(words[i], offset);
      }
      MsmZero(m, u, points);
    } else {
      HornerIsMsm(m, points, words, c, sums, k + 1);
      StartNext(c, k);
      var s, t := Shifted(words, offset + c), Digits(words, c, offset);
      forall i | 0 <= i < |words|
        ensures u[i] == Pow2(c) * s[i] + t[i]
      {
        DigitStep(words[i], c, offset);
      }
      MsmLinear(m, Pow2(c), s, t, u, points);
    }
  }

  /** The last window starts below bit 256 and the windows reach bit 256. */
  lemma WindowsCover(c: nat)
    requires c >= 1
    ensures Start(c, (256 + c - 1) / c) >= 256
  {
    var q := (256 + c - 1) / c;
    assert 256 + c - 1 == c * q + (256 + c - 1) % c;
  }

  lemma WindowStart(c: nat, w: nat)
    requires c >= 1 && w < (256 + c - 1) / c
    ensures Start(c, w) < 256
  {
    var q := (256 + c - 1) / c;
    assert 256 + c - 1 == c * q + (256 + c - 1) % c;
    assert w * c <= (q - 1) * c;
    assert (q - 1) * c == q * c - c;
  }

  function Log2(n: nat): (k: nat)
    requires n > 0
    ensures Pow2(k) <= n < 2 * Pow2(k)
  {
    if n == 1 then 0 else 1 + Log2(n / 2)
  }

  /** Clamped to [4, 16] and rounded down to even. */
  function EvenClamp(log: nat): (c: nat)
    ensures 4 <= c <= 16 && c % 2 == 0 && (4 <= log <= 16 ==> log - 1 <= c <= log)
  {
    var clamped := if log < 4 then 4 else if log > 16 then 16 else log;
    clamped / 2 * 2
  }

  /** The window width: 1 for few points, otherwise log2 of their number, clamped and made even. */
  function OptimalWindowBits(n: nat): (c: nat)
    ensures 1 <= c <= 16
  {
    if n < 32 then 1 else EvenClamp(Log2(n))
  }

  /** The multi-scalar multiplication. */
  method ComputeMsm<G(!new)>(m: Group<G>, points: seq<G>, words: seq<seq<u32>>) returns (total: G)
    requires Abelian(m) && Words(words) && |points| == |words|
    ensures total == Msm(m, seq(|words|, i requires 0 <= i < |words| => ScalarOf(words[i])), points)
  {
    var n := |points|;
    ghost var scalars: seq<nat> := seq(|words|, i requires 0 <= i < |words| => ScalarOf(words[i]));
    if n == 0 {
      return m.zero;
    }
    hide Start, Digits, OptimalWindowBits, Msm;
    var c := OptimalWindowBits(n);
    var numWindows := (256 + c - 1) / c;
    var sums := [];
    for w := 0 to numWindows
      invariant |sums| == w
      invariant forall k | 0 <= k < w :: Start(c, k) < 256 && sums[k] == Msm(m, Digits(words, c, Start(c, k)), points)
    {
      WindowStart(c, w);
      var sum := ProcessWindow(m, points, words, c, w);
      sums := sums + [sum];
    }
    total := CombineWindows(m, sums, c);
    WindowsCover(c);
    HornerIsMsm(m, points, words, c, sums, 0);
    StartNext(c, 0);
    assert Shifted(words, 0) == scalars;
  }
}
