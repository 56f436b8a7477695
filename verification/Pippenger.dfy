/** The CPU parts of the bucket method, over an arbitrary commutative group. */
module Pippenger {
  import opened AbelianGroup

  /** One scatter entry: the bucket a point falls into, and the point's index. */
  datatype Entry = Entry(bucket: nat, point: nat)

  ghost predicate InRange(es: seq<Entry>, buckets: nat, points: nat) {
    forall i | 0 <= i < |es| :: es[i].bucket < buckets && es[i].point < points
  }

  ghost predicate Sorted(es: seq<Entry>) {
    forall i, j | 0 <= i < j < |es| :: es[i].bucket <= es[j].bucket
  }

  /** Every point times its bucket number. */
  function Weighted<G>(m: Group<G>, es: seq<Entry>, points: seq<G>): G
    requires forall i | 0 <= i < |es| :: es[i].point < |points|
  {
    if es == [] then m.zero
    else
      var e := es[|es| - 1];
      m.add(Weighted(m, es[..|es| - 1], points), Times(m, e.bucket, points[e.point]))
  }

  /** The accumulate kernel: the sum of the points of a slice. */
  function Accumulate<G>(m: Group<G>, es: seq<Entry>, points: seq<G>): G
    requires forall i | 0 <= i < |es| :: es[i].point < |points|
  {
    if es == [] then m.zero
    else
      m.add(Accumulate(m, es[..|es| - 1], points), points[es[|es| - 1].point])
  }

  lemma {:induction false} WeightedConcat<G(!new)>(m: Group<G>, a: seq<Entry>, b: seq<Entry>, points: seq<G>)
    requires Abelian(m)
    requires forall i | 0 <= i < |a| :: a[i].point < |points|
    requires forall i | 0 <= i < |b| :: b[i].point < |points|
    requires forall i | 0 <= i < |a + b| :: (a + b)[i].point < |points|
    ensures Weighted(m, a + b, points) == m.add(Weighted(m, a, points), Weighted(m, b, points))
  {
    if b == [] {
      assert a + b == a;
      ZeroRight(m, Weighted(m, a, points));
    } else {
      var c, e := b[..|b| - 1], b[|b| - 1];
      assert (a + b)[..|a + b| - 1] == a + c;
      WeightedConcat(m, a, c, points);
      assert AssocAt(m, Weighted(m, a, points), Weighted(m, c, points), Times(m, e.bucket, points[e.point]));
    }
  }

  /** Taking one entry out and adding it back at the end. */
  lemma {:induction false} WeightedRemove<G(!new)>(m: Group<G>, es: seq<Entry>, j: nat, points: seq<G>)
    requires Abelian(m) && j < |es| && forall i | 0 <= i < |es| :: es[i].point < |points|
    ensures
      var rest := es[..j] + es[j + 1..];
      && (forall i | 0 <= i < |rest| :: rest[i].point < |points|)
      && Weighted(m, es, points) == m.add(Weighted(m, rest, points), Times(m, es[j].bucket, points[es[j].point]))
  {
    var last := |es| - 1;
    var rest := es[..j] + es[j + 1..];
    if j == last {
      assert rest == es[..last];
    } else {
      WeightedRemove(m, es[..last], j, points);
      var inner := es[..last][..j] + es[..last][j + 1..];
      assert rest[..|rest| - 1] == inner && rest[|rest| - 1] == es[last];
      var x, y := Times(m, es[j].bucket, points[es[j].point]), Times(m, es[last].bucket, points[es[last].point]);
      var w := Weighted(m, inner, points);
      assert AssocAt(m, w, x, y) && CommAt(m, x, y) && AssocAt(m, w, y, x);
    }
  }

  lemma TakeOut(es: seq<Entry>, j: nat)
    requires j < |es|
    ensures multiset(es[..j] + es[j + 1..]) == multiset(es) - multiset{es[j]}
  {
    assert es == es[..j] + [es[j]] + es[j + 1..];
  }

  /** The order of the entries does not matter. */
  lemma {:induction false} WeightedPermutes<G(!new)>(m: Group<G>, a: seq<Entry>, b: seq<Entry>, points: seq<G>)
    requires Abelian(m) && multiset(a) == multiset(b)
    requires forall i | 0 <= i < |a| :: a[i].point < |points|
    ensures forall i | 0 <= i < |b| :: b[i].point < |points|
    ensures Weighted(m, a, points) == Weighted(m, b, points)
    decreases |a|
  {
    hide Abelian;
    PointsPermute(a, b, |points|);
    if a == [] {
      assert |multiset(b)| == 0;
    } else {
      var last := |a| - 1;
      var j := SameLast(a, b);
      WeightedPermutes(m, a[..last], b[..j] + b[j + 1..], points);
      WeightedRemove(m, b, j, points);
    }
  }

  lemma PointsPermute(a: seq<Entry>, b: seq<Entry>, points: nat)
    requires multiset(a) == multiset(b) && forall i | 0 <= i < |a| :: a[i].point < points
    ensures forall i | 0 <= i < |b| :: b[i].point < points
  {
    forall i | 0 <= i < |b|
      ensures b[i].point < points
    {
      assert b[i] in multiset(b);
      assert b[i] in a;
    }
  }

  /** The last entry of one order has a place in the other, and the rest stay permutations. */
  lemma SameLast(a: seq<Entry>, b: seq<Entry>) returns (j: nat)
    requires a != [] && multiset(a) == multiset(b)
    ensures j < |b| && b[j] == a[|a| - 1] && multiset(a[..|a| - 1]) == multiset(b[..j] + b[j + 1..])
  {
    var last := |a| - 1;
    assert a[last] in multiset(a);
    assert a[last] in b;
    j :| 0 <= j < |b| && b[j] == a[last];
    TakeOut(a, last);
    TakeOut(b, j);
    assert a[..last] + a[last + 1..] == a[..last];
  }

  /** Entries that share bucket k: the weighted sum is k times the slice sum. */
  lemma {:induction false} SameBucket<G(!new)>(m: Group<G>, es: seq<Entry>, k: nat, points: seq<G>)
    requires Abelian(m) && forall i | 0 <= i < |es| :: es[i].point < |points| && es[i].bucket == k
    ensures Weighted(m, es, points) == Times(m, k, Accumulate(m, es, points))
  {
    if es == [] {
      TimesZero(m, k);
    } else {
      var last := |es| - 1;
      SameBucket(m, es[..last], k, points);
      TimesOfSum(m, k, Accumulate(m, es[..last], points), points[es[last].point]);
    }
  }

  /** The number of entries with a bucket below b. */
  function CountBelow(es: seq<Entry>, b: nat): (n: nat)
    ensures n <= |es|
  {
    if es == [] then 0
    else
      CountBelow(es[..|es| - 1], b) + (if es[|es| - 1].bucket < b then 1 else 0)
  }

  /** A cut with everything below b before it and nothing below b after it is the count. */
  lemma {:induction false} CutIsCount(es: seq<Entry>, b: nat, cut: nat)
    requires cut <= |es|
    requires forall i | 0 <= i < cut :: es[i].bucket < b
    requires forall i | cut <= i < |es| :: es[i].bucket >= b
    ensures CountBelow(es, b) == cut
  {
    if es != [] {
      var last := |es| - 1;
      CutIsCount(es[..last], b, if cut == |es| then last else cut);
    }
  }

  /** Stands for the library's sort by bucket: any sorted permutation. */
  method SortByBucket(es: seq<Entry>) returns (r: seq<Entry>)
    ensures Sorted(r) && multiset(r) == multiset(es)
  {
    r := InsertAll(es);
    SortedWhole(es, r);
  }

  /** The first i entries, sorted. */
  ghost predicate SortedPart(es: seq<Entry>, i: nat, r: seq<Entry>)
    requires i <= |es|
  {
    Sorted(r) && multiset(r) == multiset(es[..i])
  }

  method InsertAll(es: seq<Entry>) returns (r: seq<Entry>)
    ensures SortedPart(es, |es|, r)
  {
    hide SortedPart;
    r := [];
    SortedNone(es);
    for i := 0 to |es|
      invariant SortedPart(es, i, r)
    {
      var j := |r|;
      while j > 0 && r[j - 1].bucket > es[i].bucket
        invariant 0 <= j <= |r| && forall k | j <= k < |r| :: r[k].bucket > es[i].bucket
      {
        j := j - 1;
      }
      SortedMore(es, i, r, j);
      r := PutIn(r, es[i], j);
    }
  }

  lemma SortedNone(es: seq<Entry>)
    ensures SortedPart(es, 0, [])
  {
    assert es[..0] == [];
  }

  lemma SortedMore(es: seq<Entry>, i: nat, r: seq<Entry>, j: nat)
    requires i < |es| && j <= |r| && SortedPart(es, i, r)
    requires (forall k | j <= k < |r| :: r[k].bucket > es[i].bucket) && (j > 0 ==> r[j - 1].bucket <= es[i].bucket)
    ensures SortedPart(es, i + 1, PutIn(r, es[i], j))
  {
    PutInContents(r, es[i], j);
    PutInSorted(r, es[i], j);
    hide PutIn, Sorted;
    assert es[..i + 1] == es[..i] + [es[i]];
  }

  lemma SortedWhole(es: seq<Entry>, r: seq<Entry>)
    requires SortedPart(es, |es|, r)
    ensures Sorted(r) && multiset(r) == multiset(es)
  {
    hide Sorted;
    assert es[..|es|] == es;
  }

  function PutIn(r: seq<Entry>, e: Entry, j: nat): (s: seq<Entry>)
    requires j <= |r|
  {
    r[..j] + [e] + r[j..]
  }

  lemma PutInContents(r: seq<Entry>, e: Entry, j: nat)
    requires j <= |r|
    ensures multiset(PutIn(r, e, j)) == multiset(r) + multiset{e}
  {
    assert r == r[..j] + r[j..];
  }

  lemma PutInSorted(r: seq<Entry>, e: Entry, j: nat)
    requires j <= |r| && Sorted(r)
    requires (forall k | j <= k < |r| :: r[k].bucket > e.bucket) && (j > 0 ==> r[j - 1].bucket <= e.bucket)
    ensures Sorted(PutIn(r, e, j))
  {
    var s := PutIn(r, e, j);
    forall i, k | 0 <= i < k < |s|
      ensures s[i].bucket <= s[k].bucket
    {
      var x := if i < j then r[i] else if i == j then e else r[i - 1];
      var y := if k < j then r[k] else if k == j then e else r[k - 1];
      assert s[i] == x && s[k] == y;
    }
  }

  /** The prefix scan over the sorted entries: offsets[b] counts the entries below bucket b. */
  method BucketOffsets(sorted: seq<Entry>, buckets: nat) returns (offsets: array<nat>)
    requires Sorted(sorted) && forall i | 0 <= i < |sorted| :: sorted[i].bucket < buckets
    ensures fresh(offsets) && offsets.Length == buckets + 1
    ensures forall b | 0 <= b <= buckets :: offsets[b] == CountBelow(sorted, b)
  {
    offsets := new nat[buckets + 1](_ => 0);
    var current, n := 0, |sorted|;
    for i := 0 to n
      invariant current <= buckets && offsets.Length == buckets + 1
      invariant current == if i == 0 then 0 else sorted[i - 1].bucket
      invariant forall b | 0 <= b <= current :: IsCut(sorted, b, offsets[b])
    {
      while current < sorted[i].bucket
        invariant current <= sorted[i].bucket
        invariant i > 0 ==> sorted[i - 1].bucket <= current
        invariant forall b | 0 <= b <= current :: IsCut(sorted, b, offsets[b])
      {
        current := current + 1;
        offsets[current] := i;
      }
    }
    while current < buckets
      invariant current <= buckets && (n > 0 ==> sorted[n - 1].bucket <= current)
      invariant forall b | 0 <= b <= current :: IsCut(sorted, b, offsets[b])
    {
      current := current + 1;
      offsets[current] := n;
    }
    forall b | 0 <= b <= buckets
      ensures offsets[b] == CountBelow(sorted, b)
    {
      CutIsCount(sorted, b, offsets[b]);
    }
  }

  ghost predicate IsCut(es: seq<Entry>, b: nat, cut: nat) {
    && cut <= |es|
    && (forall i | 0 <= i < cut :: es[i].bucket < b)
    && (forall i | cut <= i < |es| :: es[i].bucket >= b)
  }

  /** Buckets k and up, each times its number. */
  function Graded<G>(m: Group<G>, sums: seq<G>, k: nat): G
    requires k <= |sums|
    decreases |sums| - k
  {
    if k == |sums| then m.zero else m.add(Graded(m, sums, k + 1), Times(m, k, sums[k]))
  }

  /** The running-sum trick. */
  method ReduceBuckets<G(!new)>(m: Group<G>, sums: seq<G>) returns (windowSum: G)
    requires Abelian(m)
    ensures windowSum == Graded(m, sums, 0)
  {
    var running := m.zero;
    windowSum := m.zero;
    if |sums| == 0 {
      return;
    }
    var i := |sums|;
    TimesZero(m, i - 1);
    ZeroRight(m, m.zero);
    while i > 1
      invariant 1 <= i <= |sums|
      invariant m.add(windowSum, Times(m, i - 1, running)) == Graded(m, sums, i)
    {
      i := i - 1;
      RunningStep(m, windowSum, running, sums[i], i);
      running := m.add(running, sums[i]);
      windowSum := m.add(windowSum, running);
    }
    ZeroRight(m, windowSum);
    ZeroRight(m, Graded(m, sums, 1));
  }

  lemma RunningStep<G(!new)>(m: Group<G>, sum: G, running: G, bucket: G, i: nat)
    requires Abelian(m) && i >= 1
    ensures
      var r := m.add(running, bucket);
      m.add(m.add(sum, r), Times(m, i - 1, r)) == m.add(m.add(sum, Times(m, i, running)), Times(m, i, bucket))
  {
    var r := m.add(running, bucket);
    TimesAdd(m, 1, i - 1, r);
    ZeroRight(m, r);
    assert Times(m, 1, r) == r;
    assert AssocAt(m, sum, r, Times(m, i - 1, r));
    TimesOfSum(m, i, running, bucket);
    assert AssocAt(m, sum, Times(m, i, running), Times(m, i, bucket));
  }

  ghost predicate IsSlice(sorted: seq<Entry>, b: nat) {
    CountBelow(sorted, b) <= CountBelow(sorted, b + 1)
  }

  /** What the accumulate kernel leaves in bucket b. */
  function BucketSum<G>(m: Group<G>, sorted: seq<Entry>, points: seq<G>, b: nat): G
    requires IsSlice(sorted, b) && forall i | 0 <= i < |sorted| :: sorted[i].point < |points|
  {
    Accumulate(m, sorted[CountBelow(sorted, b)..CountBelow(sorted, b + 1)], points)
  }

  /** Slices of the sorted entries, bucket by bucket, give the weighted sum. */
  lemma {:induction false} SlicesAddUp<G(!new)>(m: Group<G>, sorted: seq<Entry>, points: seq<G>, sums: seq<G>, k: nat)
    requires Abelian(m) && InRange(sorted, |sums|, |points|) && Sorted(sorted) && k <= |sums|
    requires forall b | 0 <= b <= |sums| :: IsCut(sorted, b, CountBelow(sorted, b))
    requires forall b | 0 <= b < |sums| :: IsSlice(sorted, b) && sums[b] == BucketSum(m, sorted, points, b)
    ensures Weighted(m, sorted[CountBelow(sorted, k)..], points) == Graded(m, sums, k)
    decreases |sums| - k
  {
    hide CountBelow, Sorted, Accumulate, Abelian;
    var lo := CountBelow(sorted, k);
    assert IsCut(sorted, k, lo);
    if k < |sums| {
      var hi := CountBelow(sorted, k + 1);
      assert IsCut(sorted, k + 1, hi) && IsSlice(sorted, k);
      SlicesAddUp(m, sorted, points, sums, k + 1);
      assert sorted[lo..] == sorted[lo..hi] + sorted[hi..];
      SliceAdds(m, sorted[lo..hi], sorted[hi..], points, k);
    }
  }

  /** The entries of one bucket in front of the rest. */
  lemma SliceAdds<G(!new)>(m: Group<G>, slice: seq<Entry>, rest: seq<Entry>, points: seq<G>, k: nat)
    requires Abelian(m) && forall i | 0 <= i < |slice| :: slice[i].point < |points| && slice[i].bucket == k
    requires forall i | 0 <= i < |rest| :: rest[i].point < |points|
    ensures Weighted(m, slice + rest, points)
      == m.add(Weighted(m, rest, points), Times(m, k, Accumulate(m, slice, points)))
  {
    hide Weighted, Accumulate, Times;
    WeightedConcat(m, slice, rest, points);
    SameBucket(m, slice, k, points);
    assert CommAt(m, Weighted(m, slice, points), Weighted(m, rest, points));
  }
}
