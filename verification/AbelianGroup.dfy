/** Sums and scalar multiples in an arbitrary commutative group; inverses are never needed. */
module AbelianGroup {

  datatype Group<!G> = Group(zero: G, add: (G, G) -> G)

  ghost predicate AssocAt<G>(m: Group<G>, x: G, y: G, z: G) {
    m.add(m.add(x, y), z) == m.add(x, m.add(y, z))
  }

  ghost predicate CommAt<G>(m: Group<G>, x: G, y: G) {
    m.add(x, y) == m.add(y, x)
  }

  ghost predicate UnitAt<G>(m: Group<G>, x: G) {
    m.add(m.zero, x) == x
  }

  ghost predicate Abelian<G(!new)>(m: Group<G>) {
    && (forall x, y, z :: AssocAt(m, x, y, z))
    && (forall x, y :: CommAt(m, x, y))
    && (forall x :: UnitAt(m, x))
  }

  /** k copies of x. */
  function Times<G>(m: Group<G>, k: nat, x: G): G {
    if k == 0 then m.zero else m.add(Times(m, k - 1, x), x)
  }

  lemma Exchange<G(!new)>(m: Group<G>, a: G, b: G, c: G, d: G)
    requires Abelian(m)
    ensures m.add(m.add(a, b), m.add(c, d)) == m.add(m.add(a, c), m.add(b, d))
  {
    assert AssocAt(m, a, b, m.add(c, d)) && AssocAt(m, b, c, d) && CommAt(m, b, c);
    assert AssocAt(m, c, b, d) && AssocAt(m, a, c, m.add(b, d));
  }

  lemma ZeroRight<G(!new)>(m: Group<G>, x: G)
    requires Abelian(m)
    ensures m.add(x, m.zero) == x && m.add(m.zero, x) == x
  {
    assert CommAt(m, x, m.zero) && UnitAt(m, x);
  }

  lemma {:induction false} TimesAdd<G(!new)>(m: Group<G>, j: nat, k: nat, x: G)
    requires Abelian(m)
    ensures Times(m, j + k, x) == m.add(Times(m, j, x), Times(m, k, x))
  {
    if k == 0 {
      ZeroRight(m, Times(m, j, x));
    } else {
      TimesAdd(m, j, k - 1, x);
      assert AssocAt(m, Times(m, j, x), Times(m, k - 1, x), x);
    }
  }

  lemma {:induction false} TimesOfSum<G(!new)>(m: Group<G>, k: nat, x: G, y: G)
    requires Abelian(m)
    ensures Times(m, k, m.add(x, y)) == m.add(Times(m, k, x), Times(m, k, y))
  {
    if k == 0 {
      ZeroRight(m, m.zero);
    } else {
      TimesOfSum(m, k - 1, x, y);
      Exchange(m, Times(m, k - 1, x), Times(m, k - 1, y), x, y);
    }
  }

  lemma {:induction false} TimesZero<G(!new)>(m: Group<G>, k: nat)
    requires Abelian(m)
    ensures Times(m, k, m.zero) == m.zero
  {
    if k > 0 {
      TimesZero(m, k - 1);
      ZeroRight(m, m.zero);
    }
  }

  lemma {:induction false} TimesTimes<G(!new)>(m: Group<G>, j: nat, k: nat, x: G)
    requires Abelian(m)
    ensures Times(m, j * k, x) == Times(m, j, Times(m, k, x))
  {
    if j > 0 {
      TimesTimes(m, j - 1, k, x);
      TimesAdd(m, (j - 1) * k, k, x);
      assert j * k == (j - 1) * k + k;
    }
  }

  /** The naive multi-scalar multiplication. */
  function Msm<G>(m: Group<G>, scalars: seq<nat>, points: seq<G>): G
    requires |scalars| == |points|
  {
    if scalars == [] then m.zero
    else
      var last := |scalars| - 1;
      m.add(Msm(m, scalars[..last], points[..last]), Times(m, scalars[last], points[last]))
  }

  /** If every scalar is k times one plus another, so is the multi-scalar multiplication. */
  lemma {:induction false} MsmLinear<G(!new)>(m: Group<G>, k: nat, s: seq<nat>, t: seq<nat>, u: seq<nat>,
      points: seq<G>)
    requires Abelian(m) && |s| == |t| == |u| == |points|
    requires forall i | 0 <= i < |s| :: u[i] == k * s[i] + t[i]
    ensures Msm(m, u, points) == m.add(Times(m, k, Msm(m, s, points)), Msm(m, t, points))
  {
    if s == [] {
      TimesZero(m, k);
      ZeroRight(m, m.zero);
    } else {
      var last := |s| - 1;
      var p := points[last];
      var a, b := Msm(m, s[..last], points[..last]), Msm(m, t[..last], points[..last]);
      MsmLinear(m, k, s[..last], t[..last], u[..last], points[..last]);
      TimesAdd(m, k * s[last], t[last], p);
      TimesTimes(m, k, s[last], p);
      TimesOfSum(m, k, a, Times(m, s[last], p));
      Exchange(m, Times(m, k, a), b, Times(m, k, Times(m, s[last], p)), Times(m, t[last], p));
    }
  }

  lemma {:induction false} MsmZero<G(!new)>(m: Group<G>, s: seq<nat>, points: seq<G>)
    requires Abelian(m) && |s| == |points| && forall i | 0 <= i < |s| :: s[i] == 0
    ensures Msm(m, s, points) == m.zero
  {
    if s != [] {
      MsmZero(m, s[..|s| - 1], points[..|s| - 1]);
      ZeroRight(m, m.zero);
    }
  }
}
