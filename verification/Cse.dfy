/** Common subexpression elimination over the arena. */
module Cse {
  import opened Prelude
  import opened MleArena

  const CSE_DEPTH_THRESHOLD: nat := 4

  /** Nodes seen so far, bucketed by hash, each with its let-binder index. */
  type Bindings = map<int, seq<(Node, nat)>>

  datatype State = State(arena: seq<Node>, bindings: Bindings, defs: seq<Node>)

  /** The first entry of a bucket that holds the node. */
  function Find(bucket: seq<(Node, nat)>, n: Node): (i: int)
    ensures -1 <= i
    ensures i >= 0 ==> (n, i) in bucket
  {
    if bucket == [] then -1 else if bucket[0].0 == n then bucket[0].1 else Find(bucket[1..], n)
  }

  function Lookup(bindings: Bindings, hash: Node -> int, n: Node): (i: int)
    ensures -1 <= i
    ensures i >= 0 ==> hash(n) in bindings && (n, i) in bindings[hash(n)]
  {
    if hash(n) in bindings then Find(bindings[hash(n)], n) else -1
  }

  function Register(st: State, hash: Node -> int, n: Node): (r: (State, Node))
    requires WellFormed(st.arena) && NodeOk(n, |st.arena|)
    ensures r.0.arena == st.arena && NodeOk(r.1, |st.arena|)
  {
    var i := Lookup(st.bindings, hash, n);
    if i >= 0 then (st, Leaf(NamedVar(i)))
    else if Depth(st.arena, n, |st.arena|) < CSE_DEPTH_THRESHOLD then (st, n)
    else
      var index, h := |st.defs|, hash(n);
      var bucket := if h in st.bindings then st.bindings[h] else [];
      (State(st.arena, st.bindings[h := bucket + [(n, index)]], st.defs + [n]), Leaf(NamedVar(index)))
  }

  /** The table gives the index of the first entry for a node, and none only when there is no entry. */
  lemma {:induction false} FindFirst(bucket: seq<(Node, nat)>, n: Node) returns (k: nat)
    ensures Find(bucket, n) == -1 <==> forall p | p in bucket :: p.0 != n
    ensures Find(bucket, n) >= 0 ==>
      k < |bucket| && bucket[k] == (n, Find(bucket, n)) && forall j | 0 <= j < k :: bucket[j].0 != n
  {
    k := 0;
    if bucket != [] && bucket[0].0 != n {
      k := FindFirst(bucket[1..], n);
      assert forall p :: p in bucket <==> p == bucket[0] || p in bucket[1..];
      k := k + 1;
    }
  }

  lemma {:induction false} FindAppended(bucket: seq<(Node, nat)>, n: Node, i: nat)
    requires Find(bucket, n) == -1
    ensures Find(bucket + [(n, i)], n) == i
  {
    if bucket != [] {
      FindAppended(bucket[1..], n, i);
      assert (bucket + [(n, i)])[1..] == bucket[1..] + [(n, i)];
    }
  }

  /** A node registered again gets the same answer and changes nothing. */
  lemma RegisteredAgain(st: State, hash: Node -> int, n: Node)
    requires WellFormed(st.arena) && NodeOk(n, |st.arena|)
    ensures var (t, m) := Register(st, hash, n); Register(t, hash, n) == (t, m)
  {
    hide Depth, Find;
    if Lookup(st.bindings, hash, n) < 0 {
      FindAppended(if hash(n) in st.bindings then st.bindings[hash(n)] else [], n, |st.defs|) by {
        NothingFound(n);
      }
    }
  }

  lemma NothingFound(n: Node)
    ensures Find([], n) == -1
  {
  }

  function AuxEdge(st: State, hash: Node -> int, e: Edge, bound: nat): (r: (State, Edge))
    requires WellFormed(st.arena) && bound <= |st.arena| && EdgeOk(e, bound)
    ensures WellFormed(r.0.arena) && Extends(st.arena, r.0.arena) && EdgeOk(r.1, |r.0.arena|)
    decreases bound, 0
  {
    match e
    case Direct(_) => (st, e)
    case NodeRef(id) =>
      var (s, n) := AuxNode(st, hash, st.arena[id], id);
      (s.(arena := s.arena + [n]), NodeRef(|s.arena|))
  }

  function AuxNode(st: State, hash: Node -> int, n: Node, bound: nat): (r: (State, Node))
    requires WellFormed(st.arena) && bound <= |st.arena| && NodeOk(n, bound)
    ensures WellFormed(r.0.arena) && Extends(st.arena, r.0.arena) && NodeOk(r.1, |r.0.arena|)
    decreases bound, 1
  {
    match n
    case Leaf(_) => (st, n)
    case Un(op, e) =>
      var (s, c) := AuxEdge(st, hash, e, bound);
      Register(s, hash, Un(op, c))
    case Bin(op, e1, e2) =>
      var (s1, c1) := AuxEdge(st, hash, e1, bound);
      var (s2, c2) := AuxEdge(s1, hash, e2, bound);
      Register(s2, hash, Bin(op, c1, c2))
  }

  /** Definition i refers to earlier definitions only and has exactly the threshold depth. */
  ghost predicate DefOk(st: State, i: nat)
    requires WellFormed(st.arena) && i < |st.defs|
  {
    var d := st.defs[i];
    NodeOk(d, |st.arena|) && Scoped(st.arena, d, |st.arena|, i) && Depth(st.arena, d, |st.arena|) == CSE_DEPTH_THRESHOLD
  }

  ghost predicate BindingsOk(st: State) {
    forall h, p | h in st.bindings && p in st.bindings[h] :: p.1 < |st.defs| && st.defs[p.1] == p.0
  }

  ghost predicate DefsInArena(arena: seq<Node>, defs: seq<Node>) {
    forall i | 0 <= i < |defs| :: NodeOk(defs[i], |arena|)
  }

  ghost predicate Ok(st: State) {
    && WellFormed(st.arena) && DefsInArena(st.arena, st.defs)
    && (forall i | 0 <= i < |st.defs| :: DefOk(st, i))
    && BindingsOk(st)
  }

  /** The values of the definitions, evaluated in order. */
  ghost function DefValues<F>(alg: Algebra<F>, vars: nat -> F, arena: seq<Node>, defs: seq<Node>): (v: seq<F>)
    requires WellFormed(arena) && DefsInArena(arena, defs)
    ensures |v| == |defs|
  {
    if defs == [] then []
    else
      var last := |defs| - 1;
      var before := DefValues(alg, vars, arena, defs[..last]);
      before + [EvalNode(alg, Env(vars, before), arena, defs[last], |arena|)]
  }

  /** What the definitions so far make of a node. */
  ghost function Meaning<F>(alg: Algebra<F>, vars: nat -> F, st: State, n: Node): F
    requires Ok(st) && NodeOk(n, |st.arena|)
  {
    EvalNode(alg, Env(vars, DefValues(alg, vars, st.arena, st.defs)), st.arena, n, |st.arena|)
  }

  ghost function EdgeMeaning<F>(alg: Algebra<F>, vars: nat -> F, st: State, e: Edge): F
    requires Ok(st) && EdgeOk(e, |st.arena|)
  {
    EvalEdge(alg, Env(vars, DefValues(alg, vars, st.arena, st.defs)), st.arena, e, |st.arena|)
  }

  lemma {:induction false} DefValuesPrefix<F>(alg: Algebra<F>, vars: nat -> F, arena: seq<Node>, defs: seq<Node>,
      k: nat)
    requires WellFormed(arena) && DefsInArena(arena, defs) && k <= |defs|
    ensures DefValues(alg, vars, arena, defs)[..k] == DefValues(alg, vars, arena, defs[..k])
    decreases |defs|
  {
    if k == |defs| {
      assert defs[..k] == defs;
    } else {
      var last := |defs| - 1;
      DefValuesPrefix(alg, vars, arena, defs[..last], k);
      assert defs[..last][..k] == defs[..k];
    }
  }

  lemma {:induction false} DefValuesFrame<F>(alg: Algebra<F>, vars: nat -> F, a: seq<Node>, b: seq<Node>,
      defs: seq<Node>)
    requires WellFormed(a) && WellFormed(b) && Extends(a, b) && DefsInArena(a, defs)
    ensures DefsInArena(b, defs)
    ensures DefValues(alg, vars, a, defs) == DefValues(alg, vars, b, defs)
  {
    forall i | 0 <= i < |defs|
      ensures NodeOk(defs[i], |b|)
    {
      assert NodeOk(defs[i], |a|);
    }
    if defs != [] {
      var last := |defs| - 1;
      DefValuesFrame(alg, vars, a, b, defs[..last]);
      var before := DefValues(alg, vars, a, defs[..last]);
      Frame(alg, Env(vars, before), a, b, defs[last], |a|, 0);
      AnyBound(alg, Env(vars, before), b, defs[last], |a|, |b|, 0);
    }
  }

  /** The bound only serves termination. */
  lemma AnyBound<F>(alg: Algebra<F>, env: Env<F>, a: seq<Node>, n: Node, b1: nat, b2: nat, k: nat)
    requires WellFormed(a) && b1 <= |a| && b2 <= |a| && NodeOk(n, b1) && NodeOk(n, b2)
    ensures EvalNode(alg, env, a, n, b1) == EvalNode(alg, env, a, n, b2)
    ensures Depth(a, n, b1) == Depth(a, n, b2) && Scoped(a, n, b1, k) == Scoped(a, n, b2, k)
  {
  }

  /** One state grows out of another: longer arena, longer definition list, both still in order. */
  ghost predicate Grows(s: State, t: State) {
    Extends(s.arena, t.arena) && Extends(s.defs, t.defs)
  }

  /** Growing the state keeps a scoped node's scope, depth and meaning. */
  lemma StateFrame<F>(alg: Algebra<F>, vars: nat -> F, s: State, t: State, n: Node)
    requires Ok(s) && Ok(t) && Grows(s, t) && NodeOk(n, |s.arena|) && Scoped(s.arena, n, |s.arena|, |s.defs|)
    ensures NodeOk(n, |t.arena|) && Scoped(t.arena, n, |t.arena|, |t.defs|)
    ensures Depth(t.arena, n, |t.arena|) == Depth(s.arena, n, |s.arena|)
    ensures Meaning(alg, vars, t, n) == Meaning(alg, vars, s, n)
  {
    var k := |s.defs|;
    var ls, lt := DefValues(alg, vars, s.arena, s.defs), DefValues(alg, vars, t.arena, t.defs);
    DefValuesFrame(alg, vars, s.arena, t.arena, s.defs);
    DefValuesPrefix(alg, vars, t.arena, t.defs, k);
    assert lt[..k] == ls;
    Frame(alg, Env(vars, ls), s.arena, t.arena, n, |s.arena|, k);
    AnyBound(alg, Env(vars, ls), t.arena, n, |s.arena|, |t.arena|, k);
    OnlyFirst(alg, vars, ls, lt, t.arena, n, |t.arena|, k);
    ScopedMore(t.arena, n, |t.arena|, k, |t.defs|);
  }

  /** The result of a pass over a node: shallow, scoped by the definitions made so far. */
  ghost predicate Reduced(st: State, n: Node) {
    && Ok(st) && NodeOk(n, |st.arena|)
    && Scoped(st.arena, n, |st.arena|, |st.defs|)
    && Depth(st.arena, n, |st.arena|) < CSE_DEPTH_THRESHOLD
  }

  ghost predicate ReducedEdge(st: State, e: Edge) {
    && Ok(st) && EdgeOk(e, |st.arena|)
    && EdgeScoped(st.arena, e, |st.arena|, |st.defs|)
    && EdgeDepth(st.arena, e, |st.arena|) < CSE_DEPTH_THRESHOLD
  }

  lemma StateFrameEdge<F>(alg: Algebra<F>, vars: nat -> F, s: State, t: State, e: Edge)
    requires Ok(s) && Ok(t) && Grows(s, t) && EdgeOk(e, |s.arena|) && EdgeScoped(s.arena, e, |s.arena|, |s.defs|)
    ensures EdgeOk(e, |t.arena|) && EdgeScoped(t.arena, e, |t.arena|, |t.defs|)
    ensures EdgeDepth(t.arena, e, |t.arena|) == EdgeDepth(s.arena, e, |s.arena|)
    ensures EdgeMeaning(alg, vars, t, e) == EdgeMeaning(alg, vars, s, e)
  {
    match e
    case Direct(a) =>
      StateFrame(alg, vars, s, t, Leaf(a));
    case NodeRef(id) =>
      var n := s.arena[id];
      AnyBound(alg, Env(vars, DefValues(alg, vars, s.arena, s.defs)), s.arena, n, id, |s.arena|, |s.defs|);
      StateFrame(alg, vars, s, t, n);
      AnyBound(alg, Env(vars, DefValues(alg, vars, t.arena, t.defs)), t.arena, n, id, |t.arena|, |t.defs|);
  }

  /** A definition's value is what the whole list of definitions makes of its body. */
  lemma DefValueAt<F>(alg: Algebra<F>, vars: nat -> F, st: State, i: nat)
    requires Ok(st) && i < |st.defs|
    ensures NodeOk(st.defs[i], |st.arena|)
    ensures Meaning(alg, vars, st, st.defs[i]) == Meaning(alg, vars, st, Leaf(NamedVar(i)))
  {
    assert DefOk(st, i);
    var all := DefValues(alg, vars, st.arena, st.defs);
    var upTo := st.defs[..i + 1];
    DefValuesPrefix(alg, vars, st.arena, st.defs, i + 1);
    DefValuesPrefix(alg, vars, st.arena, st.defs, i);
    assert upTo[..i] == st.defs[..i];
    assert all[i] == all[..i + 1][i];
    OnlyFirst(alg, vars, all[..i], all, st.arena, st.defs[i], |st.arena|, i);
  }

  /** Registering keeps the state in order and the node's meaning, and leaves a shallow node. */
  lemma RegisterSound<F>(alg: Algebra<F>, vars: nat -> F, st: State, hash: Node -> int, n: Node)
    requires Ok(st) && NodeOk(n, |st.arena|) && Scoped(st.arena, n, |st.arena|, |st.defs|)
    requires Depth(st.arena, n, |st.arena|) <= CSE_DEPTH_THRESHOLD
    ensures
      var (t, m) := Register(st, hash, n);
      Grows(st, t) && Reduced(t, m) && Meaning(alg, vars, t, m) == Meaning(alg, vars, st, n)
  {
    var (t, m) := Register(st, hash, n);
    var i := Lookup(st.bindings, hash, n);
    if i >= 0 {
      var p: (Node, nat) := (n, i);
      var h := hash(n);
      assert h in st.bindings && p in st.bindings[h];
      assert BindingsOk(st);
      assert p.1 < |st.defs| && st.defs[p.1] == p.0;
      DefValueAt(alg, vars, st, i);
    } else if Depth(st.arena, n, |st.arena|) == CSE_DEPTH_THRESHOLD {
      RegisterNew(st, hash, n);
      DefValueAt(alg, vars, t, |st.defs|);
      StateFrame(alg, vars, st, t, n);
    }
  }

  lemma RegisterNew(st: State, hash: Node -> int, n: Node)
    requires Ok(st) && NodeOk(n, |st.arena|) && Scoped(st.arena, n, |st.arena|, |st.defs|)
    requires Depth(st.arena, n, |st.arena|) == CSE_DEPTH_THRESHOLD && Lookup(st.bindings, hash, n) < 0
    ensures
      var (t, m) := Register(st, hash, n);
      Ok(t) && Grows(st, t) && t.defs == st.defs + [n] && m == Leaf(NamedVar(|st.defs|))
  {
    var (t, m) := Register(st, hash, n);
    forall i | 0 <= i < |t.defs|
      ensures NodeOk(t.defs[i], |t.arena|) && DefOk(t, i)
    {
      if i < |st.defs| {
        assert DefOk(st, i);
      }
    }
    forall h, p | h in t.bindings && p in t.bindings[h]
      ensures p.1 < |t.defs| && t.defs[p.1] == p.0
    {
      if h != hash(n) {
        assert p in st.bindings[h];
      } else if p != (n, |st.defs|) {
        assert h in st.bindings && p in st.bindings[h];
      }
    }
  }

  /** Inserting a finished node into the arena keeps everything. */
  lemma InsertSound<F>(alg: Algebra<F>, vars: nat -> F, s: State, n: Node)
    requires Reduced(s, n)
    ensures
      var t, e := s.(arena := s.arena + [n]), NodeRef(|s.arena|);
      Grows(s, t) && ReducedEdge(t, e) && EdgeMeaning(alg, vars, t, e) == Meaning(alg, vars, s, n)
  {
    var t, e := s.(arena := s.arena + [n]), NodeRef(|s.arena|);
    forall i | 0 <= i < |t.defs|
      ensures NodeOk(t.defs[i], |t.arena|) && DefOk(t, i)
    {
      assert DefOk(s, i);
      var d := s.defs[i];
      Frame(alg, Env(vars, []), s.arena, t.arena, d, |s.arena|, i);
      AnyBound(alg, Env(vars, []), t.arena, d, |s.arena|, |t.arena|, i);
    }
    StateFrame(alg, vars, s, t, n);
    AnyBound(alg, Env(vars, DefValues(alg, vars, t.arena, t.defs)), t.arena, n, |s.arena|, |t.arena|, |t.defs|);
  }

  /** A pass over an edge or a node keeps its meaning. The original mentions no let-bound variable. */
  lemma {:induction false} AuxEdgeSound<F>(alg: Algebra<F>, vars: nat -> F, st: State, hash: Node -> int, e: Edge,
      bound: nat)
    requires Ok(st) && bound <= |st.arena| && EdgeOk(e, bound) && EdgeScoped(st.arena, e, bound, 0)
    ensures
      var (t, c) := AuxEdge(st, hash, e, bound);
      && Grows(st, t) && ReducedEdge(t, c)
      && EdgeMeaning(alg, vars, t, c) == EvalEdge(alg, Env(vars, []), st.arena, e, bound)
    decreases bound, 0
  {
    match e
    case Direct(a) =>
    case NodeRef(id) =>
      AuxNodeSound(alg, vars, st, hash, st.arena[id], id);
      var (s, n) := AuxNode(st, hash, st.arena[id], id);
      InsertSound(alg, vars, s, n);
  }

  lemma {:induction false} AuxNodeSound<F>(alg: Algebra<F>, vars: nat -> F, st: State, hash: Node -> int, n: Node,
      bound: nat)
    requires Ok(st) && bound <= |st.arena| && NodeOk(n, bound) && Scoped(st.arena, n, bound, 0)
    ensures
      var (t, m) := AuxNode(st, hash, n, bound);
      && Grows(st, t) && Reduced(t, m)
      && Meaning(alg, vars, t, m) == EvalNode(alg, Env(vars, []), st.arena, n, bound)
    decreases bound, 1
  {
    hide Register, Ok, DefValues;
    match n
    case Leaf(_) =>
    case Un(op, e) =>
      AuxEdgeSound(alg, vars, st, hash, e, bound);
      var (s, c) := AuxEdge(st, hash, e, bound);
      RegisterSound(alg, vars, s, hash, Un(op, c));
    case Bin(op, e1, e2) =>
      AuxEdgeSound(alg, vars, st, hash, e1, bound);
      var (s1, c1) := AuxEdge(st, hash, e1, bound);
      FrameEdge(alg, Env(vars, []), st.arena, s1.arena, e2, bound, 0);
      AuxEdgeSound(alg, vars, s1, hash, e2, bound);
      var (s2, c2) := AuxEdge(s1, hash, e2, bound);
      StateFrameEdge(alg, vars, s1, s2, c1);
      RegisterSound(alg, vars, s2, hash, Bin(op, c1, c2));
  }

  /** What a pass leaves behind but for its table. */
  datatype Output = Output(arena: seq<Node>, defs: seq<Node>)

  function Out(st: State): Output {
    Output(st.arena, st.defs)
  }

  /** A pass without a table: every node that reaches the threshold is cut off and gets a definition of its own. */
  function Define(o: Output, n: Node): (r: (Output, Node))
    requires WellFormed(o.arena) && NodeOk(n, |o.arena|)
    ensures r.0.arena == o.arena && NodeOk(r.1, |o.arena|)
  {
    if Depth(o.arena, n, |o.arena|) < CSE_DEPTH_THRESHOLD then (o, n)
    else (o.(defs := o.defs + [n]), Leaf(NamedVar(|o.defs|)))
  }

  function CutEdge(o: Output, e: Edge, bound: nat): (r: (Output, Edge))
    requires WellFormed(o.arena) && bound <= |o.arena| && EdgeOk(e, bound)
    ensures WellFormed(r.0.arena) && Extends(o.arena, r.0.arena) && EdgeOk(r.1, |r.0.arena|)
    decreases bound, 0
  {
    match e
    case Direct(_) => (o, e)
    case NodeRef(id) =>
      var (s, n) := CutNode(o, o.arena[id], id);
      (s.(arena := s.arena + [n]), NodeRef(|s.arena|))
  }

  function CutNode(o: Output, n: Node, bound: nat): (r: (Output, Node))
    requires WellFormed(o.arena) && bound <= |o.arena| && NodeOk(n, bound)
    ensures WellFormed(r.0.arena) && Extends(o.arena, r.0.arena) && NodeOk(r.1, |r.0.arena|)
    decreases bound, 1
  {
    match n
    case Leaf(_) => (o, n)
    case Un(op, e) =>
      var (s, c) := CutEdge(o, e, bound);
      Define(s, Un(op, c))
    case Bin(op, e1, e2) =>
      var (s1, c1) := CutEdge(o, e1, bound);
      var (s2, c2) := CutEdge(s1, e2, bound);
      Define(s2, Bin(op, c1, c2))
  }

  predicate Child(n: Node, e: Edge) {
    match n
    case Leaf(_) => false
    case Un(_, x) => x == e
    case Bin(_, x, y) => x == e || y == e
  }

  /** No definition has this child; a pass only makes such references. */
  ghost predicate Unused(defs: seq<Node>, e: Edge) {
    e.NodeRef? ==> forall d | d in defs :: !Child(d, e)
  }

  predicate RefersDown(n: Node) {
    match n
    case Leaf(_) => false
    case Un(_, e) => e.NodeRef?
    case Bin(_, e1, e2) => e1.NodeRef? || e2.NodeRef?
  }

  /** The table holds definitions only, all different; each refers to a node that is already in the arena. */
  ghost predicate Tabled(st: State) {
    && WellFormed(st.arena)
    && (forall h, p | h in st.bindings && p in st.bindings[h] :: p.0 in st.defs)
    && (forall d | d in st.defs :: NodeOk(d, |st.arena|) && RefersDown(d))
    && (forall i, j | 0 <= i < j < |st.defs| :: st.defs[i] != st.defs[j])
  }

  lemma DeepRefersDown(arena: seq<Node>, n: Node)
    requires WellFormed(arena) && NodeOk(n, |arena|) && Depth(arena, n, |arena|) >= CSE_DEPTH_THRESHOLD
    ensures RefersDown(n)
  {
  }

  lemma {:induction false} FindMisses(bucket: seq<(Node, nat)>, n: Node)
    requires forall p | p in bucket :: p.0 != n
    ensures Find(bucket, n) == -1
  {
    if bucket != [] {
      FindMisses(bucket[1..], n);
    }
  }

  /** A node over new references is not in the table, so it is kept or gets a new definition. */
  lemma RegisterMisses(st: State, hash: Node -> int, n: Node)
    requires Tabled(st) && NodeOk(n, |st.arena|)
    requires n.Un? ==> Unused(st.defs, n.e)
    requires n.Bin? ==> (if n.e2.NodeRef? then Unused(st.defs, n.e2) else Unused(st.defs, n.e1))
    ensures n !in st.defs && Lookup(st.bindings, hash, n) < 0
    ensures var (t, m) := Register(st, hash, n); Tabled(t) && (Out(t), m) == Define(Out(st), n)
  {
    assert n !in st.defs;
    var k := hash(n);
    if k in st.bindings {
      forall p | p in st.bindings[k]
        ensures p.0 != n
      {
        assert k in st.bindings && p in st.bindings[k];
      }
      FindMisses(st.bindings[k], n);
    }
    var t := Register(st, hash, n).0;
    if t != st {
      DeepRefersDown(st.arena, n);
      forall h, p | h in t.bindings && p in t.bindings[h]
        ensures p.0 in t.defs
      {
        if p.0 != n {
          assert p in st.bindings[h];
        }
      }
    }
  }

  lemma InsertTabled(s: State, n: Node)
    requires Tabled(s) && NodeOk(n, |s.arena|)
    ensures Tabled(s.(arena := s.arena + [n])) && Unused(s.defs, NodeRef(|s.arena|))
  {
    assert forall d | d in s.defs :: NodeOk(d, |s.arena|);
  }

  /** From any such state the pass makes what the pass without a table makes, whatever the hash. */
  lemma {:induction false} AuxEdgeCuts(st: State, hash: Node -> int, e: Edge, bound: nat)
    requires Tabled(st) && bound <= |st.arena| && EdgeOk(e, bound)
    ensures
      var (t, c) := AuxEdge(st, hash, e, bound);
      && Tabled(t) && Unused(t.defs, c) && (e.Direct? ==> t == st) && (Out(t), c) == CutEdge(Out(st), e, bound)
    decreases bound, 0
  {
    match e
    case Direct(_) =>
    case NodeRef(id) =>
      AuxNodeCuts(st, hash, st.arena[id], id);
      var (s, n) := AuxNode(st, hash, st.arena[id], id);
      InsertTabled(s, n);
      hide Tabled, Unused, AuxNode, CutNode;
  }

  lemma {:induction false} AuxNodeCuts(st: State, hash: Node -> int, n: Node, bound: nat)
    requires Tabled(st) && bound <= |st.arena| && NodeOk(n, bound)
    ensures var (t, m) := AuxNode(st, hash, n, bound); Tabled(t) && (Out(t), m) == CutNode(Out(st), n, bound)
    decreases bound, 1
  {
    hide Tabled, Unused, Register, Define;
    match n
    case Leaf(_) =>
    case Un(op, e) =>
      AuxEdgeCuts(st, hash, e, bound);
      var (s, c) := AuxEdge(st, hash, e, bound);
      RegisterMisses(s, hash, Un(op, c));
    case Bin(op, e1, e2) =>
      AuxEdgeCuts(st, hash, e1, bound);
      var (s1, c1) := AuxEdge(st, hash, e1, bound);
      AuxEdgeCuts(s1, hash, e2, bound);
      var (s2, c2) := AuxEdge(s1, hash, e2, bound);
      RegisterMisses(s2, hash, Bin(op, c1, c2));
  }

  /** The cut points of the unfolded tree below a node, and the depth that is left above them. */
  function EdgeCuts(arena: seq<Node>, e: Edge, bound: nat): (nat, nat)
    requires WellFormed(arena) && bound <= |arena| && EdgeOk(e, bound)
    decreases bound, 0
  {
    match e
    case Direct(_) => (0, 0)
    case NodeRef(id) => Cuts(arena, arena[id], id)
  }

  function Cuts(arena: seq<Node>, n: Node, bound: nat): (nat, nat)
    requires WellFormed(arena) && bound <= |arena| && NodeOk(n, bound)
    decreases bound, 1
  {
    match n
    case Leaf(_) => (0, 0)
    case Un(_, e) =>
      var (k, d) := EdgeCuts(arena, e, bound);
      CutAt(k, 1 + d)
    case Bin(_, e1, e2) =>
      var (k1, d1) := EdgeCuts(arena, e1, bound);
      var (k2, d2) := EdgeCuts(arena, e2, bound);
      CutAt(k1 + k2, 1 + Max(d1, d2))
  }

  function CutAt(k: nat, d: nat): (nat, nat) {
    if d < CSE_DEPTH_THRESHOLD then (k, d) else (k + 1, 0)
  }

  lemma {:induction false} CutsFrame(a: seq<Node>, b: seq<Node>, n: Node, bound: nat)
    requires WellFormed(a) && WellFormed(b) && Extends(a, b) && bound <= |a| && NodeOk(n, bound)
    ensures Cuts(a, n, bound) == Cuts(b, n, bound)
    decreases bound, 1
  {
    match n
    case Leaf(_) =>
    case Un(_, e) => EdgeCutsFrame(a, b, e, bound);
    case Bin(_, e1, e2) =>
      EdgeCutsFrame(a, b, e1, bound);
      EdgeCutsFrame(a, b, e2, bound);
  }

  lemma {:induction false} EdgeCutsFrame(a: seq<Node>, b: seq<Node>, e: Edge, bound: nat)
    requires WellFormed(a) && WellFormed(b) && Extends(a, b) && bound <= |a| && EdgeOk(e, bound)
    ensures EdgeCuts(a, e, bound) == EdgeCuts(b, e, bound)
    decreases bound, 0
  {
    if e.NodeRef? {
      assert a[e.id] == b[e.id];
      CutsFrame(a, b, a[e.id], e.id);
    }
  }

  /** An interpretation for facts that do not depend on one. */
  const CONSTANT: Algebra<bool> := Algebra(_ => true, (_, _) => true, (_, _, _) => true, true)

  const NO_LETS: Env<bool> := Env(_ => true, [])

  lemma DepthFrame(a: seq<Node>, b: seq<Node>, e: Edge)
    requires WellFormed(a) && WellFormed(b) && Extends(a, b) && EdgeOk(e, |a|)
    ensures EdgeOk(e, |b|) && EdgeDepth(a, e, |a|) == EdgeDepth(b, e, |b|)
  {
    FrameEdge(CONSTANT, NO_LETS, a, b, e, |a|, 0);
    if e.NodeRef? {
      assert a[e.id] == b[e.id];
    }
  }

  /** Every cut point gets exactly one definition. */
  lemma {:induction false} CutEdgeCounts(o: Output, e: Edge, bound: nat)
    requires WellFormed(o.arena) && bound <= |o.arena| && EdgeOk(e, bound)
    ensures
      var (r, c) := CutEdge(o, e, bound);
      (|r.defs| - |o.defs|, EdgeDepth(r.arena, c, |r.arena|)) == EdgeCuts(o.arena, e, bound)
    decreases bound, 0
  {
    if e.NodeRef? {
      CutNodeCounts(o, o.arena[e.id], e.id);
      var (s, n) := CutNode(o, o.arena[e.id], e.id);
      Frame(CONSTANT, NO_LETS, s.arena, s.arena + [n], n, |s.arena|, 0);
    }
  }

  lemma {:induction false} CutNodeCounts(o: Output, n: Node, bound: nat)
    requires WellFormed(o.arena) && bound <= |o.arena| && NodeOk(n, bound)
    ensures
      var (r, m) := CutNode(o, n, bound);
      (|r.defs| - |o.defs|, Depth(r.arena, m, |r.arena|)) == Cuts(o.arena, n, bound)
    decreases bound, 1
  {
    hide CutEdge, EdgeCuts, EdgeDepth;
    match n
    case Leaf(_) =>
    case Un(_, e) => CutEdgeCounts(o, e, bound);
    case Bin(_, e1, e2) =>
      CutEdgeCounts(o, e1, bound);
      var (s1, c1) := CutEdge(o, e1, bound);
      EdgeCutsFrame(o.arena, s1.arena, e2, bound);
      CutEdgeCounts(s1, e2, bound);
      DepthFrame(s1.arena, CutEdge(s1, e2, bound).0.arena, c1);
  }

  function Eliminate(arena: seq<Node>, hash: Node -> int, root: nat): (r: (State, Node))
    requires WellFormed(arena) && root < |arena|
    ensures WellFormed(r.0.arena) && Extends(arena, r.0.arena) && NodeOk(r.1, |r.0.arena|)
  {
    AuxNode(State(arena, map[], []), hash, arena[root], root)
  }

  /**
   * Elimination preserves meaning: evaluating the emitted definitions in order and then the returned
   * root gives the value of the original, for every interpretation of the operators and every hash.
   * Definition i mentions definitions before i only and has exactly the threshold depth, the root is
   * shallower, and the arena is only appended to.
   */
  lemma EliminationPreservesMeaning<F>(alg: Algebra<F>, vars: nat -> F, arena: seq<Node>, hash: Node -> int, root: nat)
    requires WellFormed(arena) && root < |arena| && Scoped(arena, arena[root], root, 0)
    ensures
      var (t, m) := Eliminate(arena, hash, root);
      && Extends(arena, t.arena)
      && Ok(t) && Reduced(t, m)
      && (forall i | 0 <= i < |t.defs| ::
            && Scoped(t.arena, t.defs[i], |t.arena|, i)
            && Depth(t.arena, t.defs[i], |t.arena|) == 4)
      && Meaning(alg, vars, t, m) == EvalNode(alg, Env(vars, []), arena, arena[root], root)
  {
    var st := State(arena, map[], []);
    AuxNodeSound(alg, vars, st, hash, arena[root], root);
    var t := Eliminate(arena, hash, root).0;
    forall i | 0 <= i < |t.defs|
      ensures Scoped(t.arena, t.defs[i], |t.arena|, i) && Depth(t.arena, t.defs[i], |t.arena|) == CSE_DEPTH_THRESHOLD
    {
      assert DefOk(t, i);
    }
  }

  /**
   * Whatever the hash, a fresh pass leaves what the pass without a table leaves: no definition is ever used twice,
   * there is one for each cut point of the unfolded tree, and no two are the same node.
   */
  lemma NothingShared(arena: seq<Node>, hash: Node -> int, root: nat)
    requires WellFormed(arena) && root < |arena|
    ensures
      var (t, m) := Eliminate(arena, hash, root);
      && (Out(t), m) == CutNode(Output(arena, []), arena[root], root)
      && |t.defs| == Cuts(arena, arena[root], root).0
      && (forall i, j | 0 <= i < j < |t.defs| :: t.defs[i] != t.defs[j])
  {
    AuxNodeCuts(State(arena, map[], []), hash, arena[root], root);
    CutNodeCounts(Output(arena, []), arena[root], root);
  }

  /** A shallow tree has no cut point and keeps its depth; a deep one has a cut point. */
  lemma {:induction false} CutIffDeep(arena: seq<Node>, n: Node, bound: nat)
    requires WellFormed(arena) && bound <= |arena| && NodeOk(n, bound)
    ensures
      var (k, d) := Cuts(arena, n, bound);
      if Depth(arena, n, bound) < CSE_DEPTH_THRESHOLD then k == 0 && d == Depth(arena, n, bound) else k >= 1
    decreases bound, 1
  {
    match n
    case Leaf(_) =>
    case Un(_, e) => CutIffDeepEdge(arena, e, bound);
    case Bin(_, e1, e2) =>
      CutIffDeepEdge(arena, e1, bound);
      CutIffDeepEdge(arena, e2, bound);
  }

  lemma {:induction false} CutIffDeepEdge(arena: seq<Node>, e: Edge, bound: nat)
    requires WellFormed(arena) && bound <= |arena| && EdgeOk(e, bound)
    ensures
      var (k, d) := EdgeCuts(arena, e, bound);
      if EdgeDepth(arena, e, bound) < CSE_DEPTH_THRESHOLD then k == 0 && d == EdgeDepth(arena, e, bound) else k >= 1
    decreases bound, 0
  {
    if e.NodeRef? {
      CutIffDeep(arena, arena[e.id], e.id);
    }
  }

  /** A pass makes a definition exactly if the tree is at least as deep as the threshold. */
  lemma DefinedIffDeep(arena: seq<Node>, hash: Node -> int, root: nat)
    requires WellFormed(arena) && root < |arena|
    ensures |Eliminate(arena, hash, root).0.defs| >= 1 <==> Depth(arena, arena[root], root) >= 4
  {
    hide Eliminate, CutNode;
    NothingShared(arena, hash, root);
    CutIffDeep(arena, arena[root], root);
  }

  /** -(x * (-y + z)): four operators one inside the other are deep enough for a definition, three are not. */
  lemma FourthOperatorDefined(hash: Node -> int, x: nat, y: nat, z: nat)
    ensures
      var arena := [Un(Neg, Direct(Var(y))), Bin(Add, NodeRef(0), Direct(Var(z))), Bin(Mul, Direct(Var(x)), NodeRef(1)),
        Un(Neg, NodeRef(2))];
      && WellFormed(arena)
      && |Eliminate(arena, hash, 3).0.defs| >= 1
      && |Eliminate(arena, hash, 2).0.defs| == 0
  {
    var arena := [Un(Neg, Direct(Var(y))), Bin(Add, NodeRef(0), Direct(Var(z))), Bin(Mul, Direct(Var(x)), NodeRef(1)),
      Un(Neg, NodeRef(2))];
    assert Depth(arena, arena[0], 0) == 1;
    assert Depth(arena, arena[1], 1) == 2;
    assert Depth(arena, arena[2], 2) == 3;
    assert Depth(arena, arena[3], 3) == 4;
    hide Eliminate, Depth;
    DefinedIffDeep(arena, hash, 3);
    DefinedIffDeep(arena, hash, 2);
  }

  /** A subterm that occurs twice is defined twice, once it is deep enough for a definition. */
  lemma RepeatedDefinedTwice(arena: seq<Node>, hash: Node -> int, root: nat, op: BinOp, id: nat)
    requires WellFormed(arena) && root < |arena| && arena[root] == Bin(op, NodeRef(id), NodeRef(id)) && id < root
    ensures |Eliminate(arena, hash, root).0.defs| >= 2 * |Eliminate(arena, hash, id).0.defs|
    ensures Depth(arena, arena[id], id) >= 4 ==> |Eliminate(arena, hash, id).0.defs| >= 1
  {
    hide Eliminate, CutNode;
    NothingShared(arena, hash, root);
    NothingShared(arena, hash, id);
    DefinedIffDeep(arena, hash, id);
  }

  /** The pass with its mutable tables. */
  class Pass {
    const arena: Arena
    const hash: Node -> int
    var bindings: Bindings
    var defs: seq<Node>

    constructor (arena: Arena, hash: Node -> int)
      ensures this.arena == arena && this.hash == hash && Now() == State(arena.nodes, map[], [])
    {
      this.arena, this.hash := arena, hash;
      bindings, defs := map[], [];
    }

    ghost function Now(): State
      reads this, arena
    {
      State(arena.nodes, bindings, defs)
    }

    method RegisterNode(n: Node) returns (m: Node)
      requires arena.Valid() && NodeOk(n, |arena.nodes|)
      modifies this
      ensures (Now(), m) == Register(old(Now()), hash, n)
    {
      var h := hash(n);
      if h in bindings {
        var i := Find(bindings[h], n);
        if i >= 0 {
          return Leaf(NamedVar(i));
        }
      }
      if Depth(arena.nodes, n, |arena.nodes|) < CSE_DEPTH_THRESHOLD {
        return n;
      }
      var index := |defs|;
      if h in bindings {
        bindings := bindings[h := bindings[h] + [(n, index)]];
      } else {
        assert [(n, index)] == [] + [(n, index)];
        bindings := bindings[h := [(n, index)]];
      }
      defs := defs + [n];
      m := Leaf(NamedVar(index));
    }

    method Edge(e: Edge, ghost bound: nat) returns (c: Edge)
      requires arena.Valid() && bound <= |arena.nodes| && EdgeOk(e, bound)
      modifies this, arena
      ensures (Now(), c) == AuxEdge(old(Now()), hash, e, bound)
      decreases bound, 0
    {
      match e
      case Direct(_) => c := e;
      case NodeRef(id) =>
        var n := Visit(arena.nodes[id], id);
        var inserted := arena.Insert(n);
        c := NodeRef(inserted);
    }

    method Visit(n: Node, ghost bound: nat) returns (m: Node)
      requires arena.Valid() && bound <= |arena.nodes| && NodeOk(n, bound)
      modifies this, arena
      ensures (Now(), m) == AuxNode(old(Now()), hash, n, bound)
      decreases bound, 1
    {
      match n
      case Leaf(_) => m := n;
      case Un(op, e) =>
        var c := Edge(e, bound);
        m := RegisterNode(Un(op, c));
      case Bin(op, e1, e2) =>
        var c1 := Edge(e1, bound);
        var c2 := Edge(e2, bound);
        m := RegisterNode(Bin(op, c1, c2));
    }
  }

  /** Runs a fresh pass over a root of the arena. */
  method CommonSubexpressionElimination(arena: Arena, hash: Node -> int, root: nat) returns (defs: seq<Node>, m: Node)
    requires arena.Valid() && root < |arena.nodes|
    modifies arena
    ensures
      var r := Eliminate(old(arena.nodes), hash, root);
      arena.nodes == r.0.arena && defs == r.0.defs && m == r.1
  {
    var pass := new Pass(arena, hash);
    m := pass.Visit(arena.nodes[root], root);
    defs := pass.defs;
  }
}
