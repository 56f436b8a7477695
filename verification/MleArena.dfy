/** The append-only node arena of the polynomial extractor, and what a node in it means. */
module MleArena {
  import opened Prelude

  datatype Atom = Scalar(value: int) | Var(index: nat) | NamedVar(binder: nat)

  /** A child is an atom or the id of an arena node. */
  datatype Edge = Direct(atom: Atom) | NodeRef(id: nat)

  datatype UnOp = Neg | Inv

  datatype BinOp = Add | Mul | Sub | Div

  datatype Node = Leaf(atom: Atom) | Un(uop: UnOp, e: Edge) | Bin(bop: BinOp, e1: Edge, e2: Edge)

  predicate EdgeOk(e: Edge, bound: nat) {
    e.NodeRef? ==> e.id < bound
  }

  /** All children are below bound. */
  predicate NodeOk(n: Node, bound: nat) {
    match n
    case Leaf(_) => true
    case Un(_, e) => EdgeOk(e, bound)
    case Bin(_, e1, e2) => EdgeOk(e1, bound) && EdgeOk(e2, bound)
  }

  /** Nodes only refer to nodes inserted before them. */
  ghost predicate WellFormed(arena: seq<Node>) {
    forall i | 0 <= i < |arena| :: NodeOk(arena[i], i)
  }

  /** Any interpretation of the operators; unbound stands for a missing let-bound variable. */
  datatype Algebra<!F> = Algebra(scalar: int -> F, un: (UnOp, F) -> F, bin: (BinOp, F, F) -> F, unbound: F)

  /** Values of the variables and of the let-bound variables so far. */
  datatype Env<!F> = Env(vars: nat -> F, lets: seq<F>)

  function EvalAtom<F>(alg: Algebra<F>, env: Env<F>, a: Atom): F {
    match a
    case Scalar(v) => alg.scalar(v)
    case Var(i) => env.vars(i)
    case NamedVar(i) => if i < |env.lets| then env.lets[i] else alg.unbound
  }

  ghost function EvalEdge<F>(alg: Algebra<F>, env: Env<F>, arena: seq<Node>, e: Edge, bound: nat): F
    requires WellFormed(arena) && bound <= |arena| && EdgeOk(e, bound)
    decreases bound, 0
  {
    match e
    case Direct(a) => EvalAtom(alg, env, a)
    case NodeRef(id) => EvalNode(alg, env, arena, arena[id], id)
  }

  ghost function EvalNode<F>(alg: Algebra<F>, env: Env<F>, arena: seq<Node>, n: Node, bound: nat): F
    requires WellFormed(arena) && bound <= |arena| && NodeOk(n, bound)
    decreases bound, 1
  {
    match n
    case Leaf(a) => EvalAtom(alg, env, a)
    case Un(op, e) => alg.un(op, EvalEdge(alg, env, arena, e, bound))
    case Bin(op, e1, e2) => alg.bin(op, EvalEdge(alg, env, arena, e1, bound), EvalEdge(alg, env, arena, e2, bound))
  }

  function EdgeDepth(arena: seq<Node>, e: Edge, bound: nat): nat
    requires WellFormed(arena) && bound <= |arena| && EdgeOk(e, bound)
    decreases bound, 0
  {
    match e
    case Direct(_) => 0
    case NodeRef(id) => Depth(arena, arena[id], id)
  }

  function Depth(arena: seq<Node>, n: Node, bound: nat): nat
    requires WellFormed(arena) && bound <= |arena| && NodeOk(n, bound)
    decreases bound, 1
  {
    match n
    case Leaf(_) => 0
    case Un(_, e) => 1 + EdgeDepth(arena, e, bound)
    case Bin(_, e1, e2) => 1 + Max(EdgeDepth(arena, e1, bound), EdgeDepth(arena, e2, bound))
  }

  /** Every let-bound variable reachable from here is below k. */
  ghost predicate EdgeScoped(arena: seq<Node>, e: Edge, bound: nat, k: nat)
    requires WellFormed(arena) && bound <= |arena| && EdgeOk(e, bound)
    decreases bound, 0
  {
    match e
    case Direct(a) => a.NamedVar? ==> a.binder < k
    case NodeRef(id) => Scoped(arena, arena[id], id, k)
  }

  ghost predicate Scoped(arena: seq<Node>, n: Node, bound: nat, k: nat)
    requires WellFormed(arena) && bound <= |arena| && NodeOk(n, bound)
    decreases bound, 1
  {
    match n
    case Leaf(a) => a.NamedVar? ==> a.binder < k
    case Un(_, e) => EdgeScoped(arena, e, bound, k)
    case Bin(_, e1, e2) => EdgeScoped(arena, e1, bound, k) && EdgeScoped(arena, e2, bound, k)
  }

  ghost predicate Extends(a: seq<Node>, b: seq<Node>) {
    |a| <= |b| && a == b[..|a|]
  }

  /** Growing the arena changes nothing about a node that was already meaningful. */
  lemma {:induction false} Frame<F>(alg: Algebra<F>, env: Env<F>, a: seq<Node>, b: seq<Node>, n: Node, bound: nat,
      k: nat)
    requires WellFormed(a) && WellFormed(b) && Extends(a, b) && bound <= |a| && NodeOk(n, bound)
    ensures EvalNode(alg, env, a, n, bound) == EvalNode(alg, env, b, n, bound)
    ensures Depth(a, n, bound) == Depth(b, n, bound)
    ensures Scoped(a, n, bound, k) == Scoped(b, n, bound, k)
    decreases bound, 1
  {
    match n
    case Leaf(_) =>
    case Un(_, e) => FrameEdge(alg, env, a, b, e, bound, k);
    case Bin(_, e1, e2) =>
      FrameEdge(alg, env, a, b, e1, bound, k);
      FrameEdge(alg, env, a, b, e2, bound, k);
  }

  lemma {:induction false} FrameEdge<F>(alg: Algebra<F>, env: Env<F>, a: seq<Node>, b: seq<Node>, e: Edge, bound: nat,
      k: nat)
    requires WellFormed(a) && WellFormed(b) && Extends(a, b) && bound <= |a| && EdgeOk(e, bound)
    ensures EvalEdge(alg, env, a, e, bound) == EvalEdge(alg, env, b, e, bound)
    ensures EdgeDepth(a, e, bound) == EdgeDepth(b, e, bound)
    ensures EdgeScoped(a, e, bound, k) == EdgeScoped(b, e, bound, k)
    decreases bound, 0
  {
    if e.NodeRef? {
      Frame(alg, env, a, b, a[e.id], e.id, k);
    }
  }

  /** A node scoped by k depends on the first k let-bound variables only. */
  lemma {:induction false} OnlyFirst<F>(alg: Algebra<F>, vars: nat -> F, l1: seq<F>, l2: seq<F>, a: seq<Node>,
      n: Node, bound: nat, k: nat)
    requires WellFormed(a) && bound <= |a| && NodeOk(n, bound) && Scoped(a, n, bound, k)
    requires k <= |l1| && k <= |l2| && l1[..k] == l2[..k]
    ensures EvalNode(alg, Env(vars, l1), a, n, bound) == EvalNode(alg, Env(vars, l2), a, n, bound)
    decreases bound, 1
  {
    match n
    case Leaf(atom) => OnlyFirstAtom(alg, vars, l1, l2, atom, k);
    case Un(_, e) => OnlyFirstEdge(alg, vars, l1, l2, a, e, bound, k);
    case Bin(_, e1, e2) =>
      OnlyFirstEdge(alg, vars, l1, l2, a, e1, bound, k);
      OnlyFirstEdge(alg, vars, l1, l2, a, e2, bound, k);
  }

  lemma OnlyFirstAtom<F>(alg: Algebra<F>, vars: nat -> F, l1: seq<F>, l2: seq<F>, a: Atom, k: nat)
    requires a.NamedVar? ==> a.binder < k
    requires k <= |l1| && k <= |l2| && l1[..k] == l2[..k]
    ensures EvalAtom(alg, Env(vars, l1), a) == EvalAtom(alg, Env(vars, l2), a)
  {
    if a.NamedVar? {
      assert l1[a.binder] == l1[..k][a.binder] && l2[a.binder] == l2[..k][a.binder];
    }
  }

  lemma {:induction false} OnlyFirstEdge<F>(alg: Algebra<F>, vars: nat -> F, l1: seq<F>, l2: seq<F>, a: seq<Node>,
      e: Edge, bound: nat, k: nat)
    requires WellFormed(a) && bound <= |a| && EdgeOk(e, bound) && EdgeScoped(a, e, bound, k)
    requires k <= |l1| && k <= |l2| && l1[..k] == l2[..k]
    ensures EvalEdge(alg, Env(vars, l1), a, e, bound) == EvalEdge(alg, Env(vars, l2), a, e, bound)
    decreases bound, 0
  {
    match e
    case Direct(atom) => OnlyFirstAtom(alg, vars, l1, l2, atom, k);
    case NodeRef(id) => OnlyFirst(alg, vars, l1, l2, a, a[id], id, k);
  }

  /** Scoping is monotone. */
  lemma {:induction false} ScopedMore(a: seq<Node>, n: Node, bound: nat, j: nat, k: nat)
    requires WellFormed(a) && bound <= |a| && NodeOk(n, bound) && Scoped(a, n, bound, j) && j <= k
    ensures Scoped(a, n, bound, k)
    decreases bound, 1
  {
    match n
    case Leaf(_) =>
    case Un(_, e) => EdgeScopedMore(a, e, bound, j, k);
    case Bin(_, e1, e2) =>
      EdgeScopedMore(a, e1, bound, j, k);
      EdgeScopedMore(a, e2, bound, j, k);
  }

  lemma {:induction false} EdgeScopedMore(a: seq<Node>, e: Edge, bound: nat, j: nat, k: nat)
    requires WellFormed(a) && bound <= |a| && EdgeOk(e, bound) && EdgeScoped(a, e, bound, j) && j <= k
    ensures EdgeScoped(a, e, bound, k)
    decreases bound, 0
  {
    if e.NodeRef? {
      ScopedMore(a, a[e.id], e.id, j, k);
    }
  }

  /** An atom is used directly, anything else by reference. */
  function EdgeForRoot(arena: seq<Node>, root: nat): Edge
    requires root < |arena|
  {
    if arena[root].Leaf? then Direct(arena[root].atom) else NodeRef(root)
  }

  /** An edge to a root is worth what the root is worth. */
  lemma EdgeForRootMeans<F>(alg: Algebra<F>, env: Env<F>, arena: seq<Node>, root: nat, bound: nat, k: nat)
    requires WellFormed(arena) && root < bound <= |arena|
    ensures
      var e := EdgeForRoot(arena, root);
      && EdgeOk(e, bound)
      && EvalEdge(alg, env, arena, e, bound) == EvalNode(alg, env, arena, arena[root], root)
      && EdgeScoped(arena, e, bound, k) == Scoped(arena, arena[root], root, k)
  {
  }

  /** The global arena. */
  class Arena {
    var nodes: seq<Node>

    ghost predicate Valid()
      reads this
    {
      WellFormed(nodes)
    }

    constructor ()
      ensures Valid() && nodes == []
    {
      nodes := [];
    }

    method Insert(n: Node) returns (id: nat)
      requires Valid() && NodeOk(n, |nodes|)
      modifies this
      ensures Valid() && id == |old(nodes)| && nodes == old(nodes) + [n]
    {
      id := |nodes|;
      nodes := nodes + [n];
    }

    /** A new root worth the operator applied to the old one; existing roots keep their nodes. */
    method Unary<F>(op: UnOp, root: nat, ghost alg: Algebra<F>, ghost env: Env<F>, ghost k: nat) returns (r: nat)
      requires Valid() && root < |nodes|
      modifies this
      ensures Valid() && r == |old(nodes)| && nodes == old(nodes) + [Un(op, EdgeForRoot(old(nodes), root))]
      ensures EvalRoot(alg, env, nodes, r) == alg.un(op, EvalRoot(alg, env, old(nodes), root))
      ensures Scoped(old(nodes), old(nodes[root]), root, k) ==> Scoped(nodes, nodes[r], r, k)
    {
      UnaryMeans(alg, env, nodes, op, root, k);
      r := Insert(Un(op, EdgeForRoot(nodes, root)));
    }

    method Binary<F>(op: BinOp, root: nat, rhs: nat, ghost alg: Algebra<F>, ghost env: Env<F>, ghost k: nat)
        returns (r: nat)
      requires Valid() && root < |nodes| && rhs < |nodes|
      modifies this
      ensures Valid() && r == |old(nodes)|
      ensures nodes == old(nodes) + [Bin(op, EdgeForRoot(old(nodes), root), EdgeForRoot(old(nodes), rhs))]
      ensures EvalRoot(alg, env, nodes, r)
          == alg.bin(op, EvalRoot(alg, env, old(nodes), root), EvalRoot(alg, env, old(nodes), rhs))
      ensures Scoped(old(nodes), old(nodes[root]), root, k) && Scoped(old(nodes), old(nodes[rhs]), rhs, k) ==>
        Scoped(nodes, nodes[r], r, k)
    {
      BinaryMeans(alg, env, nodes, op, root, rhs, k);
      r := Insert(Bin(op, EdgeForRoot(nodes, root), EdgeForRoot(nodes, rhs)));
    }
  }

  /** What a root of the arena is worth. */
  ghost function EvalRoot<F>(alg: Algebra<F>, env: Env<F>, arena: seq<Node>, root: nat): F
    requires WellFormed(arena) && root < |arena|
  {
    EvalNode(alg, env, arena, arena[root], root)
  }

  /** The root a unary operator adds is worth the operator applied to the old root, and is scoped alike. */
  lemma UnaryMeans<F>(alg: Algebra<F>, env: Env<F>, a: seq<Node>, op: UnOp, root: nat, k: nat)
    requires WellFormed(a) && root < |a|
    ensures
      var n := Un(op, EdgeForRoot(a, root));
      var b := a + [n];
      && NodeOk(n, |a|) && WellFormed(b)
      && EvalNode(alg, env, b, n, |a|) == alg.un(op, EvalNode(alg, env, a, a[root], root))
      && (Scoped(a, a[root], root, k) ==> Scoped(b, n, |a|, k))
  {
    var e := EdgeForRoot(a, root);
    EdgeForRootMeans(alg, env, a, root, |a|, k);
    FrameEdge(alg, env, a, a + [Un(op, e)], e, |a|, k);
  }

  lemma BinaryMeans<F>(alg: Algebra<F>, env: Env<F>, a: seq<Node>, op: BinOp, root: nat, rhs: nat, k: nat)
    requires WellFormed(a) && root < |a| && rhs < |a|
    ensures
      var n := Bin(op, EdgeForRoot(a, root), EdgeForRoot(a, rhs));
      var b := a + [n];
      && NodeOk(n, |a|) && WellFormed(b)
      && EvalNode(alg, env, b, n, |a|)
          == alg.bin(op, EvalNode(alg, env, a, a[root], root), EvalNode(alg, env, a, a[rhs], rhs))
      && (Scoped(a, a[root], root, k) && Scoped(a, a[rhs], rhs, k) ==> Scoped(b, n, |a|, k))
  {
    var e1, e2 := EdgeForRoot(a, root), EdgeForRoot(a, rhs);
    EdgeForRootMeans(alg, env, a, root, |a|, k);
    EdgeForRootMeans(alg, env, a, rhs, |a|, k);
    FrameEdge(alg, env, a, a + [Bin(op, e1, e2)], e1, |a|, k);
    FrameEdge(alg, env, a, a + [Bin(op, e1, e2)], e2, |a|, k);
  }
}
