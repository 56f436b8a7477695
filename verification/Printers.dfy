/** Sumcheck claim expressions and their printer. */
module ClaimPrinter {
  import opened CommutativeRing
  import N = Notation

  /** Field constants are displayed by their canonical representative. */
  datatype ClaimExpr = Constant(val: nat) | Var(polynomial: nat)
    | Add(l: ClaimExpr, r: ClaimExpr) | Mul(l: ClaimExpr, r: ClaimExpr) | Sub(l: ClaimExpr, r: ClaimExpr)

  datatype ClaimName = Numeral(val: nat) | Opening(polynomial: nat)

  function PrettyPrint(e: ClaimExpr, group: bool): seq<N.Token<ClaimName>> {
    match e
    case Constant(val) => [N.Name(Numeral(val))]
    case Var(id) => [N.Name(Opening(id))]
    case Add(l, r) => Grouped(group, PrettyPrint(l, false) + [N.Plus] + PrettyPrint(r, false))
    case Mul(l, r) => Grouped(group, PrettyPrint(l, true) + [N.Star] + PrettyPrint(r, true))
    case Sub(l, r) => Grouped(group, PrettyPrint(l, false) + [N.Minus] + PrettyPrint(r, true))
  }

  function Grouped(group: bool, ts: seq<N.Token<ClaimName>>): seq<N.Token<ClaimName>> {
    if group then [N.Open] + ts + [N.Close] else ts
  }

  function ClaimValue<F>(r: Ring<F>, openings: nat -> F, e: ClaimExpr): F {
    match e
    case Constant(val) => r.literal(val)
    case Var(id) => openings(id)
    case Add(x, y) => r.add(ClaimValue(r, openings, x), ClaimValue(r, openings, y))
    case Mul(x, y) => r.mul(ClaimValue(r, openings, x), ClaimValue(r, openings, y))
    case Sub(x, y) => r.add(ClaimValue(r, openings, x), r.neg(ClaimValue(r, openings, y)))
  }

  function NameValue<F>(r: Ring<F>, openings: nat -> F): ClaimName -> F {
    (n: ClaimName) => match n case Numeral(val) => r.literal(val) case Opening(id) => openings(id)
  }

  function Shape(e: ClaimExpr): N.Expr<ClaimName> {
    match e
    case Constant(val) => N.Operand(Numeral(val))
    case Var(id) => N.Operand(Opening(id))
    case Add(l, r) => N.Add(Shape(l), Shape(r))
    case Mul(l, r) => N.Mul(Shape(l), Shape(r))
    case Sub(l, r) => N.Sub(Shape(l), Shape(r))
  }

  lemma {:induction false} PrintsShape<F>(r: Ring<F>, openings: nat -> F, e: ClaimExpr, group: bool)
    ensures PrettyPrint(e, group) == N.Print(Shape(e), group, true)
    ensures ClaimValue(r, openings, e) == N.Value(r, NameValue(r, openings), Shape(e))
  {
    match e
    case Constant(_) =>
    case Var(_) =>
    case Add(x, y) =>
      PrintsShape(r, openings, x, false);
      PrintsShape(r, openings, y, false);
    case Mul(x, y) =>
      PrintsShape(r, openings, x, true);
      PrintsShape(r, openings, y, true);
    case Sub(x, y) =>
      PrintsShape(r, openings, x, false);
      PrintsShape(r, openings, y, true);
  }

  /** A printed claim, grouped or not, reads back to the same value in every commutative ring. */
  lemma ClaimReadsBack<F(!new)>(r: Ring<F>, openings: nat -> F, e: ClaimExpr, group: bool)
    requires IsRing(r)
    ensures
      var p := N.Read(PrettyPrint(e, group));
      && p.Got?
      && N.Value(r, NameValue(r, openings), p.tree) == ClaimValue(r, openings, e)
  {
    PrintsShape(r, openings, e, group);
    N.ReadAfterPrint(r, NameValue(r, openings), Shape(e), group, true);
  }
}

/** The printer of arena nodes, and the sequence of Lean definitions an extracted polynomial becomes. */
module MlePrinter {
  import opened CommutativeRing
  import opened MleArena
  import Cse
  import N = Notation

  /** No quotient and no inverse is reachable. */
  ghost predicate EdgePlain(arena: seq<Node>, e: Edge, bound: nat)
    requires WellFormed(arena) && bound <= |arena| && EdgeOk(e, bound)
    decreases bound, 0
  {
    e.NodeRef? ==> Plain(arena, arena[e.id], e.id)
  }

  ghost predicate Plain(arena: seq<Node>, n: Node, bound: nat)
    requires WellFormed(arena) && bound <= |arena| && NodeOk(n, bound)
    decreases bound, 1
  {
    match n
    case Leaf(_) => true
    case Un(op, e) => op == Neg && EdgePlain(arena, e, bound)
    case Bin(op, e1, e2) => op != Div && EdgePlain(arena, e1, bound) && EdgePlain(arena, e2, bound)
  }

  /** The sign of a negative constant is a token of its own. */
  function FmtAtom(a: Atom): seq<N.Token<Atom>> {
    if a.Scalar? && a.value < 0 then [N.Minus, N.Name(Scalar(-a.value))] else [N.Name(a)]
  }

  function FmtEdge(arena: seq<Node>, e: Edge, bound: nat, group: bool): seq<N.Token<Atom>>
    requires WellFormed(arena) && bound <= |arena| && EdgeOk(e, bound) && EdgePlain(arena, e, bound)
    decreases bound, 0
  {
    match e
    case Direct(a) => FmtAtom(a)
    case NodeRef(id) => FmtNode(arena, arena[id], id, group)
  }

  /** Sums and differences are wrapped when grouped; products never are. */
  function FmtNode(arena: seq<Node>, n: Node, bound: nat, group: bool): seq<N.Token<Atom>>
    requires WellFormed(arena) && bound <= |arena| && NodeOk(n, bound) && Plain(arena, n, bound)
    decreases bound, 1
  {
    match n
    case Leaf(a) => FmtAtom(a)
    case Un(_, e) => [N.Minus] + FmtEdge(arena, e, bound, true)
    case Bin(op, e1, e2) =>
      match op
      case Add =>
        var ts := FmtEdge(arena, e1, bound, false) + [N.Plus] + FmtEdge(arena, e2, bound, false);
        if group then [N.Open] + ts + [N.Close] else ts
      case Sub =>
        var ts := FmtEdge(arena, e1, bound, false) + [N.Minus] + FmtEdge(arena, e2, bound, true);
        if group then [N.Open] + ts + [N.Close] else ts
      case Mul => FmtEdge(arena, e1, bound, true) + [N.Star] + FmtEdge(arena, e2, bound, true)
      case Div => []
  }

  /** (x + y) * -z - (x + y), where the sum is one node: parentheses around sums in products and after a minus only. */
  lemma PrintedText(x: nat, y: nat, z: nat)
    ensures
      var sum, product := Bin(Add, Direct(Var(x)), Direct(Var(y))), Bin(Mul, NodeRef(0), NodeRef(1));
      var arena, root := [sum, Un(Neg, Direct(Var(z))), product], Bin(Sub, NodeRef(2), NodeRef(0));
      var inner := [N.Open, N.Name(Var(x)), N.Plus, N.Name(Var(y)), N.Close];
      && WellFormed(arena)
      && Plain(arena, root, 3)
      && FmtNode(arena, sum, 3, false) == [N.Name(Var(x)), N.Plus, N.Name(Var(y))]
      && FmtNode(arena, root, 3, false) == inner + [N.Star, N.Minus, N.Name(Var(z)), N.Minus] + inner
  {
    var sum, product := Bin(Add, Direct(Var(x)), Direct(Var(y))), Bin(Mul, NodeRef(0), NodeRef(1));
    var negated := Un(Neg, Direct(Var(z)));
    var arena, root := [sum, negated, product], Bin(Sub, NodeRef(2), NodeRef(0));
    var inner := [N.Open, N.Name(Var(x)), N.Plus, N.Name(Var(y)), N.Close];
    assert Plain(arena, sum, 0) && Plain(arena, negated, 1) && Plain(arena, product, 2);
    assert FmtNode(arena, sum, 0, true) == inner;
    assert FmtNode(arena, negated, 1, true) == [N.Minus, N.Name(Var(z))];
    assert FmtNode(arena, product, 2, false) == inner + [N.Star] + [N.Minus, N.Name(Var(z))];
    assert FmtNode(arena, root, 3, false) == FmtNode(arena, product, 2, false) + [N.Minus] + inner;
  }

  /** The ring operations as an interpretation; inverses and quotients stay arbitrary. */
  function RingAlgebra<F>(r: Ring<F>, inv: F -> F, div: (F, F) -> F, unbound: F): Algebra<F> {
    Algebra(
      r.literal,
      (op: UnOp, x: F) => if op == Neg then r.neg(x) else inv(x),
      (op: BinOp, x: F, y: F) => match op
        case Add => r.add(x, y)
        case Mul => r.mul(x, y)
        case Sub => r.add(x, r.neg(y))
        case Div => div(x, y),
      unbound)
  }

  function AtomShape(a: Atom): N.Expr<Atom> {
    if a.Scalar? && a.value < 0 then N.Neg(N.Operand(Scalar(-a.value))) else N.Operand(a)
  }

  ghost function EdgeShape(arena: seq<Node>, e: Edge, bound: nat): N.Expr<Atom>
    requires WellFormed(arena) && bound <= |arena| && EdgeOk(e, bound) && EdgePlain(arena, e, bound)
    decreases bound, 0
  {
    match e
    case Direct(a) => AtomShape(a)
    case NodeRef(id) => Shape(arena, arena[id], id)
  }

  ghost function Shape(arena: seq<Node>, n: Node, bound: nat): N.Expr<Atom>
    requires WellFormed(arena) && bound <= |arena| && NodeOk(n, bound) && Plain(arena, n, bound)
    decreases bound, 1
  {
    match n
    case Leaf(a) => AtomShape(a)
    case Un(_, e) => N.Neg(EdgeShape(arena, e, bound))
    case Bin(op, e1, e2) =>
      var l, r := EdgeShape(arena, e1, bound), EdgeShape(arena, e2, bound);
      match op case Add => N.Add(l, r) case Mul => N.Mul(l, r) case _ => N.Sub(l, r)
  }

  ghost function AtomValue<F>(alg: Algebra<F>, env: Env<F>): Atom -> F {
    (a: Atom) => EvalAtom(alg, env, a)
  }

  lemma AtomPrintsShape<F(!new)>(r: Ring<F>, alg: Algebra<F>, env: Env<F>, a: Atom, group: bool)
    requires IsRing(r) && alg.scalar == r.literal
    ensures FmtAtom(a) == N.Print(AtomShape(a), group, false)
    ensures EvalAtom(alg, env, a) == N.Value(r, AtomValue(alg, env), AtomShape(a))
  {
    hide IsRing;
    if a.Scalar? {
      NegLiteral(r, -a.value);
    }
  }

  lemma {:induction false} EdgePrintsShape<F(!new)>(r: Ring<F>, inv: F -> F, div: (F, F) -> F, unbound: F,
      env: Env<F>, arena: seq<Node>, e: Edge, bound: nat, group: bool)
    requires IsRing(r) && WellFormed(arena) && bound <= |arena| && EdgeOk(e, bound) && EdgePlain(arena, e, bound)
    ensures FmtEdge(arena, e, bound, group) == N.Print(EdgeShape(arena, e, bound), group, false)
    ensures
      var alg := RingAlgebra(r, inv, div, unbound);
      EvalEdge(alg, env, arena, e, bound) == N.Value(r, AtomValue(alg, env), EdgeShape(arena, e, bound))
    decreases bound, 0
  {
    hide IsRing;
    match e
    case Direct(a) => AtomPrintsShape(r, RingAlgebra(r, inv, div, unbound), env, a, group);
    case NodeRef(id) => PrintsShape(r, inv, div, unbound, env, arena, arena[id], id, group);
  }

  lemma {:induction false} PrintsShape<F(!new)>(r: Ring<F>, inv: F -> F, div: (F, F) -> F, unbound: F, env: Env<F>,
      arena: seq<Node>, n: Node, bound: nat, group: bool)
    requires IsRing(r) && WellFormed(arena) && bound <= |arena| && NodeOk(n, bound) && Plain(arena, n, bound)
    ensures FmtNode(arena, n, bound, group) == N.Print(Shape(arena, n, bound), group, false)
    ensures
      var alg := RingAlgebra(r, inv, div, unbound);
      EvalNode(alg, env, arena, n, bound) == N.Value(r, AtomValue(alg, env), Shape(arena, n, bound))
    decreases bound, 1
  {
    hide IsRing;
    match n
    case Leaf(a) => AtomPrintsShape(r, RingAlgebra(r, inv, div, unbound), env, a, group);
    case Un(_, e) => EdgePrintsShape(r, inv, div, unbound, env, arena, e, bound, true);
    case Bin(op, e1, e2) =>
      EdgePrintsShape(r, inv, div, unbound, env, arena, e1, bound, op == Mul);
      EdgePrintsShape(r, inv, div, unbound, env, arena, e2, bound, op != Add);
  }

  /** A printed node reads back to the node's value in every commutative ring. */
  lemma NodeReadsBack<F(!new)>(r: Ring<F>, inv: F -> F, div: (F, F) -> F, unbound: F, env: Env<F>, arena: seq<Node>,
      n: Node, bound: nat, group: bool)
    requires IsRing(r) && WellFormed(arena) && bound <= |arena| && NodeOk(n, bound) && Plain(arena, n, bound)
    ensures
      var alg := RingAlgebra(r, inv, div, unbound);
      var p := N.Read(FmtNode(arena, n, bound, group));
      && p.Got?
      && N.Value(r, AtomValue(alg, env), p.tree) == EvalNode(alg, env, arena, n, bound)
  {
    hide IsRing;
    PrintsShape(r, inv, div, unbound, env, arena, n, bound, group);
    N.ReadAfterPrint(r, AtomValue(RingAlgebra(r, inv, div, unbound), env), Shape(arena, n, bound), group, false);
  }

  lemma {:induction false} EdgeFmtFrame(a: seq<Node>, b: seq<Node>, e: Edge, bound: nat, group: bool)
    requires WellFormed(a) && WellFormed(b) && Extends(a, b) && bound <= |a| && EdgeOk(e, bound)
    ensures EdgePlain(a, e, bound) == EdgePlain(b, e, bound)
    ensures EdgePlain(a, e, bound) ==> FmtEdge(a, e, bound, group) == FmtEdge(b, e, bound, group)
    decreases bound, 0
  {
    if e.NodeRef? {
      FmtFrame(a, b, a[e.id], e.id, group);
    }
  }

  /** Growing the arena changes nothing about how an old node prints. */
  lemma {:induction false} FmtFrame(a: seq<Node>, b: seq<Node>, n: Node, bound: nat, group: bool)
    requires WellFormed(a) && WellFormed(b) && Extends(a, b) && bound <= |a| && NodeOk(n, bound)
    ensures Plain(a, n, bound) == Plain(b, n, bound)
    ensures Plain(a, n, bound) ==> FmtNode(a, n, bound, group) == FmtNode(b, n, bound, group)
    decreases bound, 1
  {
    match n
    case Leaf(_) =>
    case Un(_, e) => EdgeFmtFrame(a, b, e, bound, true);
    case Bin(op, e1, e2) =>
      EdgeFmtFrame(a, b, e1, bound, op == Mul);
      EdgeFmtFrame(a, b, e2, bound, op != Add);
  }

  lemma AnyBound(a: seq<Node>, n: Node, b1: nat, b2: nat, group: bool)
    requires WellFormed(a) && b1 <= |a| && b2 <= |a| && NodeOk(n, b1) && NodeOk(n, b2)
    ensures Plain(a, n, b1) == Plain(a, n, b2)
    ensures Plain(a, n, b1) ==> FmtNode(a, n, b1, group) == FmtNode(a, n, b2, group)
  {
  }

  ghost predicate PlainState(st: Cse.State) {
    && WellFormed(st.arena) && Cse.DefsInArena(st.arena, st.defs)
    && forall i | 0 <= i < |st.defs| :: Plain(st.arena, st.defs[i], |st.arena|)
  }

  lemma RegisterPlain(st: Cse.State, hash: Node -> int, n: Node)
    requires PlainState(st) && NodeOk(n, |st.arena|) && Plain(st.arena, n, |st.arena|)
    ensures var (t, m) := Cse.Register(st, hash, n); PlainState(t) && Plain(t.arena, m, |t.arena|)
  {
  }

  lemma InsertPlain(s: Cse.State, n: Node)
    requires PlainState(s) && NodeOk(n, |s.arena|) && Plain(s.arena, n, |s.arena|)
    ensures var t := s.(arena := s.arena + [n]); PlainState(t) && EdgePlain(t.arena, NodeRef(|s.arena|), |t.arena|)
  {
    var t := s.(arena := s.arena + [n]);
    FmtFrame(s.arena, t.arena, n, |s.arena|, false);
    forall i | 0 <= i < |t.defs|
      ensures NodeOk(t.defs[i], |t.arena|) && Plain(t.arena, t.defs[i], |t.arena|)
    {
      FmtFrame(s.arena, t.arena, s.defs[i], |s.arena|, false);
      AnyBound(t.arena, s.defs[i], |s.arena|, |t.arena|, false);
    }
  }

  /** Elimination introduces no quotient and no inverse. */
  lemma {:induction false} AuxEdgePlain(st: Cse.State, hash: Node -> int, e: Edge, bound: nat)
    requires PlainState(st) && bound <= |st.arena| && EdgeOk(e, bound) && EdgePlain(st.arena, e, bound)
    ensures var (t, c) := Cse.AuxEdge(st, hash, e, bound); PlainState(t) && EdgePlain(t.arena, c, |t.arena|)
    decreases bound, 0
  {
    match e
    case Direct(_) =>
    case NodeRef(id) =>
      AuxNodePlain(st, hash, st.arena[id], id);
      var (s, n) := Cse.AuxNode(st, hash, st.arena[id], id);
      InsertPlain(s, n);
  }

  lemma {:induction false} AuxNodePlain(st: Cse.State, hash: Node -> int, n: Node, bound: nat)
    requires PlainState(st) && bound <= |st.arena| && NodeOk(n, bound) && Plain(st.arena, n, bound)
    ensures var (t, m) := Cse.AuxNode(st, hash, n, bound); PlainState(t) && Plain(t.arena, m, |t.arena|)
    decreases bound, 1
  {
    match n
    case Leaf(_) =>
    case Un(op, e) =>
      AuxEdgePlain(st, hash, e, bound);
      var (s, c) := Cse.AuxEdge(st, hash, e, bound);
      RegisterPlain(s, hash, Un(op, c));
    case Bin(op, e1, e2) =>
      AuxEdgePlain(st, hash, e1, bound);
      var (s1, c1) := Cse.AuxEdge(st, hash, e1, bound);
      EdgeFmtFrame(st.arena, s1.arena, e2, bound, false);
      AuxEdgePlain(s1, hash, e2, bound);
      var (s2, c2) := Cse.AuxEdge(s1, hash, e2, bound);
      EdgeFmtFrame(s1.arena, s2.arena, c1, |s1.arena|, false);
      if c1.NodeRef? {
        AnyBound(s2.arena, s2.arena[c1.id], c1.id, c1.id, false);
      }
      RegisterPlain(s2, hash, Bin(op, c1, c2));
  }

  type Text = seq<N.Token<Atom>>

  /** What a reader makes of a text, given what it made of the definitions before it. */
  function Understood<F>(r: Ring<F>, alg: Algebra<F>, env: Env<F>, ts: Text): F {
    var p := N.Read(ts);
    if p.Got? then N.Value(r, (a: Atom) => EvalAtom(alg, env, a), p.tree) else alg.unbound
  }

  /** Definitions are read in order; each may use those before it by name. */
  function UnderstoodAll<F>(r: Ring<F>, alg: Algebra<F>, vars: nat -> F, texts: seq<Text>): (v: seq<F>)
    ensures |v| == |texts|
  {
    if texts == [] then []
    else
      var before := UnderstoodAll(r, alg, vars, texts[..|texts| - 1]);
      before + [Understood(r, alg, Env(vars, before), texts[|texts| - 1])]
  }

  ghost predicate Prints(arena: seq<Node>, defs: seq<Node>, texts: seq<Text>) {
    && WellFormed(arena)
    && |texts| == |defs|
    && forall i | 0 <= i < |defs| ::
         && NodeOk(defs[i], |arena|)
         && Plain(arena, defs[i], |arena|)
         && texts[i] == FmtNode(arena, defs[i], |arena|, false)
  }

  lemma {:induction false} DefinitionsReadBack<F(!new)>(r: Ring<F>, inv: F -> F, div: (F, F) -> F, unbound: F,
      vars: nat -> F, arena: seq<Node>, defs: seq<Node>, texts: seq<Text>)
    requires IsRing(r) && Prints(arena, defs, texts)
    ensures Cse.DefsInArena(arena, defs)
    ensures
      var alg := RingAlgebra(r, inv, div, unbound);
      UnderstoodAll(r, alg, vars, texts) == Cse.DefValues(alg, vars, arena, defs)
  {
    hide IsRing;
    if defs != [] {
      var last := |defs| - 1;
      DefinitionsReadBack(r, inv, div, unbound, vars, arena, defs[..last], texts[..last]);
      var alg := RingAlgebra(r, inv, div, unbound);
      var before := Cse.DefValues(alg, vars, arena, defs[..last]);
      NodeReadsBack(r, inv, div, unbound, Env(vars, before), arena, defs[last], |arena|, false);
    }
  }

  /**
   * Prints the definitions and then the result of an extracted polynomial, inserting each printed
   * node into the arena as it goes.
   */
  method FormatForLean(arena: Arena, hash: Node -> int, root: nat) returns (texts: seq<Text>, result: Text)
    requires arena.Valid() && root < |arena.nodes|
    requires Plain(arena.nodes, arena.nodes[root], root)
    modifies arena
    ensures arena.Valid() && Extends(old(arena.nodes), arena.nodes)
    ensures
      var (t, m) := Cse.Eliminate(old(arena.nodes), hash, root);
      && Prints(t.arena, t.defs, texts)
      && Plain(t.arena, m, |t.arena|)
      && result == FmtNode(t.arena, m, |t.arena|, false)
  {
    hide FmtNode, Plain, Cse.Eliminate, PlainState;
    ghost var (t, m) := Cse.Eliminate(arena.nodes, hash, root);
    EliminatePlain(arena.nodes, hash, root);
    var defs, node := Cse.CommonSubexpressionElimination(arena, hash, root);
    var id := arena.Insert(node);
    texts := [];
    var index := 0;
    while index < |defs|
      invariant 0 <= index <= |defs|
      invariant arena.Valid() && Extends(t.arena + [m], arena.nodes)
      invariant |texts| == index
      invariant forall i | 0 <= i < index ::
                  && NodeOk(defs[i], |t.arena|)
                  && Plain(t.arena, defs[i], |t.arena|)
                  && texts[i] == FmtNode(t.arena, defs[i], |t.arena|, false)
    {
      PlainAt(t, index);
      var text := PrintDefinition(arena, t.arena, defs[index]);
      texts := texts + [text];
      index := index + 1;
    }
    AllPlain(t, texts);
    assert arena.nodes[id] == m;
    FmtStable(t.arena, arena.nodes, m, id);
    result := FmtNode(arena.nodes, arena.nodes[id], id, false);
  }

  /** Inserts a definition and prints it from there: the text does not depend on what else the arena holds. */
  method PrintDefinition(arena: Arena, ghost a: seq<Node>, n: Node) returns (text: Text)
    requires arena.Valid() && WellFormed(a) && Extends(a, arena.nodes) && NodeOk(n, |a|) && Plain(a, n, |a|)
    modifies arena
    ensures arena.Valid() && |arena.nodes| == |old(arena.nodes)| + 1 && arena.nodes == old(arena.nodes) + [n]
    ensures text == FmtNode(a, n, |a|, false)
  {
    hide FmtNode, Plain;
    OkMore(n, |a|, |arena.nodes|);
    var d := arena.Insert(n);
    FmtStable(a, arena.nodes, n, d);
    text := FmtNode(arena.nodes, arena.nodes[d], d, false);
  }

  lemma OkMore(n: Node, b1: nat, b2: nat)
    requires NodeOk(n, b1) && b1 <= b2
    ensures NodeOk(n, b2)
  {
  }

  lemma EliminatePlain(arena: seq<Node>, hash: Node -> int, root: nat)
    requires WellFormed(arena) && root < |arena| && Plain(arena, arena[root], root)
    ensures var (t, m) := Cse.Eliminate(arena, hash, root); PlainState(t) && Plain(t.arena, m, |t.arena|)
  {
    AuxNodePlain(Cse.State(arena, map[], []), hash, arena[root], root);
  }

  lemma PlainAt(t: Cse.State, i: nat)
    requires PlainState(t) && i < |t.defs|
    ensures WellFormed(t.arena) && NodeOk(t.defs[i], |t.arena|) && Plain(t.arena, t.defs[i], |t.arena|)
  {
    hide Plain;
  }

  lemma AllPlain(t: Cse.State, texts: seq<Text>)
    requires PlainState(t) && |texts| == |t.defs|
    requires forall i | 0 <= i < |texts| ::
               && NodeOk(t.defs[i], |t.arena|)
               && Plain(t.arena, t.defs[i], |t.arena|)
               && texts[i] == FmtNode(t.arena, t.defs[i], |t.arena|, false)
    ensures Prints(t.arena, t.defs, texts)
  {
    hide Plain, FmtNode;
  }

  lemma FmtStable(a: seq<Node>, b: seq<Node>, n: Node, id: nat)
    requires WellFormed(a) && WellFormed(b) && Extends(a, b) && |a| <= id <= |b|
    requires NodeOk(n, |a|) && Plain(a, n, |a|)
    ensures NodeOk(n, id) && Plain(b, n, id) && FmtNode(b, n, id, false) == FmtNode(a, n, |a|, false)
  {
    FmtFrame(a, b, n, |a|, false);
    AnyBound(b, n, |a|, id, false);
  }

  /**
   * Extraction is faithful: a reader with standard precedence that takes the printed definitions in
   * order and then the printed result arrives at the value of the original polynomial.
   */
  lemma ExtractionReadsBack<F(!new)>(r: Ring<F>, inv: F -> F, div: (F, F) -> F, unbound: F, vars: nat -> F,
      arena: seq<Node>, hash: Node -> int, root: nat, texts: seq<Text>, result: Text)
    requires IsRing(r) && WellFormed(arena) && root < |arena|
    requires Plain(arena, arena[root], root) && Scoped(arena, arena[root], root, 0)
    requires
      var (t, m) := Cse.Eliminate(arena, hash, root);
      && Prints(t.arena, t.defs, texts)
      && Plain(t.arena, m, |t.arena|)
      && result == FmtNode(t.arena, m, |t.arena|, false)
    ensures
      var alg := RingAlgebra(r, inv, div, unbound);
      Understood(r, alg, Env(vars, UnderstoodAll(r, alg, vars, texts)), result)
        == EvalNode(alg, Env(vars, []), arena, arena[root], root)
  {
    hide IsRing;
    var alg := RingAlgebra(r, inv, div, unbound);
    var (t, m) := Cse.Eliminate(arena, hash, root);
    Cse.EliminationPreservesMeaning(alg, vars, arena, hash, root);
    DefinitionsReadBack(r, inv, div, unbound, vars, t.arena, t.defs, texts);
    var env := Env(vars, Cse.DefValues(alg, vars, t.arena, t.defs));
    NodeReadsBack(r, inv, div, unbound, env, t.arena, m, |t.arena|, false);
  }
}
