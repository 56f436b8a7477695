/** Virtual instructions over words of n = 2^k bits, and the inline sequences of real instructions. */
module VirtualSequences {
  import opened Bits
  import opened Words
  import opened Shifts

  const RISCV_REGISTER_COUNT: nat := 32
  const REGISTER_COUNT: nat := 128

  datatype Instruction =
    | ADD(rd: nat, rs1: nat, rs2: nat)
    | ADDI(rd: nat, rs1: nat, imm: nat)
    | ANDI(rd: nat, rs1: nat, imm: nat)
    | MUL(rd: nat, rs1: nat, rs2: nat)
    | MULHU(rd: nat, rs1: nat, rs2: nat)
    | SUB(rd: nat, rs1: nat, rs2: nat)
    | XOR(rd: nat, rs1: nat, rs2: nat)
    | SLTU(rd: nat, rs1: nat, rs2: nat)
    | VirtualAdvice(rd: nat)
    | VirtualAssertEQ(rs1: nat, rs2: nat)
    | VirtualAssertLTE(rs1: nat, rs2: nat)
    | VirtualAssertMulUNoOverflow(rs1: nat, rs2: nat)
    | VirtualAssertValidDiv0(rs1: nat, rs2: nat)
    | VirtualAssertValidUnsignedRemainder(rs1: nat, rs2: nat)
    | VirtualChangeDivisor(rd: nat, rs1: nat, rs2: nat)
    | VirtualMovsign(rd: nat, rs1: nat)
    | VirtualPow2(rd: nat, rs1: nat)
    | VirtualShiftRightBitmask(rd: nat, rs1: nat)
    | VirtualSRL(rd: nat, rs1: nat, rs2: nat)
    | VirtualSRA(rd: nat, rs1: nat, rs2: nat)
    | VirtualSRAI(rd: nat, rs1: nat, shift: nat)

  predicate IsReal(i: Instruction) {
    i.ADD? || i.ADDI? || i.ANDI? || i.MUL? || i.MULHU? || i.SUB? || i.XOR? || i.SLTU?
  }

  predicate IsAssert(i: Instruction) {
    || i.VirtualAssertEQ? || i.VirtualAssertLTE? || i.VirtualAssertMulUNoOverflow?
    || i.VirtualAssertValidDiv0? || i.VirtualAssertValidUnsignedRemainder?
  }

  function Updated(x: seq<nat>, i: nat, v: nat): seq<nat> {
    if i < |x| then x[i := v] else x
  }

  /** Registers, whether every assert so far holds, and the number of advice words used. */
  datatype State = State(x: seq<nat>, holds: bool, used: nat) {

    function X(i: nat): nat {
      if i < |x| then x[i] else 0
    }

    function Set(i: nat, v: nat): State {
      this.(x := Updated(x, i, v))
    }

    function Check(b: bool): State {
      this.(holds := holds && b)
    }
  }

  /** One instruction at 2^k bits; advice i is an arbitrary word. */
  function Exec(k: nat, advice: nat -> nat, s: State, instr: Instruction): State {
    var n := Pow2(k);
    match instr
    case ADD(rd, rs1, rs2) => s.Set(rd, AddW(n, s.X(rs1), s.X(rs2)))
    case ADDI(rd, rs1, imm) => s.Set(rd, AddW(n, s.X(rs1), imm))
    case ANDI(rd, rs1, imm) => s.Set(rd, And(s.X(rs1), imm))
    case MUL(rd, rs1, rs2) => s.Set(rd, MulW(n, s.X(rs1), s.X(rs2)))
    case MULHU(rd, rs1, rs2) => s.Set(rd, MulhuW(n, s.X(rs1), s.X(rs2)))
    case SUB(rd, rs1, rs2) => s.Set(rd, SubW(n, s.X(rs1), s.X(rs2)))
    case XOR(rd, rs1, rs2) => s.Set(rd, Xor(s.X(rs1), s.X(rs2)))
    case SLTU(rd, rs1, rs2) => s.Set(rd, if s.X(rs1) < s.X(rs2) then 1 else 0)
    case VirtualAdvice(rd) => s.Set(rd, advice(s.used)).(used := s.used + 1)
    case VirtualAssertEQ(rs1, rs2) => s.Check(s.X(rs1) == s.X(rs2))
    case VirtualAssertLTE(rs1, rs2) => s.Check(s.X(rs1) <= s.X(rs2))
    case VirtualAssertMulUNoOverflow(rs1, rs2) => s.Check(Product(s.X(rs1), s.X(rs2)) < Size(n))
    case VirtualAssertValidDiv0(rs1, rs2) => s.Check(s.X(rs1) == 0 ==> s.X(rs2) == Ones(n))
    case VirtualAssertValidUnsignedRemainder(rs1, rs2) => s.Check(s.X(rs2) == 0 || s.X(rs1) < s.X(rs2))
    case VirtualChangeDivisor(rd, rs1, rs2) => s.Set(rd, ChangeDivisor(n, s.X(rs1), s.X(rs2)))
    case VirtualMovsign(rd, rs1) => s.Set(rd, SignMask(n, s.X(rs1)))
    case VirtualPow2(rd, rs1) => s.Set(rd, Wrap(n, Pow2(Amount(n, s.X(rs1)))))
    case VirtualShiftRightBitmask(rd, rs1) => s.Set(rd, ShiftRightBitmask(n, s.X(rs1)))
    case VirtualSRL(rd, rs1, rs2) => s.Set(rd, SrlW(s.X(rs1), TrailingZeros(s.X(rs2), k, n)))
    case VirtualSRA(rd, rs1, rs2) => s.Set(rd, SraW(n, s.X(rs1), TrailingZeros(s.X(rs2), k, n)))
    case VirtualSRAI(rd, rs1, shift) => s.Set(rd, SraW(n, s.X(rs1), shift))
  }

  function Run(k: nat, advice: nat -> nat, s: State, code: seq<Instruction>): State
    decreases |code|
  {
    if code == [] then s else Run(k, advice, Exec(k, advice, s, code[0]), code[1..])
  }

  /** Virtual registers for inline sequences come from register 40 on. */
  const V0: nat := 40
  const V1: nat := 41
  const V2: nat := 42
  const V3: nat := 43
  const V4: nat := 44
  const V5: nat := 45

  /** Real registers hold words, and so does all advice. */
  ghost predicate Ready(k: nat, advice: nat -> nat, s: State) {
    && |s.x| == REGISTER_COUNT
    && (forall i | 0 <= i < REGISTER_COUNT :: IsWord(Pow2(k), s.x[i]))
    && (forall i: nat :: IsWord(Pow2(k), advice(i)))
  }

  lemma {:induction false} RunConcat(k: nat, advice: nat -> nat, s: State, a: seq<Instruction>, b: seq<Instruction>)
    ensures Run(k, advice, s, a + b) == Run(k, advice, Run(k, advice, s, a), b)
    decreases |a|
  {
    hide Exec;
    if a == [] {
      assert a + b == b;
    } else {
      RunConcat(k, advice, Exec(k, advice, s, a[0]), a[1..], b);
      assert (a + b)[1..] == a[1..] + b;
    }
  }

  lemma Run2(k: nat, advice: nat -> nat, s: State, a: Instruction, b: Instruction)
    ensures Run(k, advice, s, [a, b]) == Exec(k, advice, Exec(k, advice, s, a), b)
  {
    hide Exec;
    assert [a, b][1..] == [b] && [b][1..] == [];
    assert Run(k, advice, Exec(k, advice, s, a), [b]) == Run(k, advice, Exec(k, advice, Exec(k, advice, s, a), b), []);
  }

  lemma Run4(k: nat, advice: nat -> nat, s: State, a: Instruction, b: Instruction, c: Instruction, d: Instruction)
    ensures Run(k, advice, s, [a, b, c, d])
      == Exec(k, advice, Exec(k, advice, Exec(k, advice, Exec(k, advice, s, a), b), c), d)
  {
    hide Exec;
    assert [a, b, c, d] == [a, b] + [c, d];
    RunConcat(k, advice, s, [a, b], [c, d]);
    Run2(k, advice, s, a, b);
    Run2(k, advice, Run(k, advice, s, [a, b]), c, d);
  }

  function Dest(instr: Instruction): nat {
    match instr
    case ADD(rd, _, _) => rd
    case ADDI(rd, _, _) => rd
    case ANDI(rd, _, _) => rd
    case MUL(rd, _, _) => rd
    case MULHU(rd, _, _) => rd
    case SUB(rd, _, _) => rd
    case XOR(rd, _, _) => rd
    case SLTU(rd, _, _) => rd
    case VirtualAdvice(rd) => rd
    case VirtualChangeDivisor(rd, _, _) => rd
    case VirtualMovsign(rd, _) => rd
    case VirtualPow2(rd, _) => rd
    case VirtualShiftRightBitmask(rd, _) => rd
    case VirtualSRL(rd, _, _) => rd
    case VirtualSRA(rd, _, _) => rd
    case VirtualSRAI(rd, _, _) => rd
    case _ => REGISTER_COUNT
  }

  lemma DestOnly(k: nat, advice: nat -> nat, s: State, instr: Instruction, i: nat)
    requires |s.x| == REGISTER_COUNT && i < REGISTER_COUNT && Dest(instr) != i
    ensures |Exec(k, advice, s, instr).x| == REGISTER_COUNT && Exec(k, advice, s, instr).x[i] == s.x[i]
  {
    hide AddW, And, MulW, MulhuW, SubW, Xor, Product, Size, Ones, ChangeDivisor, SignMask, Wrap, Pow2, Amount;
    hide ShiftRightBitmask, SrlW, SraW, TrailingZeros;
  }

  /** A sequence touches no real register but its destination. */
  lemma {:induction false} OthersUnchanged(k: nat, advice: nat -> nat, s: State, code: seq<Instruction>, i: nat)
    requires |s.x| == REGISTER_COUNT && i < REGISTER_COUNT && forall j | 0 <= j < |code| :: Dest(code[j]) != i
    ensures |Run(k, advice, s, code).x| == REGISTER_COUNT && Run(k, advice, s, code).x[i] == s.x[i]
    decreases |code|
  {
    hide Exec, Dest;
    if code != [] {
      DestOnly(k, advice, s, code[0], i);
      OthersUnchanged(k, advice, Exec(k, advice, s, code[0]), code[1..], i);
    }
  }

  function DivuProduct(rs2: nat): seq<Instruction> {
    [ VirtualAdvice(V0),
      VirtualAssertValidDiv0(rs2, V0),
      VirtualAssertMulUNoOverflow(V0, rs2),
      MUL(V1, V0, rs2) ]
  }

  function DivuChecks(rd: nat, rs1: nat, rs2: nat): seq<Instruction> {
    [ VirtualAssertLTE(V1, rs1),
      SUB(V1, rs1, V1),
      VirtualAssertValidUnsignedRemainder(V1, rs2),
      ADDI(rd, V0, 0) ]
  }

  function Divu(rd: nat, rs1: nat, rs2: nat): seq<Instruction> {
    DivuProduct(rs2) + DivuChecks(rd, rs1, rs2)
  }

  lemma DivuRuns(k: nat, advice: nat -> nat, s: State, rd: nat, rs1: nat, rs2: nat)
    requires |s.x| == REGISTER_COUNT && rd < 32 && rs1 < 32 && rs2 < 32
    ensures
      var t := Run(k, advice, s, Divu(rd, rs1, rs2));
      var n, x, d, q := Pow2(k), s.x[rs1], s.x[rs2], advice(s.used);
      && t.holds == (s.holds && (d == 0 ==> q == Ones(n)) && DivuAccepts(n, x, d, q))
      && t.X(rd) == AddW(n, q, 0)
  {
    hide MulW, SubW, AddW, Product, Ones, Size, Pow2, Run;
    var c1, c2 := DivuProduct(rs2), DivuChecks(rd, rs1, rs2);
    RunConcat(k, advice, s, c1, c2);
    var s1 := Run(k, advice, s, c1);
    Run4(k, advice, s, c1[0], c1[1], c1[2], c1[3]);
    assert |s1.x| == REGISTER_COUNT && s1.x[V0] == advice(s.used);
    assert s1.x[V1] == MulW(Pow2(k), advice(s.used), s.x[rs2]);
    assert s1.x[rs1] == s.x[rs1] && s1.x[rs2] == s.x[rs2];
    Run4(k, advice, s1, c2[0], c2[1], c2[2], c2[3]);
  }

  /** Each operand times the sign of the other, in working registers w and w + 1. */
  function MulhSigns(rs1: nat, rs2: nat, w: nat): seq<Instruction> {
    [ VirtualMovsign(w, rs1),
      VirtualMovsign(w + 1, rs2),
      MUL(w, w, rs2),
      MUL(w + 1, w + 1, rs1) ]
  }

  /** The unsigned high word, corrected. */
  function MulhCorrected(rd: nat, rs1: nat, rs2: nat, w: nat): seq<Instruction> {
    [ MULHU(w + 2, rs1, rs2),
      ADD(w + 2, w + 2, w) ] +
    [ ADD(rd, w + 2, w + 1) ]
  }

  /** The high word of a signed product, with working registers w, w + 1 and w + 2. */
  function Mulh(rd: nat, rs1: nat, rs2: nat, w: nat): seq<Instruction> {
    MulhSigns(rs1, rs2, w) + MulhCorrected(rd, rs1, rs2, w)
  }

  lemma Run1(k: nat, advice: nat -> nat, s: State, a: Instruction)
    ensures Run(k, advice, s, [a]) == Exec(k, advice, s, a)
  {
    hide Exec;
    assert [a][1..] == [];
  }

  /** Working registers above the operands and below the end of the file. */
  predicate Clear(w: nat, i: nat) {
    i < REGISTER_COUNT && !(w <= i < w + 3) && w + 3 <= REGISTER_COUNT
  }

  lemma MulhSignsRun(k: nat, advice: nat -> nat, s: State, rs1: nat, rs2: nat, w: nat)
    requires |s.x| == REGISTER_COUNT && Clear(w, rs1) && Clear(w, rs2)
    ensures
      var u := Run(k, advice, s, MulhSigns(rs1, rs2, w));
      var n, a, b := Pow2(k), s.x[rs1], s.x[rs2];
      && |u.x| == REGISTER_COUNT
      && u.holds == s.holds
      && u.used == s.used
      && u.x[rs1] == a
      && u.x[rs2] == b
      && u.x[w] == MulW(n, SignMask(n, a), b)
      && u.x[w + 1] == MulW(n, SignMask(n, b), a)
  {
    hide MulW, SignMask, Pow2, Run;
    var c := MulhSigns(rs1, rs2, w);
    Run4(k, advice, s, c[0], c[1], c[2], c[3]);
  }

  lemma MulhCorrectedRuns(k: nat, advice: nat -> nat, s: State, rd: nat, rs1: nat, rs2: nat, w: nat)
    requires |s.x| == REGISTER_COUNT && Clear(w, rs1) && Clear(w, rs2) && Clear(w, rd)
    ensures
      var u := Run(k, advice, s, MulhCorrected(rd, rs1, rs2, w));
      var n := Pow2(k);
      && |u.x| == REGISTER_COUNT
      && u.holds == s.holds
      && u.used == s.used
      && u.x[rd] == AddW(n, AddW(n, MulhuW(n, s.x[rs1], s.x[rs2]), s.x[w]), s.x[w + 1])
  {
    hide MulhuW, AddW, Pow2, Run;
    var c1, c2 := [MULHU(w + 2, rs1, rs2), ADD(w + 2, w + 2, w)], [ADD(rd, w + 2, w + 1)];
    RunConcat(k, advice, s, c1, c2);
    Run2(k, advice, s, c1[0], c1[1]);
    Run1(k, advice, Run(k, advice, s, c1), c2[0]);
  }

  lemma MulhRuns(k: nat, advice: nat -> nat, s: State, rd: nat, rs1: nat, rs2: nat, w: nat)
    requires |s.x| == REGISTER_COUNT && Clear(w, rs1) && Clear(w, rs2) && Clear(w, rd)
    ensures
      var u := Run(k, advice, s, Mulh(rd, rs1, rs2, w));
      && |u.x| == REGISTER_COUNT
      && u.holds == s.holds
      && u.used == s.used
      && u.x[rd] == MulhW(Pow2(k), s.x[rs1], s.x[rs2])
  {
    hide MulW, MulhuW, AddW, SignMask, Pow2, Run, MulhSigns, MulhCorrected;
    RunConcat(k, advice, s, MulhSigns(rs1, rs2, w), MulhCorrected(rd, rs1, rs2, w));
    MulhSignsRun(k, advice, s, rs1, rs2, w);
    MulhCorrectedRuns(k, advice, Run(k, advice, s, MulhSigns(rs1, rs2, w)), rd, rs1, rs2, w);
  }

  /** Advice for the quotient and the remainder, and the divisor to work with. */
  function DivAdviceCode(rs1: nat, rs2: nat): seq<Instruction> {
    [ VirtualAdvice(V0),
      VirtualAdvice(V1),
      VirtualAssertValidDiv0(rs2, V0),
      VirtualChangeDivisor(V2, rs1, rs2) ]
  }

  /** The product does not overflow. */
  function NoOverflowCode(shift: nat): seq<Instruction> {
    [ MUL(V4, V0, V2),
      VirtualSRAI(V5, V4, shift) ] +
    [ VirtualAssertEQ(V3, V5) ]
  }

  /** The product and the signed remainder add up to the dividend. */
  function DividendCode(rs1: nat, shift: nat): seq<Instruction> {
    [ VirtualSRAI(V3, rs1, shift),
      XOR(V5, V1, V3),
      SUB(V5, V5, V3),
      ADD(V4, V4, V5) ] +
    [ VirtualAssertEQ(V4, rs1) ]
  }

  /** The remainder is smaller than the divisor; t is a working register. */
  function RemainderCode(t: nat, shift: nat): seq<Instruction> {
    [ VirtualSRAI(V3, V2, shift),
      XOR(t, V2, V3),
      SUB(t, t, V3),
      VirtualAssertValidUnsignedRemainder(V1, t) ]
  }

  lemma DivAdviceRuns(k: nat, advice: nat -> nat, s: State, rs1: nat, rs2: nat)
    requires |s.x| == REGISTER_COUNT && rs1 < 32 && rs2 < 32
    ensures
      var u := Run(k, advice, s, DivAdviceCode(rs1, rs2));
      var n := Pow2(k);
      && |u.x| == REGISTER_COUNT
      && u.used == s.used + 2
      && u.x[V0] == advice(s.used)
      && u.x[V1] == advice(s.used + 1)
      && u.x[V2] == ChangeDivisor(n, s.x[rs1], s.x[rs2])
      && u.x[rs1] == s.x[rs1]
      && u.holds == (s.holds && (s.x[rs2] == 0 ==> advice(s.used) == Ones(n)))
  {
    hide ChangeDivisor, Pow2, Ones, Run;
    var c := DivAdviceCode(rs1, rs2);
    Run4(k, advice, s, c[0], c[1], c[2], c[3]);
  }

  lemma NoOverflowRuns(k: nat, advice: nat -> nat, s: State, shift: nat)
    requires |s.x| == REGISTER_COUNT
    ensures
      var u := Run(k, advice, s, NoOverflowCode(shift));
      var n := Pow2(k);
      var l := MulW(n, s.x[V0], s.x[V2]);
      && |u.x| == REGISTER_COUNT
      && u.used == s.used
      && u.x[V4] == l
      && u.holds == (s.holds && s.x[V3] == SraW(n, l, shift))
  {
    hide MulW, SraW, Pow2, Run;
    var c1, c2 := [MUL(V4, V0, V2), VirtualSRAI(V5, V4, shift)], [VirtualAssertEQ(V3, V5)];
    RunConcat(k, advice, s, c1, c2);
    Run2(k, advice, s, c1[0], c1[1]);
    Run1(k, advice, Run(k, advice, s, c1), c2[0]);
  }

  lemma DividendRuns(k: nat, advice: nat -> nat, s: State, rs1: nat, shift: nat)
    requires |s.x| == REGISTER_COUNT && rs1 < 32
    ensures
      var u := Run(k, advice, s, DividendCode(rs1, shift));
      var n, a := Pow2(k), s.x[rs1];
      var m := NegateBy(n, s.x[V1], SraW(n, a, shift));
      && |u.x| == REGISTER_COUNT
      && u.used == s.used
      && u.x[V5] == m
      && u.holds == (s.holds && AddW(n, s.x[V4], m) == a)
  {
    hide SubW, AddW, Xor, SraW, Pow2, Run;
    var c1 := [VirtualSRAI(V3, rs1, shift), XOR(V5, V1, V3), SUB(V5, V5, V3), ADD(V4, V4, V5)];
    var c2 := [VirtualAssertEQ(V4, rs1)];
    RunConcat(k, advice, s, c1, c2);
    Run4(k, advice, s, c1[0], c1[1], c1[2], c1[3]);
    Run1(k, advice, Run(k, advice, s, c1), c2[0]);
  }

  lemma RemainderRuns(k: nat, advice: nat -> nat, s: State, t: nat, shift: nat)
    requires |s.x| == REGISTER_COUNT && (t == V4 || t == V5)
    ensures
      var u := Run(k, advice, s, RemainderCode(t, shift));
      var n, r, d := Pow2(k), s.x[V1], s.x[V2];
      var m := NegateBy(n, d, SraW(n, d, shift));
      && |u.x| == REGISTER_COUNT
      && u.used == s.used
      && u.holds == (s.holds && (m == 0 || r < m))
  {
    hide SubW, Xor, SraW, Pow2, Run;
    var c := RemainderCode(t, shift);
    Run4(k, advice, s, c[0], c[1], c[2], c[3]);
  }

  /** The lines the two signed sequences share, with t for the size of the divisor. */
  function DivChecks(k: nat, rs1: nat, rs2: nat, t: nat): seq<Instruction> {
    var shift := Pow2(k) - 1;
    var checks := NoOverflowCode(shift) + (DividendCode(rs1, shift) + RemainderCode(t, shift));
    DivAdviceCode(rs1, rs2) + (Mulh(V3, V0, V2, V4) + checks)
  }

  function Div(k: nat, rd: nat, rs1: nat, rs2: nat): seq<Instruction> {
    DivChecks(k, rs1, rs2, V5) + [ADDI(rd, V0, 0)]
  }

  function Rem(k: nat, rd: nat, rs1: nat, rs2: nat): seq<Instruction> {
    DivChecks(k, rs1, rs2, V4) + [ADDI(rd, V5, 0)]
  }

  lemma MulhKeeps(k: nat, advice: nat -> nat, s: State, i: nat)
    requires |s.x| == REGISTER_COUNT && i < V3
    ensures
      var u := Run(k, advice, s, Mulh(V3, V0, V2, V4));
      && |u.x| == REGISTER_COUNT
      && u.x[i] == s.x[i]
  {
    OthersUnchanged(k, advice, s, Mulh(V3, V0, V2, V4), i);
  }

  /** After advice and multiplication: the registers the checks read. */
  lemma ProductRuns(k: nat, advice: nat -> nat, s: State, rs1: nat, rs2: nat)
    requires |s.x| == REGISTER_COUNT && rs1 < 32 && rs2 < 32
    ensures
      var u := Run(k, advice, s, DivAdviceCode(rs1, rs2) + Mulh(V3, V0, V2, V4));
      var n, a, d, q := Pow2(k), s.x[rs1], s.x[rs2], advice(s.used);
      var t := ChangeDivisor(n, a, d);
      && |u.x| == REGISTER_COUNT
      && u.used == s.used + 2
      && u.x[V0] == q
      && u.x[V1] == advice(s.used + 1)
      && u.x[V2] == t
      && u.x[V3] == MulhW(n, q, t)
      && u.x[rs1] == a
      && u.holds == (s.holds && (d == 0 ==> q == Ones(n)))
  {
    hide ChangeDivisor, Pow2, Ones, Run, MulhW, DivAdviceCode, Mulh;
    RunConcat(k, advice, s, DivAdviceCode(rs1, rs2), Mulh(V3, V0, V2, V4));
    DivAdviceRuns(k, advice, s, rs1, rs2);
    var v := Run(k, advice, s, DivAdviceCode(rs1, rs2));
    MulhRuns(k, advice, v, V3, V0, V2, V4);
    MulhKeeps(k, advice, v, V0);
    MulhKeeps(k, advice, v, V1);
    MulhKeeps(k, advice, v, V2);
    MulhKeeps(k, advice, v, rs1);
  }

  lemma NoOverflowKeeps(k: nat, advice: nat -> nat, s: State, shift: nat, i: nat)
    requires |s.x| == REGISTER_COUNT && i < V3
    ensures
      var u := Run(k, advice, s, NoOverflowCode(shift));
      && |u.x| == REGISTER_COUNT
      && u.x[i] == s.x[i]
  {
    OthersUnchanged(k, advice, s, NoOverflowCode(shift), i);
  }

  lemma DividendKeeps(k: nat, advice: nat -> nat, s: State, rs1: nat, shift: nat, i: nat)
    requires |s.x| == REGISTER_COUNT && i < V3
    ensures
      var u := Run(k, advice, s, DividendCode(rs1, shift));
      && |u.x| == REGISTER_COUNT
      && u.x[i] == s.x[i]
  {
    OthersUnchanged(k, advice, s, DividendCode(rs1, shift), i);
  }

  lemma RemainderKeeps(k: nat, advice: nat -> nat, s: State, t: nat, shift: nat, i: nat)
    requires |s.x| == REGISTER_COUNT && i < REGISTER_COUNT && i != V3 && i != t
    ensures
      var u := Run(k, advice, s, RemainderCode(t, shift));
      && |u.x| == REGISTER_COUNT
      && u.x[i] == s.x[i]
  {
    OthersUnchanged(k, advice, s, RemainderCode(t, shift), i);
  }

  /** What the checks after the multiplication demand. */
  lemma ChecksRun(k: nat, advice: nat -> nat, s: State, rs1: nat, t: nat, shift: nat)
    requires |s.x| == REGISTER_COUNT && rs1 < 32 && (t == V4 || t == V5)
    ensures
      var u := Run(k, advice, s, NoOverflowCode(shift) + (DividendCode(rs1, shift) + RemainderCode(t, shift)));
      var n, a, d, q, r := Pow2(k), s.x[rs1], s.x[V2], s.x[V0], s.x[V1];
      var l, m, size := MulW(n, q, d), NegateBy(n, r, SraW(n, a, shift)), NegateBy(n, d, SraW(n, d, shift));
      && |u.x| == REGISTER_COUNT
      && u.used == s.used
      && u.x[V0] == q
      && (t == V4 ==> u.x[V5] == m)
      && u.holds == (s.holds && s.x[V3] == SraW(n, l, shift) && AddW(n, l, m) == a && (size == 0 || r < size))
  {
    hide Pow2, Run, MulW, NegateBy, SraW, AddW, NoOverflowCode, DividendCode, RemainderCode;
    RunConcat(k, advice, s, NoOverflowCode(shift), DividendCode(rs1, shift) + RemainderCode(t, shift));
    NoOverflowRuns(k, advice, s, shift);
    NoOverflowKeeps(k, advice, s, shift, V0);
    NoOverflowKeeps(k, advice, s, shift, V1);
    NoOverflowKeeps(k, advice, s, shift, V2);
    NoOverflowKeeps(k, advice, s, shift, rs1);
    var v := Run(k, advice, s, NoOverflowCode(shift));
    RunConcat(k, advice, v, DividendCode(rs1, shift), RemainderCode(t, shift));
    DividendRuns(k, advice, v, rs1, shift);
    DividendKeeps(k, advice, v, rs1, shift, V0);
    DividendKeeps(k, advice, v, rs1, shift, V1);
    DividendKeeps(k, advice, v, rs1, shift, V2);
    var w := Run(k, advice, v, DividendCode(rs1, shift));
    RemainderRuns(k, advice, w, t, shift);
    RemainderKeeps(k, advice, w, t, shift, V0);
    if t == V4 {
      RemainderKeeps(k, advice, w, t, shift, V5);
    }
  }

  /** The shared lines leave the asserts exactly as DivAccepts states them. */
  lemma DivChecksRun(k: nat, advice: nat -> nat, s: State, rs1: nat, rs2: nat, t: nat)
    requires Ready(k, advice, s) && rs1 < 32 && rs2 < 32 && (t == V4 || t == V5)
    ensures
      var u := Run(k, advice, s, DivChecks(k, rs1, rs2, t));
      var n, a, d, q, r := Pow2(k), s.x[rs1], s.x[rs2], advice(s.used), advice(s.used + 1);
      && |u.x| == REGISTER_COUNT
      && u.used == s.used + 2
      && u.x[V0] == q
      && (t == V4 ==> u.x[V5] == NegateBy(n, r, SignMask(n, a)))
      && u.holds == (s.holds && DivAccepts(n, a, d, q, r))
  {
    var n, a, d := Pow2(k), s.x[rs1], s.x[rs2];
    var shift := n - 1;
    SraMask(n, a);
    SmallDivisor(n, a, d);
    SraMask(n, ChangeDivisor(n, a, d));
    hide Pow2, Run, MulW, NegateBy, SraW, AddW, MulhW, SignMask, ChangeDivisor, NoOverflowCode, DividendCode,
        RemainderCode, Mulh, DivAdviceCode;
    var c1 := DivAdviceCode(rs1, rs2) + Mulh(V3, V0, V2, V4);
    var c2 := NoOverflowCode(shift) + (DividendCode(rs1, shift) + RemainderCode(t, shift));
    assert DivChecks(k, rs1, rs2, t) == c1 + c2;
    RunConcat(k, advice, s, c1, c2);
    ProductRuns(k, advice, s, rs1, rs2);
    ChecksRun(k, advice, Run(k, advice, s, c1), rs1, t, shift);
  }

  lemma SmallDivisor(n: nat, a: nat, d: nat)
    requires n > 0 && IsWord(n, a) && IsWord(n, d)
    ensures IsWord(n, ChangeDivisor(n, a, d))
  {
    SizeEven(n);
  }

  lemma AddZero(n: nat, a: nat)
    requires IsWord(n, a)
    ensures AddW(n, a, 0) == a
  {
    WrapSmall(n, a);
  }

  /** From s to u the asserts held exactly if accepts, and then rd got the result; no other real register changed. */
  ghost predicate Landed(s: State, u: State, rd: nat, accepts: bool, result: nat) {
    && |u.x| == REGISTER_COUNT
    && u.holds == (s.holds && accepts)
    && (u.holds ==> rd < |u.x| && u.x[rd] == result)
    && forall i | 0 <= i < RISCV_REGISTER_COUNT && i != rd :: i < |s.x| && u.x[i] == s.x[i]
  }

  ghost predicate Computes(k: nat, advice: nat -> nat, s: State, code: seq<Instruction>, rd: nat, accepts: bool,
      result: nat) {
    Landed(s, Run(k, advice, s, code), rd, accepts, result)
  }

  /** One real register is written. */
  predicate Writes(code: seq<Instruction>, rd: nat) {
    forall j | 0 <= j < |code| :: Dest(code[j]) == rd || Dest(code[j]) >= RISCV_REGISTER_COUNT
  }

  lemma ComputesBy(k: nat, advice: nat -> nat, s: State, code: seq<Instruction>, rd: nat, accepts: bool, result: nat)
    requires |s.x| == REGISTER_COUNT && Writes(code, rd) && rd < REGISTER_COUNT
    requires var u := Run(k, advice, s, code); u.holds == (s.holds && accepts) && (u.holds ==> u.X(rd) == result)
    ensures Computes(k, advice, s, code, rd, accepts, result)
  {
    var u := Run(k, advice, s, code);
    forall i | 0 <= i < RISCV_REGISTER_COUNT && i != rd
      ensures |u.x| == REGISTER_COUNT && u.x[i] == s.x[i]
    {
      OthersUnchanged(k, advice, s, code, i);
    }
    LengthKept(k, advice, s, code);
  }

  lemma {:induction false} LengthKept(k: nat, advice: nat -> nat, s: State, code: seq<Instruction>)
    ensures |Run(k, advice, s, code).x| == |s.x|
    decreases |code|
  {
    hide Exec;
    if code != [] {
      ExecLength(k, advice, s, code[0]);
      LengthKept(k, advice, Exec(k, advice, s, code[0]), code[1..]);
    }
  }

  lemma ExecLength(k: nat, advice: nat -> nat, s: State, instr: Instruction)
    ensures |Exec(k, advice, s, instr).x| == |s.x|
  {
    hide AddW, And, MulW, MulhuW, SubW, Xor, Product, Size, Ones, ChangeDivisor, SignMask, Wrap, Pow2, Amount;
    hide ShiftRightBitmask, SrlW, SraW, TrailingZeros;
  }

  lemma DivRuns(k: nat, advice: nat -> nat, s: State, rd: nat, rs1: nat, rs2: nat)
    requires Ready(k, advice, s) && rd < 32 && rs1 < 32 && rs2 < 32
    ensures
      var u := Run(k, advice, s, Div(k, rd, rs1, rs2));
      var n, q, r := Pow2(k), advice(s.used), advice(s.used + 1);
      && u.holds == (s.holds && DivAccepts(n, s.x[rs1], s.x[rs2], q, r))
      && u.X(rd) == AddW(n, q, 0)
  {
    hide Pow2, Run, DivAccepts, NegateBy, SignMask, DivChecks, AddW;
    var code := DivChecks(k, rs1, rs2, V5);
    DivChecksRun(k, advice, s, rs1, rs2, V5);
    RunConcat(k, advice, s, code, [ADDI(rd, V0, 0)]);
    Run1(k, advice, Run(k, advice, s, code), ADDI(rd, V0, 0));
  }

  lemma RemRuns(k: nat, advice: nat -> nat, s: State, rd: nat, rs1: nat, rs2: nat)
    requires Ready(k, advice, s) && rd < 32 && rs1 < 32 && rs2 < 32
    ensures
      var u := Run(k, advice, s, Rem(k, rd, rs1, rs2));
      var n, a, q, r := Pow2(k), s.x[rs1], advice(s.used), advice(s.used + 1);
      && u.holds == (s.holds && DivAccepts(n, a, s.x[rs2], q, r))
      && u.X(rd) == AddW(n, NegateBy(n, r, SignMask(n, a)), 0)
  {
    hide Pow2, Run, DivAccepts, NegateBy, SignMask, DivChecks, AddW;
    var code := DivChecks(k, rs1, rs2, V4);
    DivChecksRun(k, advice, s, rs1, rs2, V4);
    RunConcat(k, advice, s, code, [ADDI(rd, V5, 0)]);
    Run1(k, advice, Run(k, advice, s, code), ADDI(rd, V5, 0));
  }

  lemma WritesConcat(a: seq<Instruction>, b: seq<Instruction>, rd: nat)
    requires Writes(a, rd) && Writes(b, rd)
    ensures Writes(a + b, rd)
  {
    hide Dest;
    forall j | 0 <= j < |a + b|
      ensures Dest((a + b)[j]) == rd || Dest((a + b)[j]) >= RISCV_REGISTER_COUNT
    {
      assert j < |a| ==> (a + b)[j] == a[j];
      assert j >= |a| ==> (a + b)[j] == b[j - |a|];
    }
  }

  /** The checks write working registers only. */
  lemma ChecksWrite(k: nat, rd: nat, rs1: nat, rs2: nat, t: nat)
    requires t >= RISCV_REGISTER_COUNT
    ensures Writes(DivChecks(k, rs1, rs2, t), rd)
  {
    var shift := Pow2(k) - 1;
    ChecksWriteParts(rd, rs1, rs2, t, shift);
    hide Pow2, DivAdviceCode, Mulh, NoOverflowCode, DividendCode, RemainderCode, Writes;
    var c4 := DividendCode(rs1, shift) + RemainderCode(t, shift);
    WritesConcat(DividendCode(rs1, shift), RemainderCode(t, shift), rd);
    WritesConcat(NoOverflowCode(shift), c4, rd);
    WritesConcat(Mulh(V3, V0, V2, V4), NoOverflowCode(shift) + c4, rd);
    WritesConcat(DivAdviceCode(rs1, rs2), Mulh(V3, V0, V2, V4) + (NoOverflowCode(shift) + c4), rd);
  }

  lemma ChecksWriteParts(rd: nat, rs1: nat, rs2: nat, t: nat, shift: nat)
    requires t >= RISCV_REGISTER_COUNT
    ensures Writes(DivAdviceCode(rs1, rs2), rd) && Writes(Mulh(V3, V0, V2, V4), rd)
    ensures Writes(NoOverflowCode(shift), rd) && Writes(DividendCode(rs1, shift), rd)
    ensures Writes(RemainderCode(t, shift), rd)
  {
  }

  lemma SignedWrites(k: nat, rd: nat, rs1: nat, rs2: nat)
    ensures Writes(Div(k, rd, rs1, rs2), rd) && Writes(Rem(k, rd, rs1, rs2), rd)
  {
    hide DivChecks;
    ChecksWrite(k, rd, rs1, rs2, V4);
    ChecksWrite(k, rd, rs1, rs2, V5);
    WritesConcat(DivChecks(k, rs1, rs2, V5), [ADDI(rd, V0, 0)], rd);
    WritesConcat(DivChecks(k, rs1, rs2, V4), [ADDI(rd, V5, 0)], rd);
  }

  lemma AtLeastTwo(k: nat)
    requires k >= 1
    ensures Pow2(k) >= 2
  {
  }

  /**
   * DIV at every power of two width from two bits on: the asserts hold for exactly one pair of advice
   * words, and when they hold the destination gets the RISC-V quotient and no other register changes.
   */
  lemma DivCorrect(k: nat, advice: nat -> nat, s: State, rd: nat, rs1: nat, rs2: nat)
    requires k >= 1 && Ready(k, advice, s) && rd < 32 && rs1 < 32 && rs2 < 32
    ensures
      var n, a, d, q, r := Pow2(k), s.x[rs1], s.x[rs2], advice(s.used), advice(s.used + 1);
      var accepts := q == DivResult(n, a, d) && r == RemSize(n, a, d);
      Computes(k, advice, s, Div(k, rd, rs1, rs2), rd, accepts, DivResult(n, a, d))
  {
    hide Pow2, Run, DivAccepts, DivResult, RemSize, NegateBy, SignMask, AddW, Computes, Writes, Div;
    var n, a, d := Pow2(k), s.x[rs1], s.x[rs2];
    AtLeastTwo(k);
    SignedWrites(k, rd, rs1, rs2);
    DivRuns(k, advice, s, rd, rs1, rs2);
    DivAdvice(n, a, d, advice(s.used), advice(s.used + 1));
    AddZero(n, advice(s.used));
    var accepts := advice(s.used) == DivResult(n, a, d) && advice(s.used + 1) == RemSize(n, a, d);
    ComputesBy(k, advice, s, Div(k, rd, rs1, rs2), rd, accepts, DivResult(n, a, d));
  }

  /** REM: the same advice is accepted, and the destination gets the RISC-V remainder. */
  lemma RemCorrect(k: nat, advice: nat -> nat, s: State, rd: nat, rs1: nat, rs2: nat)
    requires k >= 1 && Ready(k, advice, s) && rd < 32 && rs1 < 32 && rs2 < 32
    ensures
      var n, a, d, q, r := Pow2(k), s.x[rs1], s.x[rs2], advice(s.used), advice(s.used + 1);
      var accepts := q == DivResult(n, a, d) && r == RemSize(n, a, d);
      Computes(k, advice, s, Rem(k, rd, rs1, rs2), rd, accepts, RemResult(n, a, d))
  {
    hide Pow2, Run, DivAccepts, DivResult, RemResult, RemSize, SignMask, AddW, Computes, Writes, Rem, SubW, Xor;
    var n, a, d := Pow2(k), s.x[rs1], s.x[rs2];
    AtLeastTwo(k);
    SignedWrites(k, rd, rs1, rs2);
    RemRuns(k, advice, s, rd, rs1, rs2);
    DivAdvice(n, a, d, advice(s.used), advice(s.used + 1));
    SubIsWord(n, Xor(advice(s.used + 1), SignMask(n, a)), SignMask(n, a));
    AddZero(n, NegateBy(n, advice(s.used + 1), SignMask(n, a)));
    var accepts := advice(s.used) == DivResult(n, a, d) && advice(s.used + 1) == RemSize(n, a, d);
    ComputesBy(k, advice, s, Rem(k, rd, rs1, rs2), rd, accepts, RemResult(n, a, d));
  }

  lemma SubIsWord(n: nat, a: nat, b: nat)
    ensures IsWord(n, SubW(n, a, b))
  {
  }

  /** DIVU: exactly the RISC-V quotient is accepted, all ones when the divisor is zero. */
  lemma DivuCorrect(k: nat, advice: nat -> nat, s: State, rd: nat, rs1: nat, rs2: nat)
    requires Ready(k, advice, s) && rd < 32 && rs1 < 32 && rs2 < 32
    ensures
      var n, x, d := Pow2(k), s.x[rs1], s.x[rs2];
      Computes(k, advice, s, Divu(rd, rs1, rs2), rd, advice(s.used) == DivuResult(n, x, d), DivuResult(n, x, d))
  {
    hide Pow2, Run, AddW, Computes, Writes, DivuAccepts, Divu;
    var n, x, d, q := Pow2(k), s.x[rs1], s.x[rs2], advice(s.used);
    UnsignedWrites(rd, rs1, rs2);
    DivuAdvice(n, x, d, q);
    AddZero(n, q);
    DivuRuns(k, advice, s, rd, rs1, rs2);
    ComputesBy(k, advice, s, Divu(rd, rs1, rs2), rd, q == DivuResult(n, x, d), DivuResult(n, x, d));
  }

  function RemuProduct(rs1: nat, rs2: nat): seq<Instruction> {
    [ VirtualAdvice(V0),
      VirtualAssertMulUNoOverflow(V0, rs2),
      MUL(V0, V0, rs2),
      VirtualAssertLTE(V0, rs1) ]
  }

  function RemuRemainder(rd: nat, rs1: nat, rs2: nat): seq<Instruction> {
    [ SUB(V0, rs1, V0),
      VirtualAssertValidUnsignedRemainder(V0, rs2) ] +
    [ ADDI(rd, V0, 0) ]
  }

  function Remu(rd: nat, rs1: nat, rs2: nat): seq<Instruction> {
    RemuProduct(rs1, rs2) + RemuRemainder(rd, rs1, rs2)
  }

  lemma RemuProductRuns(k: nat, advice: nat -> nat, s: State, rs1: nat, rs2: nat)
    requires |s.x| == REGISTER_COUNT && rs1 < 32 && rs2 < 32
    ensures
      var u := Run(k, advice, s, RemuProduct(rs1, rs2));
      var n, x, d, q := Pow2(k), s.x[rs1], s.x[rs2], advice(s.used);
      && |u.x| == REGISTER_COUNT
      && u.x[rs1] == x
      && u.x[rs2] == d
      && u.x[V0] == MulW(n, q, d)
      && u.holds == (s.holds && Product(q, d) < Size(n) && MulW(n, q, d) <= x)
  {
    hide MulW, Product, Size, Pow2, Run;
    var c := RemuProduct(rs1, rs2);
    Run4(k, advice, s, c[0], c[1], c[2], c[3]);
  }

  lemma RemuRemainderRuns(k: nat, advice: nat -> nat, s: State, rd: nat, rs1: nat, rs2: nat)
    requires |s.x| == REGISTER_COUNT && rd < 32 && rs1 < 32 && rs2 < 32
    ensures
      var u := Run(k, advice, s, RemuRemainder(rd, rs1, rs2));
      var n, d := Pow2(k), s.x[rs2];
      var m := SubW(n, s.x[rs1], s.x[V0]);
      && u.holds == (s.holds && (d == 0 || m < d))
      && u.X(rd) == AddW(n, m, 0)
  {
    hide SubW, AddW, Pow2, Run;
    var c1, c2 := [SUB(V0, rs1, V0), VirtualAssertValidUnsignedRemainder(V0, rs2)], [ADDI(rd, V0, 0)];
    RunConcat(k, advice, s, c1, c2);
    Run2(k, advice, s, c1[0], c1[1]);
    Run1(k, advice, Run(k, advice, s, c1), c2[0]);
  }

  lemma RemuRuns(k: nat, advice: nat -> nat, s: State, rd: nat, rs1: nat, rs2: nat)
    requires |s.x| == REGISTER_COUNT && rd < 32 && rs1 < 32 && rs2 < 32
    ensures
      var t := Run(k, advice, s, Remu(rd, rs1, rs2));
      var n, x, d, q := Pow2(k), s.x[rs1], s.x[rs2], advice(s.used);
      && t.holds == (s.holds && DivuAccepts(n, x, d, q))
      && t.X(rd) == AddW(n, SubW(n, x, MulW(n, q, d)), 0)
  {
    hide MulW, SubW, AddW, Product, Size, Pow2, Run, RemuProduct, RemuRemainder;
    RunConcat(k, advice, s, RemuProduct(rs1, rs2), RemuRemainder(rd, rs1, rs2));
    RemuProductRuns(k, advice, s, rs1, rs2);
    RemuRemainderRuns(k, advice, Run(k, advice, s, RemuProduct(rs1, rs2)), rd, rs1, rs2);
  }

  lemma UnsignedWrites(rd: nat, rs1: nat, rs2: nat)
    ensures Writes(Divu(rd, rs1, rs2), rd) && Writes(Remu(rd, rs1, rs2), rd)
  {
  }

  /** REMU: any advice is accepted for a zero divisor, only the quotient otherwise; the result is the remainder. */
  lemma RemuCorrect(k: nat, advice: nat -> nat, s: State, rd: nat, rs1: nat, rs2: nat)
    requires Ready(k, advice, s) && rd < 32 && rs1 < 32 && rs2 < 32
    ensures
      var n, x, d := Pow2(k), s.x[rs1], s.x[rs2];
      Computes(k, advice, s, Remu(rd, rs1, rs2), rd, d == 0 || advice(s.used) == x / d, RemuResult(x, d))
  {
    hide Pow2, Run, AddW, SubW, MulW, Computes, Writes, DivuAccepts, Remu;
    var n, x, d, q := Pow2(k), s.x[rs1], s.x[rs2], advice(s.used);
    UnsignedWrites(rd, rs1, rs2);
    DivuAdvice(n, x, d, q);
    SubIsWord(n, x, MulW(n, q, d));
    AddZero(n, SubW(n, x, MulW(n, q, d)));
    RemuRuns(k, advice, s, rd, rs1, rs2);
    ComputesBy(k, advice, s, Remu(rd, rs1, rs2), rd, d == 0 || q == x / d, RemuResult(x, d));
  }

  lemma MulhWrites(rd: nat, rs1: nat, rs2: nat)
    ensures Writes(Mulh(rd, rs1, rs2, V0), rd)
  {
  }

  /** MULH: the high word of the signed product. */
  lemma MulhSequenceCorrect(k: nat, advice: nat -> nat, s: State, rd: nat, rs1: nat, rs2: nat)
    requires Ready(k, advice, s) && rd < 32 && rs1 < 32 && rs2 < 32
    ensures Computes(k, advice, s, Mulh(rd, rs1, rs2, V0), rd, true, MulhResult(Pow2(k), s.x[rs1], s.x[rs2]))
  {
    hide Pow2, Run, Computes, Writes, MulhW, MulhResult, Mulh;
    MulhWrites(rd, rs1, rs2);
    MulhRuns(k, advice, s, rd, rs1, rs2, V0);
    MulhCorrect(Pow2(k), s.x[rs1], s.x[rs2]);
    ComputesBy(k, advice, s, Mulh(rd, rs1, rs2, V0), rd, true, MulhResult(Pow2(k), s.x[rs1], s.x[rs2]));
  }

  function MulhsuSign(rs1: nat): seq<Instruction> {
    [ VirtualMovsign(V0, rs1),
      ANDI(V1, V0, 1),
      XOR(V2, rs1, V0),
      ADD(V2, V2, V1) ]
  }

  function MulhsuProduct(rs2: nat): seq<Instruction> {
    [ MULHU(V3, V2, rs2),
      MUL(V2, V2, rs2),
      XOR(V3, V3, V0),
      XOR(V2, V2, V0) ]
  }

  function MulhsuCarry(rd: nat): seq<Instruction> {
    [ ADD(V0, V2, V1),
      SLTU(V0, V0, V2) ] +
    [ ADD(rd, V3, V0) ]
  }

  function Mulhsu(rd: nat, rs1: nat, rs2: nat): seq<Instruction> {
    MulhsuSign(rs1) + (MulhsuProduct(rs2) + MulhsuCarry(rd))
  }

  lemma MulhsuSignRuns(k: nat, advice: nat -> nat, s: State, rs1: nat, rs2: nat)
    requires |s.x| == REGISTER_COUNT && rs1 < 32 && rs2 < 32
    ensures
      var u := Run(k, advice, s, MulhsuSign(rs1));
      var n := Pow2(k);
      var mask := SignMask(n, s.x[rs1]);
      && |u.x| == REGISTER_COUNT && u.holds == s.holds && u.x[rs2] == s.x[rs2]
      && u.x[V0] == mask && u.x[V1] == And(mask, 1) && u.x[V2] == AddW(n, Xor(s.x[rs1], mask), And(mask, 1))
  {
    hide AddW, Xor, And, SignMask, Pow2, Run;
    var c := MulhsuSign(rs1);
    Run4(k, advice, s, c[0], c[1], c[2], c[3]);
  }

  lemma MulhsuProductRuns(k: nat, advice: nat -> nat, s: State, rs2: nat)
    requires |s.x| == REGISTER_COUNT && rs2 < 32
    ensures
      var u := Run(k, advice, s, MulhsuProduct(rs2));
      var n, size, b, mask := Pow2(k), s.x[V2], s.x[rs2], s.x[V0];
      && |u.x| == REGISTER_COUNT && u.holds == s.holds && u.x[V1] == s.x[V1]
      && u.x[V3] == Xor(MulhuW(n, size, b), mask) && u.x[V2] == Xor(MulW(n, size, b), mask)
  {
    hide MulW, MulhuW, Xor, Pow2, Run;
    var c := MulhsuProduct(rs2);
    Run4(k, advice, s, c[0], c[1], c[2], c[3]);
  }

  lemma MulhsuCarryRuns(k: nat, advice: nat -> nat, s: State, rd: nat)
    requires |s.x| == REGISTER_COUNT && rd < 32
    ensures
      var u := Run(k, advice, s, MulhsuCarry(rd));
      var n := Pow2(k);
      && u.holds == s.holds
      && u.X(rd) == AddW(n, s.x[V3], if AddW(n, s.x[V2], s.x[V1]) < s.x[V2] then 1 else 0)
  {
    hide AddW, Pow2, Run;
    var c1, c2 := [ADD(V0, V2, V1), SLTU(V0, V0, V2)], [ADD(rd, V3, V0)];
    RunConcat(k, advice, s, c1, c2);
    Run2(k, advice, s, c1[0], c1[1]);
    Run1(k, advice, Run(k, advice, s, c1), c2[0]);
  }

  lemma MulhsuRuns(k: nat, advice: nat -> nat, s: State, rd: nat, rs1: nat, rs2: nat)
    requires |s.x| == REGISTER_COUNT && rd < 32 && rs1 < 32 && rs2 < 32
    ensures
      var u := Run(k, advice, s, Mulhsu(rd, rs1, rs2));
      && u.holds == s.holds
      && u.X(rd) == MulhsuW(Pow2(k), s.x[rs1], s.x[rs2])
  {
    hide MulW, MulhuW, AddW, Xor, And, SignMask, Pow2, Run, MulhsuSign, MulhsuProduct, MulhsuCarry;
    RunConcat(k, advice, s, MulhsuSign(rs1), MulhsuProduct(rs2) + MulhsuCarry(rd));
    MulhsuSignRuns(k, advice, s, rs1, rs2);
    var u := Run(k, advice, s, MulhsuSign(rs1));
    RunConcat(k, advice, u, MulhsuProduct(rs2), MulhsuCarry(rd));
    MulhsuProductRuns(k, advice, u, rs2);
    MulhsuCarryRuns(k, advice, Run(k, advice, u, MulhsuProduct(rs2)), rd);
  }

  /** MULHSU: the high word of a signed times an unsigned word. */
  lemma MulhsuSequenceCorrect(k: nat, advice: nat -> nat, s: State, rd: nat, rs1: nat, rs2: nat)
    requires Ready(k, advice, s) && rd < 32 && rs1 < 32 && rs2 < 32
    ensures Computes(k, advice, s, Mulhsu(rd, rs1, rs2), rd, true, MulhsuResult(Pow2(k), s.x[rs1], s.x[rs2]))
  {
    assert Writes(Mulhsu(rd, rs1, rs2), rd);
    hide Pow2, Run, Computes, Writes, MulhsuW, MulhsuResult;
    MulhsuRuns(k, advice, s, rd, rs1, rs2);
    MulhsuCorrect(Pow2(k), s.x[rs1], s.x[rs2]);
    ComputesBy(k, advice, s, Mulhsu(rd, rs1, rs2), rd, true, MulhsuResult(Pow2(k), s.x[rs1], s.x[rs2]));
  }

  function Sll(rd: nat, rs1: nat, rs2: nat): seq<Instruction> {
    [ VirtualPow2(V0, rs2), MUL(rd, rs1, V0) ]
  }

  function Srl(rd: nat, rs1: nat, rs2: nat): seq<Instruction> {
    [ VirtualShiftRightBitmask(V0, rs2), VirtualSRL(rd, rs1, V0) ]
  }

  function Sra(rd: nat, rs1: nat, rs2: nat): seq<Instruction> {
    [ VirtualShiftRightBitmask(V0, rs2), VirtualSRA(rd, rs1, V0) ]
  }

  /** SLL: a multiplication by a power of two shifts left by the register modulo the width. */
  lemma SllCorrect(k: nat, advice: nat -> nat, s: State, rd: nat, rs1: nat, rs2: nat)
    requires Ready(k, advice, s) && rd < 32 && rs1 < 32 && rs2 < 32
    ensures Computes(k, advice, s, Sll(rd, rs1, rs2), rd, true, ShlW(Pow2(k), s.x[rs1], s.x[rs2] % Pow2(k)))
  {
    hide Pow2, Run, Computes, Writes, ShlW, Sll;
    SllWrites(rd, rs1, rs2);
    SllRuns(k, advice, s, rd, rs1, rs2);
    ComputesBy(k, advice, s, Sll(rd, rs1, rs2), rd, true, ShlW(Pow2(k), s.x[rs1], s.x[rs2] % Pow2(k)));
  }

  lemma SllWrites(rd: nat, rs1: nat, rs2: nat)
    ensures Writes(Sll(rd, rs1, rs2), rd)
  {
  }

  lemma SllPower(k: nat, b: nat)
    ensures Wrap(Pow2(k), Pow2(Amount(Pow2(k), b))) == Pow2(b % Pow2(k))
  {
    AmountIsMod(k, b);
    Pow2Below(b % Pow2(k), Pow2(k));
    WrapSmall(Pow2(k), Pow2(b % Pow2(k)));
  }

  lemma SllRuns(k: nat, advice: nat -> nat, s: State, rd: nat, rs1: nat, rs2: nat)
    requires |s.x| == REGISTER_COUNT && rd < 32 && rs1 < 32 && rs2 < 32
    ensures
      var u := Run(k, advice, s, Sll(rd, rs1, rs2));
      && u.holds == s.holds
      && u.X(rd) == ShlW(Pow2(k), s.x[rs1], s.x[rs2] % Pow2(k))
  {
    hide Pow2, Run, MulW, ShlW, Wrap, Amount;
    SllPower(k, s.x[rs2]);
    ShlIsMul(Pow2(k), s.x[rs1], s.x[rs2] % Pow2(k));
    Run2(k, advice, s, VirtualPow2(V0, rs2), MUL(rd, rs1, V0));
  }

  lemma ShlIsMul(n: nat, x: nat, a: nat)
    ensures ShlW(n, x, a) == MulW(n, x, Pow2(a))
  {
  }

  lemma Pow2Below(a: nat, n: nat)
    requires a < n
    ensures Pow2(a) < Size(n)
  {
    Pow2Monotone(a + 1, n);
  }

  lemma SrlRuns(k: nat, advice: nat -> nat, s: State, rd: nat, rs1: nat, rs2: nat)
    requires |s.x| == REGISTER_COUNT && rd < 32 && rs1 < 32 && rs2 < 32
    ensures
      var u := Run(k, advice, s, Srl(rd, rs1, rs2));
      && u.holds == s.holds
      && u.X(rd) == SrlW(s.x[rs1], TrailingZeros(ShiftRightBitmask(Pow2(k), s.x[rs2]), k, Pow2(k)))
  {
    hide Pow2, Run, SrlW, TrailingZeros, ShiftRightBitmask;
    Run2(k, advice, s, VirtualShiftRightBitmask(V0, rs2), VirtualSRL(rd, rs1, V0));
  }

  lemma SraRuns(k: nat, advice: nat -> nat, s: State, rd: nat, rs1: nat, rs2: nat)
    requires |s.x| == REGISTER_COUNT && rd < 32 && rs1 < 32 && rs2 < 32
    ensures
      var u := Run(k, advice, s, Sra(rd, rs1, rs2));
      var n := Pow2(k);
      && u.holds == s.holds
      && u.X(rd) == SraW(n, s.x[rs1], TrailingZeros(ShiftRightBitmask(n, s.x[rs2]), k, n))
  {
    hide Pow2, Run, SraW, TrailingZeros, ShiftRightBitmask;
    Run2(k, advice, s, VirtualShiftRightBitmask(V0, rs2), VirtualSRA(rd, rs1, V0));
  }

  /** SRL: the bitmask's trailing zeros shift right by the register modulo the width. */
  lemma SrlCorrect(k: nat, advice: nat -> nat, s: State, rd: nat, rs1: nat, rs2: nat)
    requires k > 0 && Ready(k, advice, s) && rd < 32 && rs1 < 32 && rs2 < 32
    ensures Computes(k, advice, s, Srl(rd, rs1, rs2), rd, true, SrlW(s.x[rs1], s.x[rs2] % Pow2(k)))
  {
    assert Writes(Srl(rd, rs1, rs2), rd);
    BitmaskCarriesAmount(k, s.x[rs2]);
    hide Pow2, Run, Computes, Writes, SrlW, TrailingZeros, ShiftRightBitmask, Trailing, Srl;
    SrlRuns(k, advice, s, rd, rs1, rs2);
    ComputesBy(k, advice, s, Srl(rd, rs1, rs2), rd, true, SrlW(s.x[rs1], s.x[rs2] % Pow2(k)));
  }

  /** SRA: the same, with the sign filling in. */
  lemma SraCorrect(k: nat, advice: nat -> nat, s: State, rd: nat, rs1: nat, rs2: nat)
    requires k > 0 && Ready(k, advice, s) && rd < 32 && rs1 < 32 && rs2 < 32
    ensures Computes(k, advice, s, Sra(rd, rs1, rs2), rd, true, SraW(Pow2(k), s.x[rs1], s.x[rs2] % Pow2(k)))
  {
    assert Writes(Sra(rd, rs1, rs2), rd);
    BitmaskCarriesAmount(k, s.x[rs2]);
    hide Pow2, Run, Computes, Writes, SraW, TrailingZeros, ShiftRightBitmask, Trailing, Sra;
    SraRuns(k, advice, s, rd, rs1, rs2);
    ComputesBy(k, advice, s, Sra(rd, rs1, rs2), rd, true, SraW(Pow2(k), s.x[rs1], s.x[rs2] % Pow2(k)));
  }

  /** The real instructions that are replaced by sequences. */
  datatype Op = DIV | DIVU | MULH | MULHSU | REM | REMU | SLL | SRA | SRL

  function InlineSequence(k: nat, op: Op, rd: nat, rs1: nat, rs2: nat): seq<Instruction> {
    match op
    case DIV => Div(k, rd, rs1, rs2)
    case DIVU => Divu(rd, rs1, rs2)
    case MULH => Mulh(rd, rs1, rs2, V0)
    case MULHSU => Mulhsu(rd, rs1, rs2)
    case REM => Rem(k, rd, rs1, rs2)
    case REMU => Remu(rd, rs1, rs2)
    case SLL => Sll(rd, rs1, rs2)
    case SRA => Sra(rd, rs1, rs2)
    case SRL => Srl(rd, rs1, rs2)
  }

  /** What the instruction does to the words a and b. */
  function Expected(k: nat, op: Op, a: nat, b: nat): nat
    requires IsWord(Pow2(k), b)
  {
    var n := Pow2(k);
    match op
    case DIV => DivResult(n, a, b)
    case DIVU => DivuResult(n, a, b)
    case MULH => MulhResult(n, a, b)
    case MULHSU => MulhsuResult(n, a, b)
    case REM => RemResult(n, a, b)
    case REMU => RemuResult(a, b)
    case SLL => ShlW(n, a, b % n)
    case SRA => SraW(n, a, b % n)
    case SRL => SrlW(a, b % n)
  }

  /** What the shifts should give: the amount is the register modulo the width, and right shifts round down. */
  lemma ShiftResults(k: nat, a: nat, b: nat)
    requires IsWord(Pow2(k), a) && IsWord(Pow2(k), b)
    ensures
      var n := Pow2(k);
      var p, m := Pow2(b % n), Pow2(n);
      var left, right, arithmetic := Expected(k, SLL, a, b), Expected(k, SRL, a, b), Signed(n, Expected(k, SRA, a, b));
      && left < m && (exists c: nat :: a * p == c * m + left)
      && right * p <= a < (right + 1) * p
      && arithmetic * p <= Signed(n, a) < (arithmetic + 1) * p
  {
    var n := Pow2(k);
    hide Pow2, ShlW, SrlW, SraW, Signed;
    ShlMultiplies(n, a, b % n);
    SrlFloor(a, b % n);
    SraFloor(n, a, b % n);
  }

  /** What the high multiplications should give: the exact product divided by the word size, rounded down. */
  lemma HighResults(k: nat, a: nat, b: nat)
    requires IsWord(Pow2(k), a) && IsWord(Pow2(k), b)
    ensures
      var n := Pow2(k);
      var m, both, one := Pow2(n), Signed(n, Expected(k, MULH, a, b)), Signed(n, Expected(k, MULHSU, a, b));
      && both * m <= Signed(n, a) * Signed(n, b) < (both + 1) * m
      && one * m <= Signed(n, a) * b < (one + 1) * m
  {
    hide Pow2, Signed, MulhResult, MulhsuResult;
    MulhFloor(Pow2(k), a, b);
    MulhsuFloor(Pow2(k), a, b);
  }

  /** What the divisions should give: the RISC-V table, division by zero and overflow included. */
  lemma DivisionResults(k: nat, a: nat, d: nat)
    requires k >= 1 && IsWord(Pow2(k), a) && IsWord(Pow2(k), d)
    ensures
      var n := Pow2(k);
      var m, x, y := Pow2(n), Signed(n, a), Signed(n, d);
      var q, r := Expected(k, DIV, a, d), Expected(k, REM, a, d);
      if y == 0 then q == m - 1 && r == a
      else if 2 * x + m == 0 && y == -1 then q == a && r == 0
      else
        && Signed(n, q) * y + Signed(n, r) == x
        && Abs(Signed(n, r)) < Abs(y)
        && (Signed(n, r) == 0 || (Signed(n, r) < 0 <==> x < 0))
  {
    AtLeastTwo(k);
    hide Pow2, Signed, DivResult, RemResult;
    DivisionEquation(Pow2(k), a, d);
  }

  /** The same for unsigned words. */
  lemma UnsignedResults(k: nat, a: nat, d: nat)
    requires IsWord(Pow2(k), a) && IsWord(Pow2(k), d)
    ensures
      var q, r := Expected(k, DIVU, a, d), Expected(k, REMU, a, d);
      if d == 0 then q == Pow2(Pow2(k)) - 1 && r == a else q * d + r == a && r < d
  {
    hide Pow2;
    if d > 0 {
      EuclidProduct(a, d);
    }
  }

  /** The advice words that the asserts accept. */
  predicate AdviceFits(k: nat, op: Op, a: nat, b: nat, q: nat, r: nat)
    requires IsWord(Pow2(k), b)
  {
    var n := Pow2(k);
    match op
    case DIV => q == DivResult(n, a, b) && r == RemSize(n, a, b)
    case REM => q == DivResult(n, a, b) && r == RemSize(n, a, b)
    case DIVU => q == DivuResult(n, a, b)
    case REMU => b == 0 || q == a / b
    case _ => true
  }

  /** All sequences at once. */
  lemma SequenceCorrect(k: nat, advice: nat -> nat, s: State, op: Op, rd: nat, rs1: nat, rs2: nat)
    requires k >= 1 && Ready(k, advice, s) && rd < 32 && rs1 < 32 && rs2 < 32
    ensures
      var a, b := s.x[rs1], s.x[rs2];
      var accepts := AdviceFits(k, op, a, b, advice(s.used), advice(s.used + 1));
      Computes(k, advice, s, InlineSequence(k, op, rd, rs1, rs2), rd, accepts, Expected(k, op, a, b))
  {
    hide Computes, Div, Divu, Mulh, Mulhsu, Rem, Remu, Sll, Sra, Srl, Pow2;
    hide DivResult, DivuResult, MulhResult, MulhsuResult, RemResult, RemuResult, ShlW, SraW, SrlW, RemSize;
    match op
    case DIV => DivCorrect(k, advice, s, rd, rs1, rs2);
    case DIVU => DivuCorrect(k, advice, s, rd, rs1, rs2);
    case MULH => MulhSequenceCorrect(k, advice, s, rd, rs1, rs2);
    case MULHSU => MulhsuSequenceCorrect(k, advice, s, rd, rs1, rs2);
    case REM => RemCorrect(k, advice, s, rd, rs1, rs2);
    case REMU => RemuCorrect(k, advice, s, rd, rs1, rs2);
    case SLL => SllCorrect(k, advice, s, rd, rs1, rs2);
    case SRA => SraCorrect(k, advice, s, rd, rs1, rs2);
    case SRL => SrlCorrect(k, advice, s, rd, rs1, rs2);
  }

  lemma FailedStays(k: nat, advice: nat -> nat, s: State, instr: Instruction)
    ensures Exec(k, advice, s, instr).holds ==> s.holds
  {
    hide AddW, And, MulW, MulhuW, SubW, Xor, Product, Size, Ones, ChangeDivisor, SignMask, Wrap, Pow2, Amount;
    hide ShiftRightBitmask, SrlW, SraW, TrailingZeros, Updated;
  }

  lemma {:induction false} XorIsWord(n: nat, a: nat, b: nat)
    requires IsWord(n, a) && IsWord(n, b)
    ensures IsWord(n, Xor(a, b))
  {
    if n > 0 && (a != 0 || b != 0) {
      SizeEven(n);
      XorIsWord(n - 1, a / 2, b / 2);
    }
  }

  lemma {:induction false} AndBelow(x: nat, y: nat)
    ensures And(x, y) <= x
  {
    if x > 0 && y > 0 {
      AndBelow(x / 2, y / 2);
    }
  }

  lemma ShrBelow(a: nat, s: nat)
    ensures Shr(a, s) <= a
  {
    var p := Pow2(s);
    hide Pow2;
    QuotientBelow(a, p);
  }

  lemma QuotientBelow(a: nat, p: nat)
    requires p >= 1
    ensures a / p <= a
  {
  }

  lemma WrapsToWords(n: nat)
    ensures forall v: int :: IsWord(n, Wrap(n, v))
  {
  }

  lemma ReadWord(k: nat, advice: nat -> nat, s: State, i: nat)
    requires Ready(k, advice, s)
    ensures IsWord(Pow2(k), s.X(i))
  {
    hide Pow2;
  }

  /** What an instruction writes is a word. */
  lemma WrittenIsWord(k: nat, advice: nat -> nat, s: State, instr: Instruction)
    requires k >= 1 && Ready(k, advice, s) && Dest(instr) < REGISTER_COUNT
    ensures var u := Exec(k, advice, s, instr); |u.x| == REGISTER_COUNT && IsWord(Pow2(k), u.x[Dest(instr)])
  {
    hide Pow2, IsWord, Wrap, Product, Amount, TrailingZeros, Signed, Ones, Size, And, Xor, ChangeDivisor, Shr, SignMask;
    var n := Pow2(k);
    WrapsToWords(n);
    SmallWords(n);
    match instr
    case ANDI(_, rs1, imm) =>
      ReadWord(k, advice, s, rs1);
      MaskedIsWord(n, s.X(rs1), imm);
    case XOR(_, rs1, rs2) =>
      ReadWord(k, advice, s, rs1);
      ReadWord(k, advice, s, rs2);
      XorIsWord(n, s.X(rs1), s.X(rs2));
    case VirtualChangeDivisor(_, rs1, rs2) =>
      ReadWord(k, advice, s, rs1);
      ReadWord(k, advice, s, rs2);
      SmallDivisor(n, s.X(rs1), s.X(rs2));
    case VirtualMovsign(_, rs1) => MaskIsWord(n, s.X(rs1));
    case VirtualSRL(_, rs1, rs2) =>
      ReadWord(k, advice, s, rs1);
      ShiftedIsWord(n, s.X(rs1), TrailingZeros(s.X(rs2), k, n));
    case _ =>
  }

  lemma SmallWords(n: nat)
    requires n >= 1
    ensures IsWord(n, 0) && IsWord(n, 1)
  {
    SizeEven(n);
  }

  lemma MaskIsWord(n: nat, a: nat)
    ensures IsWord(n, SignMask(n, a))
  {
  }

  lemma MaskedIsWord(n: nat, a: nat, t: nat)
    requires IsWord(n, a)
    ensures IsWord(n, And(a, t))
  {
    AndBelow(a, t);
  }

  lemma ShiftedIsWord(n: nat, a: nat, t: nat)
    requires IsWord(n, a)
    ensures IsWord(n, Shr(a, t))
  {
    ShrBelow(a, t);
  }

  /** An instruction leaves words in all registers. */
  lemma ExecReady(k: nat, advice: nat -> nat, s: State, instr: Instruction)
    requires k >= 1 && Ready(k, advice, s)
    ensures Ready(k, advice, Exec(k, advice, s, instr))
  {
    hide Exec, Dest, IsWord, Pow2;
    var u := Exec(k, advice, s, instr);
    ExecLength(k, advice, s, instr);
    forall i | 0 <= i < REGISTER_COUNT
      ensures IsWord(Pow2(k), u.x[i])
    {
      if i == Dest(instr) {
        WrittenIsWord(k, advice, s, instr);
      } else {
        DestOnly(k, advice, s, instr, i);
      }
    }
  }

  /** The cpu whose fields the instructions update. */
  class SymbolicCpu {
    const k: nat
    const advice: nat -> nat
    var x: seq<nat>
    var holds: bool
    var used: nat

    ghost function Now(): State
      reads this
    {
      State(x, holds, used)
    }

    /** Every register holds a word, and so will all advice. */
    ghost predicate Valid()
      reads this
    {
      k >= 1 && Ready(k, advice, Now())
    }

    constructor (k: nat, advice: nat -> nat, registers: seq<nat>)
      requires |registers| == REGISTER_COUNT
      ensures this.k == k && this.advice == advice && Now() == State(registers, registers[0] == 0, 0)
    {
      this.k, this.advice := k, advice;
      x, holds, used := registers, registers[0] == 0, 0;
    }

    function X(i: nat): nat
      reads this
    {
      if i < |x| then x[i] else 0
    }

    method ExecReal(instr: Instruction)
      requires IsReal(instr)
      modifies this`x
      ensures Now() == Exec(k, advice, old(Now()), instr)
    {
      hide AddW, And, MulW, MulhuW, SubW, Xor, Product, Size, Ones, ChangeDivisor, SignMask, Wrap, Pow2, Amount;
      hide ShiftRightBitmask, SrlW, SraW, TrailingZeros, Updated;
      var n := Pow2(k);
      match instr
      case ADD(rd, rs1, rs2) => x := Updated(x, rd, AddW(n, X(rs1), X(rs2)));
      case ADDI(rd, rs1, imm) => x := Updated(x, rd, AddW(n, X(rs1), imm));
      case ANDI(rd, rs1, imm) => x := Updated(x, rd, And(X(rs1), imm));
      case MUL(rd, rs1, rs2) => x := Updated(x, rd, MulW(n, X(rs1), X(rs2)));
      case MULHU(rd, rs1, rs2) => x := Updated(x, rd, MulhuW(n, X(rs1), X(rs2)));
      case SUB(rd, rs1, rs2) => x := Updated(x, rd, SubW(n, X(rs1), X(rs2)));
      case XOR(rd, rs1, rs2) => x := Updated(x, rd, Xor(X(rs1), X(rs2)));
      case SLTU(rd, rs1, rs2) => x := Updated(x, rd, if X(rs1) < X(rs2) then 1 else 0);
    }

    method ExecAssert(instr: Instruction)
      requires IsAssert(instr)
      modifies this`holds
      ensures Now() == Exec(k, advice, old(Now()), instr)
    {
      hide AddW, And, MulW, MulhuW, SubW, Xor, Product, Size, Ones, ChangeDivisor, SignMask, Wrap, Pow2, Amount;
      hide ShiftRightBitmask, SrlW, SraW, TrailingZeros, Updated;
      var n := Pow2(k);
      match instr
      case VirtualAssertEQ(rs1, rs2) => holds := holds && X(rs1) == X(rs2);
      case VirtualAssertLTE(rs1, rs2) => holds := holds && X(rs1) <= X(rs2);
      case VirtualAssertMulUNoOverflow(rs1, rs2) => holds := holds && Product(X(rs1), X(rs2)) < Size(n);
      case VirtualAssertValidDiv0(rs1, rs2) => holds := holds && (X(rs1) == 0 ==> X(rs2) == Ones(n));
      case VirtualAssertValidUnsignedRemainder(rs1, rs2) => holds := holds && (X(rs2) == 0 || X(rs1) < X(rs2));
    }

    method ExecVirtual(instr: Instruction)
      requires !IsReal(instr) && !IsAssert(instr)
      modifies this
      ensures Now() == Exec(k, advice, old(Now()), instr)
    {
      hide AddW, And, MulW, MulhuW, SubW, Xor, Product, Size, Ones, ChangeDivisor, SignMask, Wrap, Pow2, Amount;
      hide ShiftRightBitmask, SrlW, SraW, TrailingZeros, Updated;
      var n := Pow2(k);
      match instr
      case VirtualAdvice(rd) =>
        x := Updated(x, rd, advice(used));
        used := used + 1;
      case VirtualChangeDivisor(rd, rs1, rs2) => x := Updated(x, rd, ChangeDivisor(n, X(rs1), X(rs2)));
      case VirtualMovsign(rd, rs1) => x := Updated(x, rd, SignMask(n, X(rs1)));
      case VirtualPow2(rd, rs1) => x := Updated(x, rd, Wrap(n, Pow2(Amount(n, X(rs1)))));
      case VirtualShiftRightBitmask(rd, rs1) => x := Updated(x, rd, ShiftRightBitmask(n, X(rs1)));
      case VirtualSRL(rd, rs1, rs2) => x := Updated(x, rd, SrlW(X(rs1), TrailingZeros(X(rs2), k, n)));
      case VirtualSRA(rd, rs1, rs2) => x := Updated(x, rd, SraW(n, X(rs1), TrailingZeros(X(rs2), k, n)));
      case VirtualSRAI(rd, rs1, shift) => x := Updated(x, rd, SraW(n, X(rs1), shift));
    }

    /** One instruction: registers stay words, only the destination changes, and a failed assert stays failed. */
    method SymbolicExec(instr: Instruction)
      modifies this
      ensures Now() == Exec(k, advice, old(Now()), instr)
      ensures old(Valid()) ==> Valid()
      ensures old(Valid()) ==> forall i | 0 <= i < REGISTER_COUNT && i != Dest(instr) :: x[i] == old(x)[i]
      ensures holds ==> old(holds)
    {
      ghost var s := Now();
      if IsReal(instr) {
        ExecReal(instr);
      } else if IsAssert(instr) {
        ExecAssert(instr);
      } else {
        ExecVirtual(instr);
      }
      hide Exec, Dest;
      FailedStays(k, advice, s, instr);
      if |s.x| == REGISTER_COUNT {
        forall i | 0 <= i < REGISTER_COUNT && i != Dest(instr)
          ensures |x| == REGISTER_COUNT && x[i] == s.x[i]
        {
          DestOnly(k, advice, s, instr, i);
        }
      }
      if old(Valid()) {
        ExecReady(k, advice, s, instr);
      }
    }

    /** The instructions one after the other. */
    method ExecSequence(code: seq<Instruction>)
      modifies this
      ensures Now() == Run(k, advice, old(Now()), code)
      ensures old(Valid()) ==> Valid()
    {
      hide Exec, Ready;
      var i := 0;
      while i < |code|
        invariant 0 <= i <= |code|
        invariant Run(k, advice, Now(), code[i..]) == Run(k, advice, old(Now()), code)
        invariant old(Valid()) ==> Valid()
      {
        assert code[i..][1..] == code[i + 1..];
        SymbolicExec(code[i]);
        i := i + 1;
      }
    }

    /** The inline sequence of a real instruction does what the instruction does, and any other may follow it. */
    method Execute(op: Op, rd: nat, rs1: nat, rs2: nat)
      requires Valid() && rd < 32 && rs1 < 32 && rs2 < 32
      modifies this
      ensures Valid()
      ensures
        var a, b := old(x[rs1]), old(x[rs2]);
        var accepts := AdviceFits(k, op, a, b, advice(old(used)), advice(old(used) + 1));
        Landed(old(Now()), Now(), rd, accepts, Expected(k, op, a, b))
    {
      ghost var s := Now();
      SequenceCorrect(k, advice, s, op, rd, rs1, rs2);
      hide Run, InlineSequence, AdviceFits, Expected, Landed;
      ExecSequence(InlineSequence(k, op, rd, rs1, rs2));
    }
  }

  /**
   * The correctness test of an instruction on one assignment of registers and advice: true when the asserts hold
   * and some real register differs from what is expected. It is never true.
   */
  method TestCorrectness(k: nat, advice: nat -> nat, registers: seq<nat>, op: Op, rd: nat, rs1: nat, rs2: nat)
      returns (found: bool)
    requires k >= 1 && rd < 32 && rs1 < 32 && rs2 < 32 && Ready(k, advice, State(registers, true, 0))
    ensures !found
  {
    hide Pow2, AdviceFits, Expected;
    var cpu := new SymbolicCpu(k, advice, registers);
    var expected := Updated(registers, rd, Expected(k, op, registers[rs1], registers[rs2]));
    cpu.Execute(op, rd, rs1, rs2);
    found := cpu.holds && exists i | 0 <= i < RISCV_REGISTER_COUNT :: cpu.x[i] != expected[i];
  }

  /** The consistency test: two runs with equal registers but any advice. Accepted runs agree on real registers. */
  method TestConsistency(k: nat, advice1: nat -> nat, advice2: nat -> nat, registers: seq<nat>, op: Op, rd: nat,
      rs1: nat, rs2: nat) returns (found: bool)
    requires k >= 1 && rd < 32 && rs1 < 32 && rs2 < 32
    requires Ready(k, advice1, State(registers, true, 0)) && Ready(k, advice2, State(registers, true, 0))
    ensures !found
  {
    hide Pow2, AdviceFits, Expected;
    var cpu1 := new SymbolicCpu(k, advice1, registers);
    var cpu2 := new SymbolicCpu(k, advice2, registers);
    cpu1.Execute(op, rd, rs1, rs2);
    cpu2.Execute(op, rd, rs1, rs2);
    found := cpu1.holds && cpu2.holds && exists i | 0 <= i < RISCV_REGISTER_COUNT :: cpu1.x[i] != cpu2.x[i];
  }
}
