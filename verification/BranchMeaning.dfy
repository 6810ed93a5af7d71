/** Which way control goes: a comparison and the branch after it decide by the integers that were compared. */
module BranchMeaning {
  import opened X86Types
  import opened Flags
  import opened Conditions
  import opened Ir
  import opened OperandMeaning
  import opened Templates
  import opened TemplateMeaning
  import Bits
  import DirectConditions

  /** What a condition says about two integers of a width that have been compared. */
  predicate Compares(cc: Cc, width: Width, l: Word, r: Word) {
    var x, y := Signed(l, width), Signed(r, width);
    match cc
    case B => l < r
    case AE => l >= r
    case BE => l <= r
    case A => l > r
    case E => l == r
    case NE => l != r
    case L => x < y
    case GE => x >= y
    case LE => x <= y
    case G => x > y
    case O => !FitsSigned(x - y, width)
    case NO => FitsSigned(x - y, width)
    case S => Signed(l - r, width) < 0
    case NS => Signed(l - r, width) >= 0
    case P => |Bits.OnePlaces((l - r) % Modulus(width), 8)| % 2 == 0
    case NP => |Bits.OnePlaces((l - r) % Modulus(width), 8)| % 2 == 1
  }

  lemma DifferenceZero(width: Width, l: Word, r: Word)
    requires l < Modulus(width) && r < Modulus(width)
    ensures (l - r) % Modulus(width) == 0 <==> l == r
  {
    var m := Modulus(width);
    Wrap(l - r, m, if l >= r then 0 else 1);
  }

  /** The sign of the difference, corrected by overflow, is the signed comparison. */
  lemma SignedLess(width: Width, l: Word, r: Word)
    requires l < Modulus(width) && r < Modulus(width)
    ensures (Signed(l - r, width) < 0) != !FitsSigned(Signed(l, width) - Signed(r, width), width) <==>
            Signed(l, width) < Signed(r, width)
    ensures Signed(l, width) == Signed(r, width) <==> l == r
  {
    var m := Modulus(width);
    Wrap(l, m, 0);
    Wrap(r, m, 0);
    Wrap(l - r, m, if l >= r then 0 else 1);
    SignOfDifference(m, SignMask(width), l, r);
  }

  /** The same with the two's complement readings written out. */
  lemma SignOfDifference(m: int, half: int, l: int, r: int)
    requires m == 2 * half && 0 <= l < m && 0 <= r < m
    ensures
      var x, y := if l >= half then l - m else l, if r >= half then r - m else r;
      var d := if l >= r then l - r else l - r + m;
      && ((d >= half) != !(0 - half <= x - y < half) <==> x < y)
      && (x == y <==> l == r)
  {
  }

  lemma ComparedFlags(width: Width, l: Word, r: Word, v: Word, before: Mask, after: Mask)
    requires l < Modulus(width) && r < Modulus(width) && FlagsMean(Sub, width, Inputs(l, r, v), before, after)
    ensures OF in after <==> !FitsSigned(Signed(l, width) - Signed(r, width), width)
    ensures SF in after <==> Signed(l - r, width) < 0
    ensures ZF in after <==> l == r
    ensures CF in after <==> l < r
    ensures PF in after <==> |Bits.OnePlaces((l - r) % Modulus(width), 8)| % 2 == 0
  {
    hide Signed, FitsSigned, Bits.OnePlaces;
    DifferenceZero(width, l, r);
    assert forall flag: Flag :: flag in after <==> TrueFlag(Sub, width, Inputs(l, r, v), flag);
  }

  /** After a comparison every condition says what it should about the integers. */
  lemma ConditionCompares(cc: Cc, width: Width, l: Word, r: Word, v: Word, before: Mask, after: Mask)
    requires l < Modulus(width) && r < Modulus(width) && FlagsMean(Sub, width, Inputs(l, r, v), before, after)
    ensures Condition(cc, after) <==> Compares(cc, width, l, r)
  {
    hide TrueFlag, Signed, FitsSigned, Bits.OnePlaces, FlagsMean, Modulus, Condition;
    ComparedFlags(width, l, r, v, before, after);
    SignedLess(width, l, r);
    DirectConditions.ConditionFormula(cc, after);
  }

  /** jcc: taken exactly when the condition holds of the flags, to the target; otherwise to the next instruction. */
  lemma JccMeans(cc: Cc, context: Context, m: Machine, target: Word)
    requires |context.operands| > 0 && context.operands[0] == RelTarget(target)
    ensures
      var outcome := RunOps(Jcc(cc), context, Begin(m));
      && outcome.Exit? && After(outcome) == StateOf(m)
      && outcome.kind == (if Condition(cc, m.flags) then BranchTaken else BranchNotTaken)
      && outcome.target == if Condition(cc, m.flags) then target else context.nextEip
  {
    hide Holds, Fits, Condition, RunOps;
    var ops, c: Word := Jcc(cc), if Condition(cc, m.flags) then 1 else 0;
    var n := Begin(m).(vars := map[0 := c]);
    assert Step(ops[0], context, Begin(m)) == Running(n);
    var p := n.(vars := n.vars[1 := target]);
    assert Step(ops[1], context, n) == Running(p);
    RunOn(ops, context, Begin(m));
    assert ops[1..][0] == ops[1] && ops[1..][1..][0] == ops[2];
    RunOn(ops[1..], context, n);
    RunOn(ops[1..][1..], context, p);
  }

  /**
   cmp and then jcc, in two instructions: the branch is taken exactly when the condition holds of the two integers, and
   nothing but flags has changed.
   */
  lemma CompareAndBranch(cc: Cc, width: Width, cmp: Context, jcc: Context, m: Machine, l: Word, r: Word, target: Word)
    requires Operands(cmp, width, StateOf(m), l, r) && !cmp.exitMode
    requires |jcc.operands| > 0 && jcc.operands[0] == RelTarget(target)
    ensures
      var outcome := RunBlock([Instruction(cmp, Cmp(width)), Instruction(jcc, Jcc(cc))], m);
      && outcome.Exit? && outcome.regs == m.regs && outcome.memory == m.memory
      && outcome.kind == (if Compares(cc, width, l, r) then BranchTaken else BranchNotTaken)
      && outcome.target == if Compares(cc, width, l, r) then target else jcc.nextEip
  {
    hide RunOps, Holds, Fits, Compares, Condition, FlagsMean, Cmp, Jcc;
    var block := [Instruction(cmp, Cmp(width)), Instruction(jcc, Jcc(cc))];
    CompareMeans(false, width, cmp, m, l, r);
    var n := RunOps(Cmp(width), cmp, Begin(m)).m;
    var v: Word :| IsAluResult(AluSub, width, l, r, v) && FlagsMean(Sub, width, Inputs(l, r, v), m.flags, n.flags);
    HeldFits(cmp.operands[0], width, StateOf(m), l);
    HeldFits(cmp.operands[1], width, StateOf(m), r);
    ConditionCompares(cc, width, l, r, v, m.flags, n.flags);
    JccMeans(cc, jcc, n, target);
    assert block[1..] == [Instruction(jcc, Jcc(cc))] && block[1..][1..] == [];
  }

  /** What a condition says about a conjunction that has been tested. */
  predicate Tests(cc: Cc, width: Width, v: Word) {
    match cc
    case E => v == 0
    case NE => v != 0
    case S => Signed(v, width) < 0
    case NS => Signed(v, width) >= 0
    case P => |Bits.OnePlaces(v, 8)| % 2 == 0
    case NP => |Bits.OnePlaces(v, 8)| % 2 == 1
    case BE => v == 0
    case A => v != 0
    case L => Signed(v, width) < 0
    case GE => Signed(v, width) >= 0
    case LE => Signed(v, width) <= 0
    case G => Signed(v, width) > 0
    case AE => true
    case NO => true
    case _ => false
  }

  lemma TestedFlags(width: Width, l: Word, r: Word, v: Word, before: Mask, after: Mask)
    requires v < Modulus(width) && FlagsMean(Logic, width, Inputs(l, r, v), before, after)
    ensures OF !in after && CF !in after
    ensures SF in after <==> Signed(v, width) < 0
    ensures ZF in after <==> v == 0
    ensures PF in after <==> |Bits.OnePlaces(v, 8)| % 2 == 0
  {
    hide Signed, FitsSigned, Bits.OnePlaces;
    Wrap(v, Modulus(width), 0);
    assert forall flag: Flag :: flag != AF ==> (flag in after <==> TrueFlag(Logic, width, Inputs(l, r, v), flag));
  }

  lemma ConditionTests(cc: Cc, width: Width, l: Word, r: Word, v: Word, before: Mask, after: Mask)
    requires v < Modulus(width) && FlagsMean(Logic, width, Inputs(l, r, v), before, after)
    ensures Condition(cc, after) <==> Tests(cc, width, v)
  {
    Wrap(v, Modulus(width), 0);
    assert Signed(v, width) == 0 <==> v == 0;
    hide TrueFlag, Signed, Bits.OnePlaces, FlagsMean, Modulus, Condition;
    TestedFlags(width, l, r, v, before, after);
    DirectConditions.ConditionFormula(cc, after);
  }

  /** test and then jcc: the branch is taken exactly when the condition holds of the bits that both operands have. */
  lemma TestAndBranch(cc: Cc, width: Width, test: Context, jcc: Context, m: Machine, l: Word, r: Word, target: Word)
    requires Operands(test, width, StateOf(m), l, r) && !test.exitMode
    requires |jcc.operands| > 0 && jcc.operands[0] == RelTarget(target)
    ensures
      var outcome := RunBlock([Instruction(test, Test(width)), Instruction(jcc, Jcc(cc))], m);
      && outcome.Exit? && outcome.regs == m.regs && outcome.memory == m.memory
      && exists v: Word ::
           && IsAluResult(AluAnd, width, l, r, v)
           && outcome.kind == (if Tests(cc, width, v) then BranchTaken else BranchNotTaken)
           && outcome.target == if Tests(cc, width, v) then target else jcc.nextEip
  {
    hide RunOps, Holds, Fits, Tests, Condition, FlagsMean, Test, Jcc;
    var block := [Instruction(test, Test(width)), Instruction(jcc, Jcc(cc))];
    CompareMeans(true, width, test, m, l, r);
    var n := RunOps(Test(width), test, Begin(m)).m;
    var v: Word :| IsAluResult(AluAnd, width, l, r, v) && FlagsMean(Logic, width, Inputs(l, r, v), m.flags, n.flags);
    ConditionTests(cc, width, l, r, v, m.flags, n.flags);
    JccMeans(cc, jcc, n, target);
    assert block[1..] == [Instruction(jcc, Jcc(cc))] && block[1..][1..] == [];
  }

  /** jmp goes to its operand, and int leaves with its vector; neither changes anything. */
  lemma JumpMeans(context: Context, m: Machine, v: Word)
    requires IsOperand(context, 0, W32) && Holds(context.operands[0], W32, StateOf(m), v)
    ensures
      var jump, trap := RunOps(Jmp(), context, Begin(m)), RunOps(Int(), context, Begin(m));
      && jump.Exit? && jump.kind == JumpExit && jump.target == v && After(jump) == StateOf(m)
      && trap.Exit? && trap.kind == HostTrapExit && trap.target == v && After(trap) == StateOf(m)
  {
    hide RunOps, Holds, Fits;
    GetMeans(0, 0, W32, false, context, Begin(m), v);
    var n := Step(Get(0, Operand(0), W32, false), context, Begin(m)).m;
    assert Step(Jump(Var(0)), context, n) == ExitAt(n, JumpExit, v);
    assert Step(HostTrap(Var(0)), context, n) == ExitAt(n, HostTrapExit, v);
    hide Step;
    RunOn(Jmp(), context, Begin(m));
    RunOn(Int(), context, Begin(m));
    assert Jmp()[1..] == [Jump(Var(0))] && Int()[1..] == [HostTrap(Var(0))];
    RunOn([Jump(Var(0))], context, n);
    RunOn([HostTrap(Var(0))], context, n);
  }

  // ---------- conditions without flags ----------

  lemma KindReadsWritten(producer: Producer, cc: Cc, onlyResult: bool)
    requires DirectConditions.ConditionKind(producer, cc, onlyResult).Some?
    ensures ConditionReads(cc) <= WrittenMask(producer)
  {
  }

  lemma DecideNeedsItsInputs(kind: DirectConditions.Kind, width: Width, first: Inputs, second: Inputs)
    requires forall name <- DirectConditions.KindInputs(kind) :: Input(first, name) == Input(second, name)
    ensures DirectConditions.Decide(kind, width, first) == DirectConditions.Decide(kind, width, second)
  {
    hide Modulus, Bits.Xor, Bits.EvenParity, DirectConditions.FlipSign, DirectConditions.Masked, DirectConditions.SignSet;
    var names := DirectConditions.KindInputs(kind);
    assert names == [] || names == [Result] || names == [Left, Right];
    assert Result in names ==> first.result == second.result;
    assert Left in names ==> first.left == second.left;
    assert Right in names ==> first.right == second.right;
  }

  lemma FewerInputs(refs: InputRefs, producer: Producer, kind: DirectConditions.Kind, vars: map<VarId, Word>, nextEip: Word)
    requires EvalInputs(refs, InputNames(producer), vars, nextEip).Some?
    requires forall name <- DirectConditions.KindInputs(kind) :: name in InputNames(producer)
    ensures
      var all, needed := EvalInputs(refs, InputNames(producer), vars, nextEip),
                         EvalInputs(refs, DirectConditions.KindInputs(kind), vars, nextEip);
      && needed.Some?
      && forall name <- DirectConditions.KindInputs(kind) :: Input(all.value, name) == Input(needed.value, name)
  {
  }

  /** A condition on a pending producer is what the condition would be once the producer had set the flags. */
  lemma ProducerConditionMeans(
      dst: VarId, cc: Cc, producer: Producer, width: Width, refs: InputRefs, context: Context, m: Machine, values: Inputs)
    requires EvalInputs(refs, InputNames(producer), m.vars, context.nextEip) == Some(values)
    requires Consistent(producer, width, values)
    requires DirectConditions.ConditionKind(producer, cc, OnlyResult(refs)).Some?
    ensures
      var condition := Condition(cc, SetFlags(m.flags, producer, width, values));
      Step(ProducerCondition(dst, cc, producer, width, refs), context, m) ==
      Running(m.(vars := m.vars[dst := if condition then 1 else 0]))
  {
    hide Condition, Consistent, Produces, EvalInputs, OnlyResult, DirectConditions.Decide;
    var kind := DirectConditions.ConditionKind(producer, cc, OnlyResult(refs)).value;
    KindReadsWritten(producer, cc, OnlyResult(refs));
    KindInputsAreNamed(producer, cc, OnlyResult(refs));
    FewerInputs(refs, producer, kind, m.vars, context.nextEip);
    var needed := EvalInputs(refs, DirectConditions.KindInputs(kind), m.vars, context.nextEip).value;
    DecideNeedsItsInputs(kind, width, values, needed);
    DirectConditions.DirectComparisonCorrect(producer, width, values, cc, OnlyResult(refs),
                                             SetFlags(m.flags, producer, width, values));
  }

  lemma KindInputsAreNamed(producer: Producer, cc: Cc, onlyResult: bool)
    requires DirectConditions.ConditionKind(producer, cc, onlyResult).Some?
    ensures forall name <- DirectConditions.KindInputs(DirectConditions.ConditionKind(producer, cc, onlyResult).value) ::
              name in InputNames(producer)
  {
  }
}
