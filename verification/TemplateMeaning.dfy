/**
 What the instructions do, end to end: the operations of a template, run one after the other, change registers, memory
 and flags as the architecture says, in integers and bits.
 */
module TemplateMeaning {
  import opened X86Types
  import opened Flags
  import opened Conditions
  import opened Ir
  import opened Expressions
  import opened OperandMeaning
  import opened Templates
  import Bits

  // ---------- how an instruction ends ----------

  predicate FallsThrough(outcome: Outcome, context: Context) {
    if context.exitMode then outcome.Exit? && outcome.kind.Fallthrough? && outcome.target == context.nextEip
    else outcome.Completed?
  }

  /** What the instruction, or the exit, leaves behind. */
  function After(outcome: Outcome): State
    requires outcome.Completed? || outcome.Exit?
  {
    if outcome.Completed? then StateOf(outcome.m) else State(outcome.regs, outcome.flags, outcome.memory)
  }

  /** A fault that shows the registers, flags and memory of the instruction's start. */
  predicate FaultsAsBefore(outcome: Outcome, s: State) {
    outcome.Fault? && outcome.regs == s.regs && outcome.flags == s.flags && outcome.memory == s.memory
  }

  // ---------- running on ----------

  lemma RunOn(ops: seq<Op>, context: Context, m: Machine)
    requires ops != []
    ensures RunOps(ops, context, m) ==
            if Step(ops[0], context, m).Running? then RunOps(ops[1..], context, Step(ops[0], context, m).m)
            else Step(ops[0], context, m)
  {
    hide Step;
  }

  lemma RunNext(ops: seq<Op>, context: Context, m: Machine)
    requires ops == [Next]
    ensures FallsThrough(RunOps(ops, context, m), context) && After(RunOps(ops, context, m)) == StateOf(m)
  {
  }

  // ---------- arithmetic ----------

  predicate IsAluResult(op: AluOp, width: Width, l: Word, r: Word, v: Word) {
    match op
    case AluAdd => v == (l + r) % Modulus(width)
    case AluSub => v == (l - r) % Modulus(width)
    case AluXor => v < Modulus(width) && forall i: nat | i < BitsOf(width) :: Bits.Bit(v, i) == (Bits.Bit(l, i) != Bits.Bit(r, i))
    case AluAnd => v < Modulus(width) && forall i: nat | i < BitsOf(width) :: Bits.Bit(v, i) == (Bits.Bit(l, i) && Bits.Bit(r, i))
    case AluOr => v < Modulus(width) && forall i: nat | i < BitsOf(width) :: Bits.Bit(v, i) == (Bits.Bit(l, i) || Bits.Bit(r, i))
  }

  /** The flags after an operation; a logic operation leaves the half-carry undefined. */
  predicate FlagsMean(producer: Producer, width: Width, inputs: Inputs, before: Mask, after: Mask) {
    forall flag: Flag ::
      if flag == CF && (producer.Inc? || producer.Dec?) then flag in after <==> flag in before
      else (flag == AF && producer.Logic?) || (flag in after <==> TrueFlag(producer, width, inputs, flag))
  }

  lemma SetFlagsMeans(producer: Producer, width: Width, inputs: Inputs, before: Mask)
    requires Consistent(producer, width, inputs)
    ensures FlagsMean(producer, width, inputs, before, SetFlags(before, producer, width, inputs))
  {
    hide TrueFlag, Produces, Consistent;
    forall flag: Flag | flag in WrittenMask(producer) - UndefMask(producer)
      ensures Produces(producer, width, inputs, flag) == TrueFlag(producer, width, inputs, flag)
    {
      ProducesTrueFlags(producer, width, inputs, flag);
    }
  }

  /** The word that an operator computes, cut to the width, is the operation's result. */
  lemma OperatorMeans(op: AluOp, width: Width, l: Word, r: Word)
    ensures IsAluResult(op, width, l, r, EvalBinary(OperatorOf(op), l, r) % Modulus(width))
  {
    var x := EvalBinary(OperatorOf(op), l, r);
    match op
    case AluAdd => CutTwice(l + r, width);
    case AluSub => CutTwice(l - r, width);
    case _ =>
      hide EvalBinary, Bits.Bit, Bits.Pow2;
      WidthPower(width);
      forall i: nat | i < BitsOf(width) ensures Bits.Bit(x % Modulus(width), i) == Bits.Bit(x, i) {
        Bits.BitLow(x, BitsOf(width), i);
      }
      BitsOfOperator(op, l, r);
  }

  lemma CutTwice(x: int, width: Width)
    ensures U32(x) % Modulus(width) == x % Modulus(width)
  {
  }

  lemma BitsOfOperator(op: AluOp, l: Word, r: Word)
    requires !op.AluAdd? && !op.AluSub?
    ensures forall i: nat | i < 32 ::
              Bits.Bit(EvalBinary(OperatorOf(op), l, r), i) ==
              match op
              case AluXor => Bits.Bit(l, i) != Bits.Bit(r, i)
              case AluAnd => Bits.Bit(l, i) && Bits.Bit(r, i)
              case _ => Bits.Bit(l, i) || Bits.Bit(r, i)
  {
    hide Bits.Bit, Bits.Pow2, Bits.And, Bits.Or, Bits.Xor;
    Powers();
    var x: nat := if op.AluXor? then Bits.Xor(l, r) else if op.AluAnd? then Bits.And(l, r) else Bits.Or(l, r);
    assert EvalBinary(OperatorOf(op), l, r) == x % Bits.Pow2(32);
    forall i: nat | i < 32
      ensures Bits.Bit(x % Bits.Pow2(32), i) ==
              match op
              case AluXor => Bits.Bit(l, i) != Bits.Bit(r, i)
              case AluAnd => Bits.Bit(l, i) && Bits.Bit(r, i)
              case _ => Bits.Bit(l, i) || Bits.Bit(r, i)
    {
      Bits.BitLow(x, 32, i);
      Bits.XorBit(l, r, i);
      Bits.AndBit(l, r, i);
      Bits.OrBit(l, r, i);
    }
  }

  /** A shift right moves the bits down by the count modulo 32; an extension keeps the signed integer. */
  lemma ShiftAndExtensionMean(a: Word, b: Word, i: nat)
    requires i < 32
    ensures Bits.Bit(EvalBinary(ShrU, a, b), i) == Bits.Bit(a, b % 32 + i)
    ensures EvalUnary(Extend8S, a) == Signed(a, W8) % 0x1_0000_0000
    ensures EvalUnary(Extend16S, a) == Signed(a, W16) % 0x1_0000_0000
  {
    ShiftMeans(a, b, i);
    SignExtends(a, W8);
    SignExtends(a, W16);
    hide EvalBinary, Bits.Bit, SignExtend, Signed;
  }

  lemma ShiftMeans(a: Word, b: Word, i: nat)
    ensures Bits.Bit(EvalBinary(ShrU, a, b), i) == Bits.Bit(a, b % 32 + i)
  {
    hide Bits.Bit, Bits.Pow2, Bits.ShiftRight;
    var n: nat := b % 32;
    Bits.ShiftDivides(a, n);
    Bits.ShiftShrinks(a, n);
    assert EvalBinary(ShrU, a, b) == Bits.ShiftRight(a, n);
    Bits.BitShifted(a, n, i);
  }

  /** What the flag producer of a template is given agrees with the operation: the results are not yet cut to the width. */
  lemma AluIsConsistent(op: AluOp, width: Width, l: Word, r: Word)
    requires l < Modulus(width) && r < Modulus(width)
    ensures
      var x := EvalBinary(OperatorOf(op), l, r);
      Consistent(ProducerOf(op), width, if ProducerOf(op).Logic? then Inputs(0, 0, x) else Inputs(l, r, x))
  {
    match op
    case AluAdd => CutTwice(l + r, width);
    case AluSub => CutTwice(l - r, width);
    case _ =>
  }

  lemma UnaryIsConsistent(op: UnaryAluOp, width: Width, v: Word)
    requires v < Modulus(width)
    ensures op.AluInc? ==> Consistent(Inc, width, Inputs(v, 0, EvalBinary(BinAdd, v, 1)))
    ensures op.AluDec? ==> Consistent(Dec, width, Inputs(v, 0, EvalBinary(BinSub, v, 1)))
    ensures op.AluNeg? ==> Consistent(Sub, width, Inputs(0, v, EvalBinary(BinSub, 0, v)))
  {
    CutTwice(v + 1, width);
    CutTwice(v - 1, width);
    CutTwice(0 - v, width);
  }

  // ---------- two-operand arithmetic ----------

  lemma StepsOn(ops: seq<Op>, context: Context, m: Machine)
    requires ops != []
    ensures RunSteps(ops, context, m) ==
            if Step(ops[0], context, m).Running? then RunSteps(ops[1..], context, Step(ops[0], context, m).m)
            else Step(ops[0], context, m)
  {
    hide Step;
  }

  /** Both operands hold values of the width. */
  predicate Operands(context: Context, width: Width, s: State, l: Word, r: Word) {
    && IsOperand(context, 0, width) && Holds(context.operands[0], width, s, l)
    && IsOperand(context, 1, width) && Holds(context.operands[1], width, s, r)
  }

  function AluValues(op: AluOp, l: Word, r: Word): Inputs {
    var x := EvalBinary(OperatorOf(op), l, r);
    if ProducerOf(op).Logic? then Inputs(0, 0, x) else Inputs(l, r, x)
  }

  lemma BothRead(op: AluOp, width: Width, context: Context, m: Machine, l: Word, r: Word)
    requires Operands(context, width, StateOf(m), l, r)
    ensures
      var n := RunSteps(AluHead(op, width)[..2], context, m);
      n.Running? && n.m == m.(vars := m.vars[0 := l][1 := r], log := n.m.log)
  {
    hide Step, Holds, Fits;
    var ops := AluHead(op, width)[..2];
    GetMeans(0, 0, width, false, context, m, l);
    var n := Step(ops[0], context, m).m;
    GetMeans(1, 1, width, false, context, n, r);
    StepsOn(ops, context, m);
    assert ops[1..] == [ops[1]] && ops[1..][1..] == [];
    StepsOn(ops[1..], context, n);
  }

  lemma ResultAndFlags(op: AluOp, width: Width, context: Context, m: Machine, l: Word, r: Word)
    requires 0 in m.vars && 1 in m.vars && m.vars[0] == l && m.vars[1] == r
    ensures RunSteps(AluHead(op, width)[2..], context, m) ==
            Running(m.(vars := m.vars[2 := EvalBinary(OperatorOf(op), l, r)],
                       flags := SetFlags(m.flags, ProducerOf(op), width, AluValues(op, l, r))))
  {
    hide EvalBinary, SetFlags;
    var ops := AluHead(op, width)[2..];
    var x := EvalBinary(OperatorOf(op), l, r);
    var n := m.(vars := m.vars[2 := x]);
    assert Step(ops[0], context, m) == Running(n);
    assert EvalInputs(AluInputs(op), InputNames(ProducerOf(op)), n.vars, context.nextEip) == Some(AluValues(op, l, r));
    assert Step(ops[1], context, n) == Running(n.(flags := SetFlags(n.flags, ProducerOf(op), width, AluValues(op, l, r))));
    hide Step;
    StepsOn(ops, context, m);
    assert ops[1..] == [ops[1]] && ops[1..][1..] == [];
    StepsOn(ops[1..], context, n);
  }

  /** The flags depend on the operands, or for a logic operation on the part of the result that fits the width. */
  lemma SameTrueFlag(producer: Producer, width: Width, first: Inputs, second: Inputs, flag: Flag)
    requires if producer.Logic? then first.result % Modulus(width) == second.result % Modulus(width)
             else first.left == second.left && RightOperand(producer, first) == RightOperand(producer, second)
    requires flag != AF || !producer.Logic?
    ensures TrueFlag(producer, width, first, flag) == TrueFlag(producer, width, second, flag)
  {
  }

  lemma SameFlagsMean(producer: Producer, width: Width, first: Inputs, second: Inputs, before: Mask, after: Mask)
    requires if producer.Logic? then first.result % Modulus(width) == second.result % Modulus(width)
             else first.left == second.left && RightOperand(producer, first) == RightOperand(producer, second)
    requires FlagsMean(producer, width, first, before, after)
    ensures FlagsMean(producer, width, second, before, after)
  {
    hide TrueFlag, Modulus;
    forall flag: Flag | flag != AF || !producer.Logic?
      ensures TrueFlag(producer, width, first, flag) == TrueFlag(producer, width, second, flag)
    {
      SameTrueFlag(producer, width, first, second, flag);
    }
  }

  lemma SameTrueFlags(op: AluOp, width: Width, l: Word, r: Word, before: Mask, after: Mask)
    requires FlagsMean(ProducerOf(op), width, AluValues(op, l, r), before, after)
    ensures FlagsMean(ProducerOf(op), width, Inputs(l, r, EvalBinary(OperatorOf(op), l, r) % Modulus(width)), before, after)
  {
    hide EvalBinary, FlagsMean;
    var x := EvalBinary(OperatorOf(op), l, r);
    assert x % Modulus(width) % Modulus(width) == x % Modulus(width);
    SameFlagsMean(ProducerOf(op), width, AluValues(op, l, r), Inputs(l, r, x % Modulus(width)), before, after);
  }

  /** Reading both operands, computing and setting the flags. */
  lemma AluHeadRuns(op: AluOp, width: Width, context: Context, m: Machine, l: Word, r: Word)
    requires Operands(context, width, StateOf(m), l, r)
    ensures
      var n, v := RunSteps(AluHead(op, width), context, m), EvalBinary(OperatorOf(op), l, r) % Modulus(width);
      && n.Running? && 2 in n.m.vars && n.m.vars[2] == EvalBinary(OperatorOf(op), l, r)
      && n.m == m.(vars := n.m.vars, log := n.m.log, flags := n.m.flags)
      && FlagsMean(ProducerOf(op), width, Inputs(l, r, v), m.flags, n.m.flags)
  {
    hide RunSteps, EvalBinary, SetFlags, Holds, Fits, FlagsMean, Consistent;
    var ops := AluHead(op, width);
    BothRead(op, width, context, m, l, r);
    var n := RunSteps(ops[..2], context, m).m;
    ResultAndFlags(op, width, context, n, l, r);
    assert ops == ops[..2] + ops[2..];
    RunStepsAppend(ops[..2], ops[2..], context, m);
    HeldFits(context.operands[0], width, StateOf(m), l);
    HeldFits(context.operands[1], width, StateOf(m), r);
    AluIsConsistent(op, width, l, r);
    SetFlagsMeans(ProducerOf(op), width, AluValues(op, l, r), m.flags);
    SameTrueFlags(op, width, l, r, m.flags, RunSteps(ops, context, m).m.flags);
  }

  /** add, sub, xor, and, or: the first operand becomes the result, with its flags; nothing else changes. */
  lemma AluMeans(op: AluOp, width: Width, context: Context, m: Machine, l: Word, r: Word)
    requires Operands(context, width, StateOf(m), l, r) && Writable(context.operands[0])
    ensures
      var outcome := RunOps(Alu(op, width), context, Begin(m));
      && FallsThrough(outcome, context)
      && exists v: Word ::
           && IsAluResult(op, width, l, r, v) && Becomes(context.operands[0], width, v, StateOf(m), After(outcome))
           && FlagsMean(ProducerOf(op), width, Inputs(l, r, v), m.flags, After(outcome).flags)
  {
    hide RunSteps, RunOps, EvalBinary, FlagsMean, AluHead, IsAluResult, Holds, Becomes;
    AluHeadRuns(op, width, context, Begin(m), l, r);
    var n := RunSteps(AluHead(op, width), context, Begin(m)).m;
    RunStepsAppend(AluHead(op, width), [Set(Operand(0), Var(2), width, false), Next], context, Begin(m));
    HeldIsInMemory(context.operands[0], width, StateOf(m), l);
    StoreAndEnd(2, width, context, m, n);
    OperatorMeans(op, width, l, r);
    var v: Word := n.vars[2] % Modulus(width);
    assert IsAluResult(op, width, l, r, v);
  }

  /** The last two operations of most templates: the first operand becomes the variable's value. */
  lemma StoreAndEnd(id: VarId, width: Width, context: Context, m: Machine, n: Machine)
    requires IsOperand(context, 0, width) && Writable(context.operands[0])
    requires InMemory(context.operands[0], width, StateOf(m)) && id in n.vars && n.regs == m.regs && n.memory == m.memory
    ensures
      var outcome := RunOps([Set(Operand(0), Var(id), width, false), Next], context, n);
      && FallsThrough(outcome, context) && After(outcome).flags == n.flags
      && Becomes(context.operands[0], width, n.vars[id] % Modulus(width), StateOf(m), After(outcome))
  {
    hide RunOps, Step, Fits, PartBecomes, BytesBecome, Modulus;
    var tail := [Set(Operand(0), Var(id), width, false), Next];
    SetMeans(0, Var(id), width, context, n, n.vars[id]);
    RunOn(tail, context, n);
    assert tail[1..] == [Next];
    RunNext(tail[1..], context, Step(tail[0], context, n).m);
  }

  lemma HeldIsInMemory(binding: Binding, width: Width, s: State, v: int)
    requires Holds(binding, width, s, v)
    ensures InMemory(binding, width, s)
  {
  }

  /** cmp and test: only the flags change, as the subtraction or the conjunction would set them. */
  lemma CompareMeans(test: bool, width: Width, context: Context, m: Machine, l: Word, r: Word)
    requires Operands(context, width, StateOf(m), l, r)
    ensures
      var op := if test then AluAnd else AluSub;
      var outcome := RunOps(if test then Test(width) else Cmp(width), context, Begin(m));
      && FallsThrough(outcome, context) && After(outcome).regs == m.regs && After(outcome).memory == m.memory
      && exists v: Word :: IsAluResult(op, width, l, r, v) &&
                           FlagsMean(ProducerOf(op), width, Inputs(l, r, v), m.flags, After(outcome).flags)
  {
    hide RunSteps, RunOps, EvalBinary, FlagsMean, AluHead, IsAluResult, Holds;
    var op := if test then AluAnd else AluSub;
    AluHeadRuns(op, width, context, Begin(m), l, r);
    var n := RunSteps(AluHead(op, width), context, Begin(m)).m;
    RunStepsAppend(AluHead(op, width), [Next], context, Begin(m));
    RunNext([Next], context, n);
    OperatorMeans(op, width, l, r);
    var v: Word := n.vars[2] % Modulus(width);
    assert IsAluResult(op, width, l, r, v);
  }

  // ---------- one-operand arithmetic ----------

  predicate IsUnaryResult(op: UnaryAluOp, width: Width, u: Word, v: Word) {
    match op
    case AluInc => v == (u + 1) % Modulus(width)
    case AluDec => v == (u - 1) % Modulus(width)
    case AluNeg => v == (0 - u) % Modulus(width)
    case AluNot => v < Modulus(width) && forall i: nat | i < BitsOf(width) :: Bits.Bit(v, i) == !Bits.Bit(u, i)
  }

  /** Only `not` leaves the flags alone; `neg` sets them as a subtraction from zero. */
  predicate UnaryFlags(op: UnaryAluOp, width: Width, u: Word, before: Mask, after: Mask) {
    match op
    case AluInc => FlagsMean(Inc, width, Inputs(u, 0, 0), before, after)
    case AluDec => FlagsMean(Dec, width, Inputs(u, 0, 0), before, after)
    case AluNeg => FlagsMean(Sub, width, Inputs(0, u, 0), before, after)
    case AluNot => after == before
  }

  function UnaryWord(op: UnaryAluOp, width: Width, u: Word): Word {
    match op
    case AluInc => EvalBinary(BinAdd, u, 1)
    case AluDec => EvalBinary(BinSub, u, 1)
    case AluNeg => EvalBinary(BinSub, 0, u)
    case AluNot => EvalBinary(BinXor, u, WidthMask(width))
  }

  lemma UnaryOperatorMeans(op: UnaryAluOp, width: Width, u: Word)
    requires u < Modulus(width)
    ensures IsUnaryResult(op, width, u, UnaryWord(op, width, u) % Modulus(width))
  {
    CutTwice(u + 1, width);
    CutTwice(u - 1, width);
    CutTwice(0 - u, width);
    if op.AluNot? {
      hide EvalBinary, Bits.Bit, Bits.Pow2;
      OperatorMeans(AluXor, width, u, WidthMask(width));
      WidthPower(width);
      forall i: nat | i < BitsOf(width) ensures Bits.Bit(WidthMask(width), i) {
        Bits.OnesBits(BitsOf(width), i);
      }
    }
  }

  lemma UnaryHeadRuns(op: UnaryAluOp, width: Width, context: Context, m: Machine, u: Word)
    requires IsOperand(context, 0, width) && Holds(context.operands[0], width, StateOf(m), u)
    ensures
      var ops := UnaryAlu(op, width);
      var n := RunSteps(ops[..|ops| - 2], context, m);
      && n.Running? && 1 in n.m.vars && n.m.vars[1] == UnaryWord(op, width, u)
      && n.m == m.(vars := n.m.vars, log := n.m.log, flags := n.m.flags)
      && UnaryFlags(op, width, u, m.flags, n.m.flags)
  {
    hide EvalBinary, SetFlags, Holds, Fits, FlagsMean, Consistent;
    var ops := UnaryAlu(op, width);
    var head := ops[..|ops| - 2];
    GetMeans(0, 0, width, false, context, m, u);
    var n := Step(head[0], context, m).m;
    var x := UnaryWord(op, width, u);
    var p := n.(vars := n.vars[1 := x]);
    assert Step(head[1], context, n) == Running(p);
    HeldFits(context.operands[0], width, StateOf(m), u);
    if !op.AluNot? { UnarySetsFlags(op, width, context, p, u); }
    hide Step, RunSteps;
    StepsOn(head, context, m);
    StepsOn(head[1..], context, n);
    if !op.AluNot? {
      StepsOn(head[2..], context, p);
      assert head[1..][1..] == head[2..] && head[2..][1..] == [];
      RunNone(context, Step(head[2], context, p).m);
    } else {
      assert head[1..][1..] == [];
      RunNone(context, p);
    }
  }

  lemma RunNone(context: Context, m: Machine)
    ensures RunSteps([], context, m) == Running(m)
  {
  }

  function UnaryProducer(op: UnaryAluOp): Producer {
    if op.AluInc? then Inc else if op.AluDec? then Dec else Sub
  }

  function UnaryInputs(op: UnaryAluOp, width: Width, u: Word): Inputs {
    var x := UnaryWord(op, width, u);
    if op.AluNeg? then Inputs(0, u, x) else Inputs(u, 0, x)
  }

  lemma UnarySetsFlags(op: UnaryAluOp, width: Width, context: Context, p: Machine, u: Word)
    requires !op.AluNot? && u < Modulus(width)
    requires 0 in p.vars && 1 in p.vars && p.vars[0] == u && p.vars[1] == UnaryWord(op, width, u)
    ensures
      var step := Step(UnaryAlu(op, width)[2], context, p);
      step.Running? && step.m == p.(flags := step.m.flags) && UnaryFlags(op, width, u, p.flags, step.m.flags)
  {
    var producer, inputs := UnaryProducer(op), UnaryInputs(op, width, u);
    UnaryIsConsistent(op, width, u);
    UnaryStep(op, width, context, p, u);
    hide SetFlags, Consistent, FlagsMean, Step, UnaryWord, Modulus, EvalBinary;
    SetFlagsMeans(producer, width, inputs, p.flags);
    SameFlagsMean(producer, width, inputs, if op.AluNeg? then Inputs(0, u, 0) else Inputs(u, 0, 0), p.flags,
                  SetFlags(p.flags, producer, width, inputs));
  }

  lemma UnaryStep(op: UnaryAluOp, width: Width, context: Context, p: Machine, u: Word)
    requires !op.AluNot? && 0 in p.vars && 1 in p.vars && p.vars[0] == u && p.vars[1] == UnaryWord(op, width, u)
    ensures Step(UnaryAlu(op, width)[2], context, p) ==
            Running(p.(flags := SetFlags(p.flags, UnaryProducer(op), width, UnaryInputs(op, width, u))))
  {
    hide SetFlags, UnaryWord;
    var flagsSet := UnaryAlu(op, width)[2];
    assert EvalInputs(flagsSet.inputs, InputNames(UnaryProducer(op)), p.vars, context.nextEip) ==
           Some(UnaryInputs(op, width, u));
  }

  /** inc, dec, not, neg: the operand becomes the result; inc and dec leave the carry alone. */
  lemma UnaryMeans(op: UnaryAluOp, width: Width, context: Context, m: Machine, u: Word)
    requires IsOperand(context, 0, width) && Holds(context.operands[0], width, StateOf(m), u)
    requires Writable(context.operands[0])
    ensures
      var outcome := RunOps(UnaryAlu(op, width), context, Begin(m));
      && FallsThrough(outcome, context)
      && UnaryFlags(op, width, u, m.flags, After(outcome).flags)
      && exists v: Word ::
           IsUnaryResult(op, width, u, v) && Becomes(context.operands[0], width, v, StateOf(m), After(outcome))
  {
    hide RunSteps, RunOps, FlagsMean, IsUnaryResult, Holds, Becomes, UnaryWord, UnaryFlags, Fits;
    var ops := UnaryAlu(op, width);
    var head := ops[..|ops| - 2];
    var tail := [Set(Operand(0), Var(1), width, false), Next];
    assert ops == head + tail;
    UnaryHeadRuns(op, width, context, Begin(m), u);
    var n := RunSteps(head, context, Begin(m)).m;
    RunStepsAppend(head, tail, context, Begin(m));
    HeldIsInMemory(context.operands[0], width, StateOf(m), u);
    HeldFits(context.operands[0], width, StateOf(m), u);
    StoreAndEnd(1, width, context, m, n);
    UnaryOperatorMeans(op, width, u);
    var v: Word := n.vars[1] % Modulus(width);
    assert IsUnaryResult(op, width, u, v);
  }
}
