/**
 Conditions decided straight from a pending producer's inputs, without computing any flag.
 */
module DirectConditions {
  import opened X86Types
  import opened Flags
  import opened Conditions
  import Bits

  datatype Kind =
    | Equal | NotEqual
    | UnsignedLess | UnsignedGreaterEqual
    | SignedLess | SignedGreaterEqual | SignedLessEqual | SignedGreater
    | Zero | NonZero
    | Sign | NotSign
    | Parity | NotParity
    | ConstTrue | ConstFalse
    | ZeroOrSign | NonZeroAndNotSign

  function LogicKind(cc: Cc): Kind {
    match cc
    case O => ConstFalse
    case B => ConstFalse
    case NO => ConstTrue
    case AE => ConstTrue
    case E => Zero
    case BE => Zero
    case NE => NonZero
    case A => NonZero
    case S => Sign
    case L => Sign
    case NS => NotSign
    case GE => NotSign
    case P => Parity
    case NP => NotParity
    case LE => ZeroOrSign
    case G => NonZeroAndNotSign
  }

  function CompareKind(cc: Cc): Option<Kind> {
    match cc
    case E => Some(Equal)
    case NE => Some(NotEqual)
    case B => Some(UnsignedLess)
    case AE => Some(UnsignedGreaterEqual)
    case L => Some(SignedLess)
    case GE => Some(SignedGreaterEqual)
    case LE => Some(SignedLessEqual)
    case G => Some(SignedGreater)
    case _ => None
  }

  function ResultKind(cc: Cc): Option<Kind> {
    match cc
    case E => Some(Zero)
    case NE => Some(NonZero)
    case S => Some(Sign)
    case NS => Some(NotSign)
    case P => Some(Parity)
    case NP => Some(NotParity)
    case _ => None
  }

  /** The comparison that decides a condition for a producer, when there is one. */
  function ConditionKind(producer: Producer, cc: Cc, onlyResult: bool): Option<Kind> {
    if producer.Logic? then Some(LogicKind(cc))
    else if producer.Sub? && !onlyResult && CompareKind(cc).Some? then CompareKind(cc)
    else ResultKind(cc)
  }

  /** Which conditions can be decided without materializing flags. */
  lemma ComparisonExistsIff(producer: Producer, cc: Cc, onlyResult: bool)
    ensures ConditionKind(producer, cc, onlyResult).Some? <==>
            || producer.Logic? || ConditionReads(cc) <= {ZF, SF, PF}
            || (producer.Sub? && !onlyResult && cc in {B, AE, L, GE, LE, G})
  {
    assert CF in ConditionReads(B) && CF in ConditionReads(AE) && CF in ConditionReads(BE) && CF in ConditionReads(A);
    assert OF in ConditionReads(O) && OF in ConditionReads(NO) && OF in ConditionReads(L) && OF in ConditionReads(GE);
    assert OF in ConditionReads(LE) && OF in ConditionReads(G);
  }

  function KindInputs(kind: Kind): seq<InputName> {
    match kind
    case ConstTrue => []
    case ConstFalse => []
    case Zero => [Result]
    case NonZero => [Result]
    case Sign => [Result]
    case NotSign => [Result]
    case Parity => [Result]
    case NotParity => [Result]
    case ZeroOrSign => [Result]
    case NonZeroAndNotSign => [Result]
    case _ => [Left, Right]
  }

  function Masked(value: Word, width: Width): Word {
    value % Modulus(width)
  }

  /** Signed comparisons flip the sign bits and compare unsigned. */
  function FlipSign(value: Word, width: Width): nat {
    Bits.Xor(Masked(value, width), SignMask(width))
  }

  predicate SignSet(value: Word, width: Width) {
    Bits.And(Masked(value, width), SignMask(width)) != 0
  }

  /** The comparison as it is emitted, on inputs masked to the width. */
  predicate Decide(kind: Kind, width: Width, inputs: Inputs) {
    var l, r, t := inputs.left, inputs.right, Masked(inputs.result, width);
    match kind
    case Equal => Bits.Xor(Masked(l, width), Masked(r, width)) == 0
    case NotEqual => Bits.Xor(Masked(l, width), Masked(r, width)) != 0
    case UnsignedLess => Masked(l, width) < Masked(r, width)
    case UnsignedGreaterEqual => !(Masked(l, width) < Masked(r, width))
    case SignedLess => FlipSign(l, width) < FlipSign(r, width)
    case SignedGreaterEqual => !(FlipSign(l, width) < FlipSign(r, width))
    case SignedLessEqual => !(FlipSign(l, width) > FlipSign(r, width))
    case SignedGreater => FlipSign(l, width) > FlipSign(r, width)
    case Zero => t == 0
    case NonZero => t != 0
    case Sign => SignSet(inputs.result, width)
    case NotSign => !SignSet(inputs.result, width)
    case Parity => Bits.EvenParity(t)
    case NotParity => !Bits.EvenParity(t)
    case ConstTrue => true
    case ConstFalse => false
    case ZeroOrSign => t == 0 || SignSet(inputs.result, width)
    case NonZeroAndNotSign => t != 0 && !SignSet(inputs.result, width)
  }

  /** Flipping the sign bit adds or subtracts half the modulus; read as signed, the upper half is negative. */
  lemma FlipMovesHalf(width: Width, x: Word)
    requires x < Modulus(width)
    ensures FlipSign(x, width) == if x < SignMask(width) then x + SignMask(width) else x - SignMask(width)
    ensures Signed(x, width) == if x < SignMask(width) then x else x - Modulus(width)
  {
    hide Bits.Xor, Bits.Pow2;
    Powers();
    Wrap(x, Modulus(width), 0);
    Bits.XorPower(x, SignBitIndex(width));
  }

  lemma FlippedOrder(width: Width, l: Word, r: Word)
    requires l < Modulus(width) && r < Modulus(width)
    ensures FlipSign(l, width) < FlipSign(r, width) <==> Signed(l, width) < Signed(r, width)
  {
    hide FlipSign, Signed;
    FlipMovesHalf(width, l);
    FlipMovesHalf(width, r);
  }

  /** Sign and overflow of a difference differ exactly when the difference is truly negative. */
  lemma SignedLessFormula(width: Width, l: Word, r: Word)
    requires l < Modulus(width) && r < Modulus(width)
    ensures ((Signed(l - r, width) < 0) != !FitsSigned(Signed(l, width) - Signed(r, width), width)) <==>
            Signed(l, width) < Signed(r, width)
  {
    var m := Modulus(width);
    Wrap(l, m, 0);
    Wrap(r, m, 0);
    Wrap(l - r, m, if l >= r then 0 else 1);
  }

  lemma SameResidue(width: Width, l: Word, r: Word)
    requires l < Modulus(width) && r < Modulus(width)
    ensures (l - r) % Modulus(width) == 0 <==> l == r
  {
    Wrap(l - r, Modulus(width), if l >= r then 0 else 1);
  }

  /** A flag state holds what a producer computed for the flags a condition reads. */
  ghost predicate Holds(on: Mask, producer: Producer, width: Width, inputs: Inputs, cc: Cc) {
    forall flag <- ConditionReads(cc) ::
      flag in WrittenMask(producer) && (flag in on) == Produces(producer, width, inputs, flag)
  }

  lemma HoldsTrueFlag(on: Mask, producer: Producer, width: Width, inputs: Inputs, cc: Cc, flag: Flag)
    requires Holds(on, producer, width, inputs, cc) && Consistent(producer, width, inputs)
    requires flag in ConditionReads(cc)
    ensures (flag in on) == TrueFlag(producer, width, inputs, flag)
  {
    ProducesTrueFlags(producer, width, inputs, flag);
  }

  /** The sixteen conditions as boolean functions of the flags they may read. */
  predicate Formula(cc: Cc, cf: bool, pf: bool, zf: bool, sf: bool, of: bool) {
    match cc
    case O => of
    case NO => !of
    case B => cf
    case AE => !cf
    case E => zf
    case NE => !zf
    case BE => cf || zf
    case A => !cf && !zf
    case S => sf
    case NS => !sf
    case P => pf
    case NP => !pf
    case L => sf != of
    case GE => sf == of
    case LE => zf || sf != of
    case G => !zf && sf == of
  }

  lemma ConditionFormula(cc: Cc, on: Mask)
    ensures Condition(cc, on) ==
            Formula(cc, (CF in on), (PF in on), (ZF in on), (SF in on), (OF in on))
  {
    var less := BXor(FlagRef(SF), FlagRef(OF));
    assert EvalBool(less, on) == ((SF in on) != (OF in on));
    assert EvalBool(Not(less), on) == !EvalBool(less, on);
    assert EvalBool(Not(FlagRef(ZF)), on) == !(ZF in on);
    assert EvalBool(Not(FlagRef(CF)), on) == !(CF in on);
    assert EvalBool(Not(FlagRef(SF)), on) == !(SF in on);
    assert EvalBool(Not(FlagRef(OF)), on) == !(OF in on);
    assert EvalBool(Not(FlagRef(PF)), on) == !(PF in on);
  }

  lemma EqualityCorrect(width: Width, inputs: Inputs)
    requires Consistent(Sub, width, inputs)
    ensures Decide(Equal, width, inputs) == TrueFlag(Sub, width, inputs, ZF)
  {
    var l, r := Masked(inputs.left, width), Masked(inputs.right, width);
    assert l == inputs.left && r == inputs.right by {
      Wrap(inputs.left, Modulus(width), 0);
      Wrap(inputs.right, Modulus(width), 0);
    }
    SameResidue(width, l, r);
    Bits.XorZeroMeansEqual(l, r);
  }

  lemma BorrowCorrect(width: Width, inputs: Inputs)
    requires Consistent(Sub, width, inputs)
    ensures Decide(UnsignedLess, width, inputs) == TrueFlag(Sub, width, inputs, CF)
  {
    Wrap(inputs.left, Modulus(width), 0);
    Wrap(inputs.right, Modulus(width), 0);
  }

  lemma SignedLessCorrect(width: Width, inputs: Inputs)
    requires Consistent(Sub, width, inputs)
    ensures Decide(SignedLess, width, inputs) ==
            (TrueFlag(Sub, width, inputs, SF) != TrueFlag(Sub, width, inputs, OF))
  {
    hide Signed, FitsSigned, FlipSign;
    FlippedOrder(width, inputs.left, inputs.right);
    SignedLessFormula(width, inputs.left, inputs.right);
  }

  lemma FlipsAgree(width: Width, l: Word, r: Word)
    requires l < Modulus(width) && r < Modulus(width)
    ensures FlipSign(l, width) == FlipSign(r, width) <==> l == r
  {
    hide FlipSign, Signed;
    FlipMovesHalf(width, l);
    FlipMovesHalf(width, r);
  }

  lemma SignedLessEqualCorrect(width: Width, inputs: Inputs)
    requires Consistent(Sub, width, inputs)
    ensures Decide(SignedLessEqual, width, inputs) ==
            (TrueFlag(Sub, width, inputs, ZF) || TrueFlag(Sub, width, inputs, SF) != TrueFlag(Sub, width, inputs, OF))
  {
    SignedLessCorrect(width, inputs);
    FlipsAgree(width, inputs.left, inputs.right);
    SameResidue(width, inputs.left, inputs.right);
  }

  /** After a subtraction, comparing the operands decides the condition. */
  lemma CompareCorrect(width: Width, inputs: Inputs, cc: Cc, on: Mask)
    requires Consistent(Sub, width, inputs) && Holds(on, Sub, width, inputs, cc)
    requires CompareKind(cc).Some?
    ensures Decide(CompareKind(cc).value, width, inputs) == Condition(cc, on)
  {
    ConditionFormula(cc, on);
    if ZF in ConditionReads(cc) { HoldsTrueFlag(on, Sub, width, inputs, cc, ZF); }
    if CF in ConditionReads(cc) { HoldsTrueFlag(on, Sub, width, inputs, cc, CF); }
    if SF in ConditionReads(cc) { HoldsTrueFlag(on, Sub, width, inputs, cc, SF); }
    if OF in ConditionReads(cc) { HoldsTrueFlag(on, Sub, width, inputs, cc, OF); }
    if cc.E? || cc.NE? {
      EqualityCorrect(width, inputs);
    } else if cc.B? || cc.AE? {
      BorrowCorrect(width, inputs);
    } else if cc.L? || cc.GE? {
      SignedLessCorrect(width, inputs);
    } else {
      SignedLessEqualCorrect(width, inputs);
    }
  }

  lemma ResultSign(producer: Producer, width: Width, inputs: Inputs)
    requires Consistent(producer, width, inputs)
    ensures SignSet(inputs.result, width) == TrueFlag(producer, width, inputs, SF)
  {
    SignTest(width, Masked(inputs.result, width));
  }

  lemma ResultZeroAndParity(producer: Producer, width: Width, inputs: Inputs)
    requires Consistent(producer, width, inputs)
    ensures (Masked(inputs.result, width) == 0) == TrueFlag(producer, width, inputs, ZF)
    ensures Bits.EvenParity(Masked(inputs.result, width)) == TrueFlag(producer, width, inputs, PF)
  {
    Bits.EvenParityCountsBits(Masked(inputs.result, width));
  }

  /** Whatever the producer, its result alone decides the zero, sign and parity conditions. */
  lemma ResultCorrect(producer: Producer, width: Width, inputs: Inputs, cc: Cc, on: Mask)
    requires Consistent(producer, width, inputs) && Holds(on, producer, width, inputs, cc)
    requires ResultKind(cc).Some?
    ensures Decide(ResultKind(cc).value, width, inputs) == Condition(cc, on)
  {
    hide TrueFlag, Consistent, Masked, SignSet, Holds;
    ConditionFormula(cc, on);
    if ZF in ConditionReads(cc) { HoldsTrueFlag(on, producer, width, inputs, cc, ZF); }
    if SF in ConditionReads(cc) { HoldsTrueFlag(on, producer, width, inputs, cc, SF); }
    if PF in ConditionReads(cc) { HoldsTrueFlag(on, producer, width, inputs, cc, PF); }
    ResultSign(producer, width, inputs);
    ResultZeroAndParity(producer, width, inputs);
  }

  /** A result-only comparison as a function of the result's zero, sign and parity. */
  predicate DecideResult(kind: Kind, zero: bool, sign: bool, parity: bool) {
    match kind
    case Zero => zero
    case NonZero => !zero
    case Sign => sign
    case NotSign => !sign
    case Parity => parity
    case NotParity => !parity
    case ZeroOrSign => zero || sign
    case NonZeroAndNotSign => !zero && !sign
    case ConstTrue => true
    case _ => false
  }

  lemma LogicTable(cc: Cc, zero: bool, sign: bool, parity: bool)
    ensures DecideResult(LogicKind(cc), zero, sign, parity) == Formula(cc, false, parity, zero, sign, false)
  {
  }

  lemma LogicDecision(cc: Cc, width: Width, inputs: Inputs)
    ensures
      var t := Masked(inputs.result, width);
      Decide(LogicKind(cc), width, inputs) ==
      DecideResult(LogicKind(cc), t == 0, SignSet(inputs.result, width), Bits.EvenParity(t))
  {
  }

  /** The flags a logic operation turns on. */
  function LogicOn(width: Width, inputs: Inputs): Mask {
    set flag <- ALL_FLAGS | Produces(Logic, width, inputs, flag)
  }

  lemma LogicIsConsistent(width: Width, inputs: Inputs)
    ensures Consistent(Logic, width, inputs)
  {
  }

  lemma LogicOnFlags(width: Width, inputs: Inputs)
    ensures
      var t, on := Masked(inputs.result, width), LogicOn(width, inputs);
      && CF !in on && OF !in on
      && (PF in on <==> Bits.EvenParity(t)) && (ZF in on <==> t == 0)
      && (SF in on <==> SignSet(inputs.result, width))
  {
    ParityFlag(Logic, width, inputs);
    ZeroFlag(Logic, width, inputs);
    SignFlag(Logic, width, inputs);
    ResultSign(Logic, width, inputs);
    ResultZeroAndParity(Logic, width, inputs);
    LogicIsConsistent(width, inputs);
    hide TrueFlag, Consistent, Masked, SignSet, Bits.EvenParity, TruncateToWidth, EvalValue;
    assert !Produces(Logic, width, inputs, CF) && !Produces(Logic, width, inputs, OF);
  }

  /** After a logic operation carry and overflow are clear, so every condition is decided by the result. */
  lemma LogicCorrect(width: Width, inputs: Inputs, cc: Cc, on: Mask)
    requires Holds(on, Logic, width, inputs, cc)
    ensures Decide(LogicKind(cc), width, inputs) == Condition(cc, on)
  {
    var t, produced := Masked(inputs.result, width), LogicOn(width, inputs);
    ReadsSuffice(cc, on, produced);
    ConditionFormula(cc, produced);
    LogicOnFlags(width, inputs);
    LogicTable(cc, t == 0, SignSet(inputs.result, width), Bits.EvenParity(t));
    LogicDecision(cc, width, inputs);
  }

  /**
   Whenever a direct comparison is selected for a pending producer, it decides the condition exactly as the
   condition's formula would on a state holding that producer's flags.
   */
  lemma DirectComparisonCorrect(
      producer: Producer, width: Width, inputs: Inputs, cc: Cc, onlyResult: bool, on: Mask)
    requires Consistent(producer, width, inputs) && Holds(on, producer, width, inputs, cc)
    requires ConditionKind(producer, cc, onlyResult).Some?
    ensures Decide(ConditionKind(producer, cc, onlyResult).value, width, inputs) == Condition(cc, on)
  {
    if producer.Logic? {
      LogicCorrect(width, inputs, cc, on);
    } else if producer.Sub? && !onlyResult && CompareKind(cc).Some? {
      CompareCorrect(width, inputs, cc, on);
    } else {
      ResultCorrect(producer, width, inputs, cc, on);
    }
  }
}
