/**
 Condition codes as boolean formulas over the flags, the true arithmetic meaning of the flags,
 and the direct comparisons that may stand in for a formula while its producer is still pending.
 */
module Conditions {
  import opened X86Types
  import opened Flags
  import Bits

  datatype Cc = O | NO | B | AE | E | NE | BE | A | S | NS | P | NP | L | GE | LE | G

  datatype FlagBoolExpr =
    | FlagRef(flag: Flag)
    | Not(value: FlagBoolExpr)
    | BAnd(a: FlagBoolExpr, b: FlagBoolExpr)
    | BOr(a: FlagBoolExpr, b: FlagBoolExpr)
    | BXor(a: FlagBoolExpr, b: FlagBoolExpr)

  function ConditionReads(cc: Cc): Mask {
    match cc
    case O => {OF} case NO => {OF}
    case B => {CF} case AE => {CF}
    case E => {ZF} case NE => {ZF}
    case BE => {CF, ZF} case A => {CF, ZF}
    case S => {SF} case NS => {SF}
    case P => {PF} case NP => {PF}
    case L => {SF, OF} case GE => {SF, OF}
    case LE => {ZF, SF, OF} case G => {ZF, SF, OF}
  }

  function ConditionExpr(cc: Cc): FlagBoolExpr {
    match cc
    case O => FlagRef(OF)
    case NO => Not(FlagRef(OF))
    case B => FlagRef(CF)
    case AE => Not(FlagRef(CF))
    case E => FlagRef(ZF)
    case NE => Not(FlagRef(ZF))
    case BE => BOr(FlagRef(CF), FlagRef(ZF))
    case A => BAnd(Not(FlagRef(CF)), Not(FlagRef(ZF)))
    case S => FlagRef(SF)
    case NS => Not(FlagRef(SF))
    case P => FlagRef(PF)
    case NP => Not(FlagRef(PF))
    case L => BXor(FlagRef(SF), FlagRef(OF))
    case GE => Not(BXor(FlagRef(SF), FlagRef(OF)))
    case LE => BOr(FlagRef(ZF), BXor(FlagRef(SF), FlagRef(OF)))
    case G => BAnd(Not(FlagRef(ZF)), Not(BXor(FlagRef(SF), FlagRef(OF))))
  }

  /** Evaluate a formula on the set of flags that are on. */
  predicate EvalBool(expr: FlagBoolExpr, on: Mask) {
    match expr
    case FlagRef(flag) => flag in on
    case Not(value) => !EvalBool(value, on)
    case BAnd(a, b) => EvalBool(a, on) && EvalBool(b, on)
    case BOr(a, b) => EvalBool(a, on) || EvalBool(b, on)
    case BXor(a, b) => EvalBool(a, on) != EvalBool(b, on)
  }

  predicate Condition(cc: Cc, on: Mask) {
    EvalBool(ConditionExpr(cc), on)
  }

  function FlagsIn(expr: FlagBoolExpr): Mask {
    match expr
    case FlagRef(flag) => {flag}
    case Not(value) => FlagsIn(value)
    case BAnd(a, b) => FlagsIn(a) + FlagsIn(b)
    case BOr(a, b) => FlagsIn(a) + FlagsIn(b)
    case BXor(a, b) => FlagsIn(a) + FlagsIn(b)
  }

  lemma {:induction false} BoolDependsOnItsFlags(expr: FlagBoolExpr, left: Mask, right: Mask)
    requires forall flag <- FlagsIn(expr) :: flag in left <==> flag in right
    ensures EvalBool(expr, left) == EvalBool(expr, right)
  {
    match expr
    case FlagRef(flag) =>
    case Not(value) => BoolDependsOnItsFlags(value, left, right);
    case BAnd(a, b) => BoolDependsOnItsFlags(a, left, right); BoolDependsOnItsFlags(b, left, right);
    case BOr(a, b) => BoolDependsOnItsFlags(a, left, right); BoolDependsOnItsFlags(b, left, right);
    case BXor(a, b) => BoolDependsOnItsFlags(a, left, right); BoolDependsOnItsFlags(b, left, right);
  }

  /** The declared read set of a condition is exactly the set of flags its formula names. */
  lemma ReadsAreTheFlagsNamed(cc: Cc)
    ensures ConditionReads(cc) == FlagsIn(ConditionExpr(cc))
  {
    match cc
    case LE => assert FlagsIn(BXor(FlagRef(SF), FlagRef(OF))) == {SF, OF};
    case G => assert FlagsIn(Not(BXor(FlagRef(SF), FlagRef(OF)))) == FlagsIn(BXor(FlagRef(SF), FlagRef(OF))) == {SF, OF};
    case GE => assert FlagsIn(BXor(FlagRef(SF), FlagRef(OF))) == {SF, OF};
    case _ =>
  }

  /** Flag states agreeing on the flags a condition reads decide it alike. */
  lemma ReadsSuffice(cc: Cc, left: Mask, right: Mask)
    requires forall flag <- ConditionReads(cc) :: flag in left <==> flag in right
    ensures Condition(cc, left) == Condition(cc, right)
  {
    ReadsAreTheFlagsNamed(cc);
    BoolDependsOnItsFlags(ConditionExpr(cc), left, right);
  }

  // ---------- what the flags mean ----------

  /** The second operand of the operation behind a producer. */
  function RightOperand(producer: Producer, inputs: Inputs): Word {
    if producer.Inc? || producer.Dec? then 1 else inputs.right
  }

  predicate IsAddition(producer: Producer) {
    producer.Add? || producer.Inc?
  }

  /** The operation itself, over unbounded integers. */
  function Exact(producer: Producer, inputs: Inputs): int {
    if IsAddition(producer) then inputs.left + RightOperand(producer, inputs)
    else if producer.Logic? then inputs.result
    else inputs.left - RightOperand(producer, inputs)
  }

  predicate InRange(value: Word, width: Width) {
    value < Modulus(width)
  }

  /**
   What the instruction templates guarantee: operands already reduced to the width, and a result that
   agrees with the operation on its low bits.
   */
  predicate Consistent(producer: Producer, width: Width, inputs: Inputs) {
    producer.Logic? ||
    (InRange(inputs.left, width) && InRange(RightOperand(producer, inputs), width) &&
     inputs.result % Modulus(width) == Exact(producer, inputs) % Modulus(width))
  }

  /** The two's complement reading of a value of the given width. */
  function Signed(value: int, width: Width): int {
    var low := value % Modulus(width);
    if low >= SignMask(width) then low - Modulus(width) else low
  }

  function SignedExact(producer: Producer, width: Width, inputs: Inputs): int {
    var l, r := Signed(inputs.left, width), Signed(RightOperand(producer, inputs), width);
    if IsAddition(producer) then l + r else l - r
  }

  predicate FitsSigned(value: int, width: Width) {
    0 - SignMask(width) <= value < SignMask(width)
  }

  /** Carry, borrow, half-carry, signed overflow, zero, sign and parity of the exact operation. */
  predicate TrueFlag(producer: Producer, width: Width, inputs: Inputs, flag: Flag) {
    var exact := Exact(producer, inputs);
    match flag
    case CF => !producer.Logic? && !(0 <= exact < Modulus(width))
    case AF =>
      if IsAddition(producer) then inputs.left % 16 + RightOperand(producer, inputs) % 16 >= 16
      else !producer.Logic? && inputs.left % 16 < RightOperand(producer, inputs) % 16
    case OF => !producer.Logic? && !FitsSigned(SignedExact(producer, width, inputs), width)
    case ZF => exact % Modulus(width) == 0
    case SF => Signed(exact, width) < 0
    case PF => |Bits.OnePlaces(exact % Modulus(width), 8)| % 2 == 0
  }

  function SignBitIndex(width: Width): nat {
    match width
    case W8 => 7
    case W16 => 15
    case W32 => 31
  }

  lemma Powers()
    ensures Bits.Pow2(4) == 16 && Bits.Pow2(8) == 0x100 && Bits.Pow2(16) == 0x1_0000
    ensures Bits.Pow2(7) == 0x80 && Bits.Pow2(15) == 0x8000
    ensures Bits.Pow2(31) == 0x8000_0000 && Bits.Pow2(32) == 0x1_0000_0000
  {
    assert Bits.Pow2(4) == 16;
    assert Bits.Pow2(8) == 0x100;
    assert Bits.Pow2(12) == 0x1000;
    assert Bits.Pow2(16) == 0x1_0000;
    assert Bits.Pow2(20) == 0x10_0000;
    assert Bits.Pow2(24) == 0x100_0000;
    assert Bits.Pow2(28) == 0x1000_0000;
  }

  lemma TruncatedResult(width: Width, inputs: Inputs)
    ensures EvalValue(TruncateToWidth(width, InputValue(Result)), inputs) == inputs.result % Modulus(width)
  {
    Powers();
    match width
    case W8 => Bits.AndLowMask(inputs.result, 8);
    case W16 => Bits.AndLowMask(inputs.result, 16);
    case W32 =>
  }

  lemma SignMaskBit(width: Width, value: nat)
    ensures Bits.And(value, SignMask(width)) != 0 <==> Bits.Bit(value, SignBitIndex(width))
  {
    Powers();
    Bits.AndPower(value, SignBitIndex(width));
  }

  /** Removing whole multiples of a modulus. */
  lemma Wrap(x: int, m: int, k: int)
    requires m > 0 && 0 <= x + k * m < m
    ensures x % m == x + k * m
  {
    assert x == m * (0 - k) + (x + k * m);
    Bits.DivisionUnique(x, m, 0 - k, x + k * m);
  }

  /** Testing the sign mask of a reduced value. */
  lemma SignTest(width: Width, value: nat)
    requires value < Modulus(width)
    ensures Bits.And(value, SignMask(width)) != 0 <==> value >= SignMask(width)
    ensures Bits.Bit(value, SignBitIndex(width)) <==> value >= SignMask(width)
  {
    SignMaskBit(width, value);
    Bits.BitIsDigit(value, SignBitIndex(width));
    Powers();
    hide Bits.And, Bits.Bit, Bits.Pow2;
    var h := SignMask(width);
    if value < h {
      Bits.DivisionUnique(value, h, 0, value);
    } else {
      Bits.DivisionUnique(value, h, 1, value - h);
    }
  }

  /** The overflow formula of an addition compares the operands' signs with the result's. */
  lemma OverflowFormula(width: Width, a: nat, b: nat, c: nat, d: nat)
    requires a < Modulus(width) && b < Modulus(width) && c < Modulus(width) && d < Modulus(width)
    ensures Bits.And(Bits.And(Bits.Xor(a, b), Bits.Xor(c, d)), SignMask(width)) != 0 <==>
            ((a >= SignMask(width)) != (b >= SignMask(width))) && ((c >= SignMask(width)) != (d >= SignMask(width)))
  {
    var n := SignBitIndex(width);
    SignMaskBit(width, Bits.And(Bits.Xor(a, b), Bits.Xor(c, d)));
    Bits.AndBit(Bits.Xor(a, b), Bits.Xor(c, d), n);
    Bits.XorBit(a, b, n);
    Bits.XorBit(c, d, n);
    SignTest(width, a);
    SignTest(width, b);
    SignTest(width, c);
    SignTest(width, d);
  }

  /** The half-carry formula compares the fifth digits of operands and result. */
  lemma HalfCarryParity(a: int, b: int, t: int, carry: int)
    requires 0 <= carry <= 1 && t % 2 == (a + b + carry) % 2
    ensures (a % 2 + b % 2 + t % 2) % 2 == 1 <==> carry == 1
  {
  }

  lemma HalfCarryFormula(a: nat, b: nat, t: nat)
    ensures Bits.Bit(Bits.Xor(Bits.Xor(a, b), t), 4) <==> ((a / 16) % 2 + (b / 16) % 2 + (t / 16) % 2) % 2 == 1
  {
    Powers();
    Bits.XorBit(Bits.Xor(a, b), t, 4);
    Bits.XorBit(a, b, 4);
    Bits.BitIsDigit(a, 4);
    Bits.BitIsDigit(b, 4);
    Bits.BitIsDigit(t, 4);
  }

  lemma SixteenDividesModulus(width: Width, value: int)
    ensures (value % Modulus(width)) % 16 == value % 16
    ensures ((value % Modulus(width)) / 16) % 2 == (value / 16) % 2
  {
    var m := Modulus(width);
    var q, v := value / m, value % m;
    var k := match width case W8 => 8 case W16 => 0x800 case W32 => 0x800_0000;
    assert value == m * q + v && m == 32 * k;
    var pairs := k * q;
    assert m * q == 32 * pairs;
    Bits.DivisionUnique(value, 16, 2 * pairs + v / 16, v % 16);
    Parity(v / 16, pairs);
  }

  lemma Parity(x: int, pairs: int)
    ensures (2 * pairs + x) % 2 == x % 2
  {
  }

  /** The fifth digit of a sum or difference is the sum of the fifth digits and the half-carry. */
  lemma FifthDigit(a: nat, b: nat)
    ensures ((a + b) / 16) % 2 == (a / 16 + b / 16 + (if a % 16 + b % 16 >= 16 then 1 else 0)) % 2
    ensures ((a - b) / 16) % 2 == (a / 16 + b / 16 + (if a % 16 < b % 16 then 1 else 0)) % 2
  {
    var carry := if a % 16 + b % 16 >= 16 then 1 else 0;
    Bits.DivisionUnique(a + b, 16, a / 16 + b / 16 + carry, a % 16 + b % 16 - 16 * carry);
    var borrow := if a % 16 < b % 16 then 1 else 0;
    Bits.DivisionUnique(a - b, 16, a / 16 - b / 16 - borrow, a % 16 - b % 16 + 16 * borrow);
    Parity(a / 16 - b / 16 - borrow, b / 16 + borrow);
  }

  lemma HalfCarryCorrect(producer: Producer, width: Width, inputs: Inputs, t: nat)
    requires !producer.Logic? && Consistent(producer, width, inputs)
    requires t == Exact(producer, inputs) % Modulus(width)
    ensures Bits.Bit(Bits.Xor(Bits.Xor(inputs.left, RightOperand(producer, inputs)), t), 4) ==
            TrueFlag(producer, width, inputs, AF)
  {
    hide Bits.Bit, Bits.Xor, Modulus, Consistent;
    var l, r := inputs.left, RightOperand(producer, inputs);
    HalfCarryFormula(l, r, t);
    SixteenDividesModulus(width, Exact(producer, inputs));
    FifthDigit(l, r);
    var carry := if TrueFlag(producer, width, inputs, AF) then 1 else 0;
    HalfCarryParity(l / 16, r / 16, t / 16, carry);
  }

  lemma OverflowCorrect(producer: Producer, width: Width, inputs: Inputs, t: nat)
    requires !producer.Logic? && Consistent(producer, width, inputs)
    requires t == Exact(producer, inputs) % Modulus(width)
    ensures
      var l, r := inputs.left, RightOperand(producer, inputs);
      var operands := if IsAddition(producer) then Bits.And(Bits.Xor(l, t), Bits.Xor(r, t))
                      else Bits.And(Bits.Xor(l, r), Bits.Xor(l, t));
      Bits.And(operands, SignMask(width)) != 0 <==> TrueFlag(producer, width, inputs, OF)
  {
    var l, r := inputs.left, RightOperand(producer, inputs);
    if IsAddition(producer) {
      OverflowFormula(width, l, t, r, t);
      SignedSum(width, l, r, t);
    } else {
      OverflowFormula(width, l, r, l, t);
      SignedDifference(width, l, r, t);
    }
  }

  lemma SignedSum(width: Width, l: nat, r: nat, t: nat)
    requires l < Modulus(width) && r < Modulus(width) && t == (l + r) % Modulus(width)
    ensures !FitsSigned(Signed(l, width) + Signed(r, width), width) <==>
            ((l >= SignMask(width)) != (t >= SignMask(width))) && ((r >= SignMask(width)) != (t >= SignMask(width)))
  {
    var m := Modulus(width);
    Wrap(l, m, 0);
    Wrap(r, m, 0);
    Wrap(l + r, m, if l + r < m then 0 else -1);
  }

  lemma SignedDifference(width: Width, l: nat, r: nat, t: nat)
    requires l < Modulus(width) && r < Modulus(width) && t == (l - r) % Modulus(width)
    ensures !FitsSigned(Signed(l, width) - Signed(r, width), width) <==>
            ((l >= SignMask(width)) != (r >= SignMask(width))) && ((l >= SignMask(width)) != (t >= SignMask(width)))
  {
    var m := Modulus(width);
    Wrap(l, m, 0);
    Wrap(r, m, 0);
    Wrap(l - r, m, if l >= r then 0 else 1);
  }

  lemma CarryCorrect(width: Width, l: nat, r: nat)
    requires l < Modulus(width) && r < Modulus(width)
    ensures (l + r) % Modulus(width) < l <==> l + r >= Modulus(width)
  {
    var m := Modulus(width);
    Wrap(l + r, m, if l + r < m then 0 else -1);
  }

  lemma CarryFlag(producer: Producer, width: Width, inputs: Inputs)
    requires Consistent(producer, width, inputs) && CF in WrittenMask(producer)
    ensures Produces(producer, width, inputs, CF) == TrueFlag(producer, width, inputs, CF)
  {
    TruncatedResult(width, inputs);
    if producer.Add? { CarryCorrect(width, inputs.left, inputs.right); }
  }

  function ResultExpr(width: Width): ValueExpr {
    TruncateToWidth(width, InputValue(Result))
  }

  function RightExpr(producer: Producer): ValueExpr {
    if producer.Inc? || producer.Dec? then ConstValue(1) else InputValue(Right)
  }

  lemma HalfCarryFlag(producer: Producer, width: Width, inputs: Inputs)
    requires Consistent(producer, width, inputs) && !producer.Logic?
    ensures Produces(producer, width, inputs, AF) == TrueFlag(producer, width, inputs, AF)
  {
    var l, r, t := InputValue(Left), RightExpr(producer), ResultExpr(width);
    assert Define(producer, width, AF) == Some(ValueBit(Xor3(l, r, t), 4));
    assert EvalValue(Xor(l, r), inputs) == Bits.Xor(inputs.left, RightOperand(producer, inputs));
    TruncatedResult(width, inputs);
    HalfCarryCorrect(producer, width, inputs, inputs.result % Modulus(width));
  }

  lemma EvalAnd(a: ValueExpr, b: ValueExpr, inputs: Inputs)
    ensures EvalValue(And(a, b), inputs) == Bits.And(EvalValue(a, inputs), EvalValue(b, inputs))
  {
  }

  lemma EvalXor(a: ValueExpr, b: ValueExpr, inputs: Inputs)
    ensures EvalValue(Xor(a, b), inputs) == Bits.Xor(EvalValue(a, inputs), EvalValue(b, inputs))
  {
  }

  lemma EvalConst(value: Word, inputs: Inputs)
    ensures EvalValue(ConstValue(value), inputs) == value
  {
  }

  lemma OverflowExpr(a: ValueExpr, b: ValueExpr, c: ValueExpr, d: ValueExpr, width: Width, inputs: Inputs)
    ensures EvalFlag(Ne0(And(And(Xor(a, b), Xor(c, d)), ConstValue(SignMask(width)))), inputs) <==>
            Bits.And(Bits.And(Bits.Xor(EvalValue(a, inputs), EvalValue(b, inputs)),
                              Bits.Xor(EvalValue(c, inputs), EvalValue(d, inputs))), SignMask(width)) != 0
  {
    hide EvalValue, Bits.And, Bits.Xor, SignMask;
    EvalXor(a, b, inputs);
    EvalXor(c, d, inputs);
    EvalAnd(Xor(a, b), Xor(c, d), inputs);
    EvalConst(SignMask(width), inputs);
    EvalAnd(And(Xor(a, b), Xor(c, d)), ConstValue(SignMask(width)), inputs);
  }

  lemma ResultIsExact(producer: Producer, width: Width, inputs: Inputs)
    requires Consistent(producer, width, inputs)
    ensures inputs.result % Modulus(width) == Exact(producer, inputs) % Modulus(width)
  {
  }

  lemma OverflowFlag(producer: Producer, width: Width, inputs: Inputs)
    requires Consistent(producer, width, inputs) && !producer.Logic?
    ensures Produces(producer, width, inputs, OF) == TrueFlag(producer, width, inputs, OF)
  {
    hide Consistent, Exact, TrueFlag, SignMask, Bits.And, Bits.Xor;
    var l, r, t := InputValue(Left), RightExpr(producer), ResultExpr(width);
    TruncatedResult(width, inputs);
    ResultIsExact(producer, width, inputs);
    OverflowCorrect(producer, width, inputs, inputs.result % Modulus(width));
    if IsAddition(producer) {
      OverflowExpr(l, t, r, t, width, inputs);
    } else {
      OverflowExpr(l, r, l, t, width, inputs);
    }
  }

  lemma ZeroFlag(producer: Producer, width: Width, inputs: Inputs)
    requires Consistent(producer, width, inputs)
    ensures Produces(producer, width, inputs, ZF) == TrueFlag(producer, width, inputs, ZF)
  {
    TruncatedResult(width, inputs);
  }

  lemma SignFlag(producer: Producer, width: Width, inputs: Inputs)
    requires Consistent(producer, width, inputs)
    ensures Produces(producer, width, inputs, SF) == TrueFlag(producer, width, inputs, SF)
  {
    assert Define(producer, width, SF) == Some(SignBit(ResultExpr(width), width));
    TruncatedResult(width, inputs);
    SignTest(width, inputs.result % Modulus(width));
  }

  lemma ParityFlag(producer: Producer, width: Width, inputs: Inputs)
    requires Consistent(producer, width, inputs)
    ensures Produces(producer, width, inputs, PF) == TrueFlag(producer, width, inputs, PF)
  {
    assert Define(producer, width, PF) == Some(Parity8(ResultExpr(width)));
    TruncatedResult(width, inputs);
    Bits.EvenParityCountsBits(inputs.result % Modulus(width));
    ResultIsExact(producer, width, inputs);
    hide Bits.EvenParity, Bits.OnePlaces, TruncateToWidth, Consistent, Exact;
  }

  /** Every flag a producer defines is the true flag of its exact operation. */
  lemma ProducesTrueFlags(producer: Producer, width: Width, inputs: Inputs, flag: Flag)
    requires Consistent(producer, width, inputs)
    requires flag in WrittenMask(producer) - UndefMask(producer)
    ensures Produces(producer, width, inputs, flag) == TrueFlag(producer, width, inputs, flag)
  {
    match flag
    case CF => CarryFlag(producer, width, inputs);
    case AF => HalfCarryFlag(producer, width, inputs);
    case OF => if !producer.Logic? { OverflowFlag(producer, width, inputs); }
    case ZF => ZeroFlag(producer, width, inputs);
    case SF => SignFlag(producer, width, inputs);
    case PF => ParityFlag(producer, width, inputs);
  }
}
