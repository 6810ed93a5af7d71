/**
 Symbolic flag definitions, condition codes and the direct comparisons that replace them.
 */
module Flags {
  import opened X86Types
  import opened Bits

  datatype Flag = CF | PF | AF | ZF | SF | OF

  /**
   A compact flag word or mask. Every flag owns one bit, so a word is the set of its bits: bitwise and, or and
   and-not are intersection, union and difference.
   */
  type Mask = set<Flag>

  const ALL_FLAGS: Mask := {CF, PF, AF, ZF, SF, OF}

  // The order in which the compact word is scanned and emitted.
  const FLAG_ORDER: seq<Flag> := [CF, PF, AF, ZF, SF, OF]

  // ---------- symbolic flag definitions ----------

  datatype InputName = Left | Right | Result

  datatype Inputs = Inputs(left: Word, right: Word, result: Word)

  function Input(inputs: Inputs, name: InputName): Word {
    match name
    case Left => inputs.left
    case Right => inputs.right
    case Result => inputs.result
  }

  datatype ValueExpr =
    | InputValue(name: InputName)
    | ConstValue(value: Word)
    | And(a: ValueExpr, b: ValueExpr)
    | Xor(a: ValueExpr, b: ValueExpr)

  datatype FlagExpr =
    | ConstFlag(on: bool)
    | UndefFlag
    | Eqz(value: ValueExpr)
    | Ne0(value: ValueExpr)
    | ULt(a: ValueExpr, b: ValueExpr)
    | ValueBit(value: ValueExpr, bit: nat)
    | Parity8(value: ValueExpr)
    | SignBit(value: ValueExpr, width: Width)

  datatype Producer = Add | Sub | Logic | Inc | Dec

  function InputNames(producer: Producer): seq<InputName> {
    match producer
    case Add => [Left, Right, Result]
    case Sub => [Left, Right, Result]
    case Logic => [Result]
    case Inc => [Left, Result]
    case Dec => [Left, Result]
  }

  function WrittenMask(producer: Producer): Mask {
    if producer.Inc? || producer.Dec? then {PF, AF, ZF, SF, OF} else ALL_FLAGS
  }

  function UndefMask(producer: Producer): Mask {
    if producer.Logic? then {AF} else {}
  }

  function TruncateToWidth(width: Width, value: ValueExpr): ValueExpr {
    if width == W32 then value else And(value, ConstValue(WidthMask(width)))
  }

  function Xor3(a: ValueExpr, b: ValueExpr, c: ValueExpr): ValueExpr {
    Xor(Xor(a, b), c)
  }

  // A set of definitions is a function from flags to optional expressions.

  function ZspFlags(width: Width, result: ValueExpr, flag: Flag): Option<FlagExpr> {
    match flag
    case ZF => Some(Eqz(result))
    case SF => Some(SignBit(result, width))
    case PF => Some(Parity8(result))
    case _ => None
  }

  function AddCarryFlags(width: Width, left: ValueExpr, right: ValueExpr, result: ValueExpr, flag: Flag)
    : Option<FlagExpr>
  {
    match flag
    case CF => Some(ULt(result, left))
    case AF => Some(ValueBit(Xor3(left, right, result), 4))
    case OF => Some(Ne0(And(And(Xor(left, result), Xor(right, result)), ConstValue(SignMask(width)))))
    case _ => None
  }

  function SubCarryFlags(width: Width, left: ValueExpr, right: ValueExpr, result: ValueExpr, flag: Flag)
    : Option<FlagExpr>
  {
    match flag
    case CF => Some(ULt(left, right))
    case AF => Some(ValueBit(Xor3(left, right, result), 4))
    case OF => Some(Ne0(And(And(Xor(left, right), Xor(left, result)), ConstValue(SignMask(width)))))
    case _ => None
  }

  function LogicFlags(width: Width, result: ValueExpr, flag: Flag): Option<FlagExpr> {
    match flag
    case CF => Some(ConstFlag(false))
    case OF => Some(ConstFlag(false))
    case AF => Some(UndefFlag)
    case _ => ZspFlags(width, result, flag)
  }

  /** The symbolic definition a producer gives each flag. */
  function Define(producer: Producer, width: Width, flag: Flag): Option<FlagExpr> {
    var left := InputValue(Left);
    var right := InputValue(Right);
    var result := TruncateToWidth(width, InputValue(Result));
    var one := ConstValue(1);
    var zsp := ZspFlags(width, result, flag);
    match producer
    case Add => if zsp.Some? then zsp else AddCarryFlags(width, left, right, result, flag)
    case Sub => if zsp.Some? then zsp else SubCarryFlags(width, left, right, result, flag)
    case Logic => LogicFlags(width, result, flag)
    case Inc => if flag == AF || flag == OF then AddCarryFlags(width, left, one, result, flag) else zsp
    case Dec => if flag == AF || flag == OF then SubCarryFlags(width, left, one, result, flag) else zsp
  }

  /** The explicit mask metadata and the definitions agree for every producer. */
  lemma MasksMatchDefinitions(producer: Producer, width: Width, flag: Flag)
    ensures Define(producer, width, flag).Some? <==> flag in WrittenMask(producer)
    ensures Define(producer, width, flag) == Some(UndefFlag) <==> flag in UndefMask(producer)
    ensures UndefMask(producer) <= WrittenMask(producer)
  {
  }

  // ---------- reference evaluation ----------

  function EvalValue(expr: ValueExpr, inputs: Inputs): nat {
    match expr
    case InputValue(name) => Input(inputs, name)
    case ConstValue(value) => value
    case And(a, b) => Bits.And(EvalValue(a, inputs), EvalValue(b, inputs))
    case Xor(a, b) => Bits.Xor(EvalValue(a, inputs), EvalValue(b, inputs))
  }

  predicate EvalFlag(expr: FlagExpr, inputs: Inputs) {
    match expr
    case ConstFlag(on) => on
    case UndefFlag => false
    case Eqz(value) => EvalValue(value, inputs) == 0
    case Ne0(value) => EvalValue(value, inputs) != 0
    case ULt(a, b) => EvalValue(a, inputs) < EvalValue(b, inputs)
    case ValueBit(value, bit) => Bit(EvalValue(value, inputs), bit)
    case Parity8(value) => EvenParity(EvalValue(value, inputs))
    case SignBit(value, width) => Bits.And(EvalValue(value, inputs), SignMask(width)) != 0
  }

  /** The value a producer gives a flag; flags it does not define read as clear. */
  predicate Produces(producer: Producer, width: Width, inputs: Inputs, flag: Flag) {
    var definition := Define(producer, width, flag);
    definition.Some? && EvalFlag(definition.value, inputs)
  }

  /** The eager semantics of one producer: overwrite exactly the flags it writes. */
  function SetFlags(on: Mask, producer: Producer, width: Width, inputs: Inputs): Mask {
    (on - WrittenMask(producer)) + (set flag <- WrittenMask(producer) | Produces(producer, width, inputs, flag))
  }
}
