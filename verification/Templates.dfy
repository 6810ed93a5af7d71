/** The operations that each kind of instruction is translated to. */
module Templates {
  import opened X86Types
  import opened Flags
  import opened Conditions
  import opened Ir

  datatype AluOp = AluAdd | AluSub | AluXor | AluAnd | AluOr

  datatype UnaryAluOp = AluInc | AluDec | AluNot | AluNeg

  function OperatorOf(op: AluOp): BinaryOperator {
    match op
    case AluAdd => BinAdd
    case AluSub => BinSub
    case AluXor => BinXor
    case AluAnd => BinAnd
    case AluOr => BinOr
  }

  function ProducerOf(op: AluOp): Producer {
    match op
    case AluAdd => Add
    case AluSub => Sub
    case _ => Logic
  }

  // Variables 0 and 1 hold the operands, variable 2 the result.
  function AluInputs(op: AluOp): InputRefs {
    if op.AluAdd? || op.AluSub? then map[Left := Var(0), Right := Var(1), Result := Var(2)] else map[Result := Var(2)]
  }

  function AluHead(op: AluOp, width: Width): seq<Op> {
    [Get(0, Operand(0), width, false), Get(1, Operand(1), width, false),
     ValueBinary(2, OperatorOf(op), Var(0), Var(1)), FlagsSet(ProducerOf(op), width, AluInputs(op))]
  }

  function Alu(op: AluOp, width: Width): seq<Op> {
    AluHead(op, width) + [Set(Operand(0), Var(2), width, false), Next]
  }

  function Cmp(width: Width): seq<Op> {
    AluHead(AluSub, width) + [Next]
  }

  function Test(width: Width): seq<Op> {
    AluHead(AluAnd, width) + [Next]
  }

  function UnaryAlu(op: UnaryAluOp, width: Width): seq<Op> {
    [Get(0, Operand(0), width, false)] +
    (match op
     case AluInc => [ValueBinary(1, BinAdd, Var(0), Const(1)), FlagsSet(Inc, width, map[Left := Var(0), Result := Var(1)])]
     case AluDec => [ValueBinary(1, BinSub, Var(0), Const(1)), FlagsSet(Dec, width, map[Left := Var(0), Result := Var(1)])]
     case AluNot => [ValueBinary(1, BinXor, Var(0), Const(WidthMask(width)))]
     case AluNeg => [ValueBinary(1, BinSub, Const(0), Var(0)),
                     FlagsSet(Sub, width, map[Left := Const(0), Right := Var(0), Result := Var(1)])]) +
    [Set(Operand(0), Var(1), width, false), Next]
  }

  /** `mov`, and with a narrower source `movzx` and `movsx`. */
  function Move(source: Width, signed: bool, target: Width): seq<Op> {
    [Get(0, Operand(1), source, signed), Set(Operand(0), Var(0), target, false), Next]
  }

  function Lea(width: Width): seq<Op> {
    [Address(0, 1), Set(Operand(0), Var(0), width, false), Next]
  }

  function Cmov(cc: Cc, width: Width): seq<Op> {
    [Get(0, Operand(1), width, false), FlagsCondition(1, cc), SetIf(Var(1), Operand(0), Var(0), width), Next]
  }

  function Xchg(width: Width): seq<Op> {
    [Get(0, Operand(0), width, false), Get(1, Operand(1), width, false), Set(Operand(0), Var(1), width, false),
     Set(Operand(1), Var(0), width, false), Next]
  }

  /** Push the value; the variables from `next` on are free. */
  function Push32(value: Value, next: VarId): seq<Op> {
    [Get(next, RegStorage(ESP), W32, false), ValueBinary(next + 1, BinSub, Var(next), Const(4)),
     Set(Mem(Var(next + 1)), value, W32, false), Set(RegStorage(ESP), Var(next + 1), W32, false)]
  }

  /** Pop into variable 1. */
  function Pop32(): seq<Op> {
    [Get(0, RegStorage(ESP), W32, false), Get(1, Mem(Var(0)), W32, false), ValueBinary(2, BinAdd, Var(0), Const(4)),
     Set(RegStorage(ESP), Var(2), W32, false)]
  }

  function Push(): seq<Op> {
    [Get(0, Operand(0), W32, false)] + Push32(Var(0), 1) + [Next]
  }

  function Pop(): seq<Op> {
    Pop32() + [Set(Operand(0), Var(1), W32, false), Next]
  }

  function Leave(): seq<Op> {
    [Get(0, RegStorage(EBP), W32, false), Get(1, Mem(Var(0)), W32, false), ValueBinary(2, BinAdd, Var(0), Const(4)),
     Set(RegStorage(ESP), Var(2), W32, false), Set(RegStorage(EBP), Var(1), W32, false), Next]
  }

  function Jmp(): seq<Op> {
    [Get(0, Operand(0), W32, false), Jump(Var(0))]
  }

  function Call(): seq<Op> {
    [Get(0, Operand(0), W32, false)] + Push32(NextEip, 1) + [Jump(Var(0))]
  }

  function Ret(): seq<Op> {
    Pop32() + [Jump(Var(1))]
  }

  function RetImm(): seq<Op> {
    Pop32() + [Get(3, Operand(0), W32, false), Get(4, RegStorage(ESP), W32, false), ValueBinary(5, BinAdd, Var(4), Var(3)),
               Set(RegStorage(ESP), Var(5), W32, false), Jump(Var(1))]
  }

  function Jcc(cc: Cc): seq<Op> {
    [FlagsCondition(0, cc), Get(1, Operand(0), W32, false), ConditionalJump(Var(0), Var(1), NextEip)]
  }

  function Int(): seq<Op> {
    [Get(0, Operand(0), W32, false), HostTrap(Var(0))]
  }
}
