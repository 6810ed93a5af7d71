/**
 What a list of flat operations must satisfy for the expression builder to be right, stated on the operations: no
 write falls between a register read inside a value that has been put off and the place where that value is used.
 */
module ExpressionSafety {
  import opened X86Types
  import opened Ir
  import opened Expressions

  // What a put-off value reads when it is finally evaluated.
  datatype Read = OfStorage(storage: Storage) | OfAddress(operand: nat)

  predicate AddressReads(operand: nat, reg: Reg, context: Context) {
    operand < |context.operands| && context.operands[operand].MemBinding? &&
    (context.operands[operand].ea.base == Some(reg) || context.operands[operand].ea.index == Some(reg))
  }

  /** Whether a write might change what is read. */
  predicate Hits(write: Storage, read: Read, context: Context) {
    match read
    case OfStorage(storage) => MayAlias(write, storage, context)
    case OfAddress(operand) =>
      AliasOf(write, context).Some? && AddressReads(operand, AliasOf(write, context).value.base, context)
  }

  // A value without a variable of its own: a read by itself, which the builder guards up to its first use, or a
  // computed value with the reads inside it, which nothing guards.
  datatype Waiting = Direct(storage: Storage) | Nested(inside: set<Read>)

  type Pending = map<VarId, Waiting>

  function ReadsIn(value: Value, pending: Pending): set<Read> {
    if value.Var? && value.id in pending then
      match pending[value.id]
      case Direct(storage) => {OfStorage(storage)}
      case Nested(inside) => inside
    else {}
  }

  /** Whether the builder leaves the operation's value without a variable, to be evaluated where it is used. */
  predicate IsPutOff(block: Instruction, op: Op, rest: seq<Op>) {
    && Dst(op).Some? && !op.ValueConst? && !op.FlagsCondition?
    && CountUses(block.ops, Dst(op).value) <= 1 && !ConditionallyWritten(block.ops, Dst(op).value)
    && (op.Get? ==>
          CanInlineGet(op.source, block.context) && !CrossesBarrier(op.dst, op.source, rest, block.context))
  }

  function PutOff(op: Op, pending: Pending): Waiting {
    match op
    case Get(_, source, _, _) => Direct(source)
    case Address(_, operand) => Nested({OfAddress(operand)})
    case ValueBinary(_, _, a, b) => Nested(ReadsIn(a, pending) + ReadsIn(b, pending))
    case ValueUnary(_, _, a) => Nested(ReadsIn(a, pending))
    case _ => Nested({})
  }

  function UsedUp(op: Op, pending: Pending): set<VarId> {
    set id <- pending | OpUses(op, id) > 0
  }

  /** The values that wait after an operation: its operands do not, its own value may. */
  function StillPending(block: Instruction, pending: Pending, op: Op, rest: seq<Op>): Pending {
    var left := pending - UsedUp(op, pending);
    if IsPutOff(block, op, rest) then left[Dst(op).value := PutOff(op, pending)] else left
  }

  /** The operation writes nothing that a waiting computed value still has to read. */
  predicate DisturbsNothing(block: Instruction, pending: Pending, op: Op, rest: seq<Op>) {
    Target(op).Some? ==>
      forall id <- pending :: OpUses(op, id) == 0 && CountUses(rest, id) > 0 && pending[id].Nested? ==>
        forall read <- pending[id].inside :: !Hits(Target(op).value, read, block.context)
  }

  predicate SteadyFrom(block: Instruction, pending: Pending, ops: seq<Op>)
    decreases ops
  {
    ops == [] ||
    (DisturbsNothing(block, pending, ops[0], ops[1..]) &&
     SteadyFrom(block, StillPending(block, pending, ops[0], ops[1..]), ops[1..]))
  }

  predicate Steady(block: Instruction) {
    SteadyFrom(block, map[], block.ops)
  }
}
