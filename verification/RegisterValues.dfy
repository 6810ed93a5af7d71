/**
 Symbolic register values. A tree describes a value in terms of the registers the rewritten code has really written;
 tracked registers are those whose write was left out, with the tree of the value they should hold.
 */
module RegisterValues {
  import opened X86Types
  import opened Ir

  datatype Tree =
    | ConstTree(value: Word)
    | RegTree(reg: Reg)
    | UnaryTree(unary: UnaryOperator, a: Tree)
    | BinaryTree(binary: BinaryOperator, a: Tree, b: Tree)

  function EvalTree(tree: Tree, regs: Regs): Word {
    match tree
    case ConstTree(value) => value
    case RegTree(reg) => regs[reg]
    case UnaryTree(operator, a) => EvalUnary(operator, EvalTree(a, regs))
    case BinaryTree(operator, a, b) => EvalBinary(operator, EvalTree(a, regs), EvalTree(b, regs))
  }

  predicate UsesReg(tree: Tree, reg: Reg) {
    match tree
    case ConstTree(_) => false
    case RegTree(r) => r == reg
    case UnaryTree(_, a) => UsesReg(a, reg)
    case BinaryTree(_, a, b) => UsesReg(a, reg) || UsesReg(b, reg)
  }

  /** A tree keeps its value as long as no register it uses is written. */
  lemma {:induction false} TreeReadsItsRegs(tree: Tree, first: Regs, second: Regs)
    requires forall reg: Reg :: UsesReg(tree, reg) ==> first[reg] == second[reg]
    ensures EvalTree(tree, first) == EvalTree(tree, second)
  {
    match tree
    case ConstTree(_) =>
    case RegTree(_) =>
    case UnaryTree(_, a) => TreeReadsItsRegs(a, first, second);
    case BinaryTree(_, a, b) =>
      TreeReadsItsRegs(a, first, second);
      TreeReadsItsRegs(b, first, second);
  }

  type Values = map<Reg, Tree>

  /** What the registers of the original program hold, given those the rewritten program really holds. */
  ghost predicate Denotes(values: Values, regs: Regs, physical: Regs) {
    forall reg: Reg :: regs[reg] == if reg in values then EvalTree(values[reg], physical) else physical[reg]
  }

  // ---------- which registers must be written together ----------

  /** Writing back a register that already holds its own value writes nothing. */
  predicate Overwrites(values: Values, reg: Reg) {
    reg in values && values[reg] != RegTree(reg)
  }

  /** One growth round: add every tracked register whose tree uses a register about to be overwritten. */
  function Round(values: Values, regs: set<Reg>): set<Reg> {
    regs + set reg <- values | exists write <- regs :: Overwrites(values, write) && UsesReg(values[reg], write)
  }

  lemma RegistersAreFew(regs: set<Reg>)
    ensures regs <= ALL_REGS && |regs| <= 8
  {
    AllRegsListed();
    Contained(regs, ALL_REGS);
  }

  lemma {:induction false} Contained<T>(small: set<T>, big: set<T>)
    requires small <= big
    ensures |small| <= |big|
    ensures |small| == |big| ==> small == big
    decreases small
  {
    if small != {} {
      var x :| x in small;
      Contained(small - {x}, big - {x});
    }
  }

  function Closure(values: Values, regs: set<Reg>): set<Reg>
    decreases ALL_REGS - regs
  {
    var next := Round(values, regs);
    RegistersAreFew(next);
    if next == regs then regs else Closure(values, next)
  }

  predicate Closed(values: Values, regs: set<Reg>) {
    forall reg <- values, write <- regs :: Overwrites(values, write) && UsesReg(values[reg], write) ==> reg in regs
  }

  /** The closure is the least closed set that contains the requested registers. */
  lemma {:induction false} ClosureIsLeast(values: Values, regs: set<Reg>, closed: set<Reg>)
    requires Closed(values, closed) && regs <= closed
    ensures regs <= Closure(values, regs) <= closed
    ensures Closed(values, Closure(values, regs))
    decreases ALL_REGS - regs
  {
    var next := Round(values, regs);
    RegistersAreFew(next);
    if next == regs {
      assert forall reg <- values, write <- regs ::
          Overwrites(values, write) && UsesReg(values[reg], write) ==> reg in next;
    } else {
      ClosureIsLeast(values, next, closed);
    }
  }

  lemma ClosureIsClosed(values: Values, regs: set<Reg>)
    ensures regs <= Closure(values, regs) && Closed(values, Closure(values, regs))
  {
    AllRegsListed();
    RegistersAreFew(regs);
    ClosureIsLeast(values, regs, ALL_REGS);
  }

  /** The closure loop; it grows at most eight times. */
  method MaterializationClosure(values: Values, regs: set<Reg>) returns (materialized: set<Reg>, rounds: nat)
    ensures materialized == Closure(values, regs)
    ensures rounds <= 8
  {
    materialized, rounds := regs, 0;
    var changed := true;
    while changed
      invariant Closure(values, materialized) == Closure(values, regs)
      invariant rounds <= |materialized|
      invariant !changed ==> Round(values, materialized) == materialized
      decreases ALL_REGS - materialized, changed
    {
      var next := Round(values, materialized);
      RegistersAreFew(next);
      changed := next != materialized;
      if changed {
        Contained(materialized, next);
        rounds := rounds + 1;
        materialized := next;
      }
    }
    RegistersAreFew(materialized);
  }

  // ---------- values of variables ----------

  // A tree is stale once a register it uses has been written since the variable was defined. The flag only records
  // that; nothing in the pass looks at it.
  datatype Entry = Entry(id: VarId, tree: Tree, stale: bool)

  // In the order the variables were first recorded.
  type Tracker = seq<Entry>

  function Lookup(tracker: Tracker, id: VarId): Option<Entry> {
    if tracker == [] then None
    else if tracker[0].id == id then Some(tracker[0])
    else Lookup(tracker[1..], id)
  }

  function Forget(tracker: Tracker, id: VarId): Tracker {
    if tracker == [] then []
    else if tracker[0].id == id then Forget(tracker[1..], id)
    else [tracker[0]] + Forget(tracker[1..], id)
  }

  datatype Known = Unknown | Known(tree: Tree, stale: bool)

  function ValueFor(tracker: Tracker, value: Value): Known {
    match value
    case Var(id) =>
      var entry := Lookup(tracker, id);
      if entry.Some? then Known(entry.value.tree, entry.value.stale) else Unknown
    case Const(value) => Known(ConstTree(value), false)
    case NextEip => Unknown
  }

  function Record(tracker: Tracker, id: VarId, known: Known): Tracker {
    if known.Unknown? then Forget(tracker, id) else Forget(tracker, id) + [Entry(id, known.tree, known.stale)]
  }

  /** The first variable recorded with this tree, stale or not. */
  function FirstWith(tracker: Tracker, tree: Tree): Option<Entry> {
    if tracker == [] then None
    else if tracker[0].tree == tree then Some(tracker[0])
    else FirstWith(tracker[1..], tree)
  }

  function MarkStale(tracker: Tracker, regs: set<Reg>): Tracker {
    seq(|tracker|, i requires 0 <= i < |tracker| =>
      tracker[i].(stale := tracker[i].stale || exists reg <- regs :: UsesReg(tracker[i].tree, reg)))
  }

  function RegisterOf(storage: Storage, context: Context): Option<Reg> {
    match storage
    case RegStorage(reg) => Some(reg)
    case Mem(_) => None
    case Operand(index) =>
      if index < |context.operands| && context.operands[index].RegBinding?
      then Some(context.operands[index].alias.base) else None
  }

  function RegisterValue(values: Values, reg: Reg): Tree {
    if reg in values then values[reg] else RegTree(reg)
  }

  function ValueForGet(op: Op, context: Context, values: Values): Known
    requires op.Get?
  {
    var reg := RegisterOf(op.source, context);
    if reg.Some? then Known(RegisterValue(values, reg.value), false)
    else if op.source.Operand? && op.source.index < |context.operands| then
      match context.operands[op.source.index]
      case ImmBinding(value) => Known(ConstTree(Extended(op, Mask32(value, op.width))), false)
      case RelTarget(target) => Known(ConstTree(Extended(op, Mask32(target, op.width))), false)
      case _ => Unknown
    else Unknown
  }

  function Sum(terms: seq<Tree>): Tree
    requires terms != []
  {
    if |terms| == 1 then terms[0] else BinaryTree(BinAdd, Sum(terms[..|terms| - 1]), terms[|terms| - 1])
  }

  function AddressTerms(ea: MemOperand, values: Values): (terms: seq<Tree>)
    ensures terms != []
  {
    var regs := (if ea.base.Some? then [RegisterValue(values, ea.base.value)] else []) +
                (if ea.index.Some? then [RegisterValue(values, ea.index.value)] else []);
    if ea.disp != 0 || regs == [] then regs + [ConstTree(ea.disp)] else regs
  }

  /** A scaled index has no tree. */
  function ValueForAddress(operand: nat, context: Context, values: Values): Known {
    if operand >= |context.operands| || !context.operands[operand].MemBinding? then Unknown
    else
      var ea := context.operands[operand].ea;
      if ea.index.Some? && ea.scale != 1 then Unknown else Known(Sum(AddressTerms(ea, values)), false)
  }

  function RegsReadByAddress(operand: nat, context: Context, values: Values): set<Reg> {
    if operand >= |context.operands| || !context.operands[operand].MemBinding? then {}
    else
      var ea := context.operands[operand].ea;
      (if ea.base.Some? && ea.base.value in values then {ea.base.value} else {}) +
      (if ea.index.Some? && ea.index.value in values then {ea.index.value} else {})
  }

  function RecordOp(tracker: Tracker, op: Op, context: Context, values: Values): Tracker {
    match op
    case Get(dst, _, _, _) => Record(tracker, dst, ValueForGet(op, context, values))
    case Address(dst, operand) => Record(tracker, dst, ValueForAddress(operand, context, values))
    case ValueConst(dst, constant) => Record(tracker, dst, Known(ConstTree(constant), false))
    case ValueBinary(dst, operator, a, b) =>
      var x, y := ValueFor(tracker, a), ValueFor(tracker, b);
      Record(tracker, dst, if x.Known? && y.Known? then Known(BinaryTree(operator, x.tree, y.tree), x.stale || y.stale)
                           else Unknown)
    case ValueUnary(dst, operator, a) =>
      var x := ValueFor(tracker, a);
      Record(tracker, dst, if x.Known? then Known(UnaryTree(operator, x.tree), x.stale) else Unknown)
    case _ => tracker
  }
}
