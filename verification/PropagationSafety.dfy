/**
 What a block must satisfy for register value propagation to be right, stated on the block itself: a walk over its
 operations with the decisions of the analysis, without the rewritten code. Two things can go wrong. A tree can be
 taken from a variable that was computed before a register the tree names was written; and a memory access can fault,
 or compute its address, while what it depends on differs between the two programs.
 */
module PropagationSafety {
  import opened X86Types
  import opened Ir
  import opened RegisterValues
  import opened RegisterPropagation

  function ValuesAfter(instruction: Instruction, last: bool, values: Values): Values {
    AnalyzeOps(instruction.ops, instruction.context, last, Entered(instruction, values)).1.values
  }

  /** The decision for the first operation. */
  function DecisionFor(ops: seq<Op>, context: Context, last: bool, analysis: Analysis): (Decision, Analysis)
    requires ops != []
  {
    AnalyzeOp(analysis, ops[0], context, ExitNext(ops, context), BlockEnd(ops, last) && !IsExit(ops[0], context))
  }

  // ---------- faults ----------

  function AccessedStorage(op: Op): Option<Storage> {
    match op
    case Get(_, source, _, _) => Some(source)
    case Set(target, _, _, _) => Some(target)
    case _ => None
  }

  /** The registers the address of a memory operand is computed from when it is accessed. */
  function AddressRegs(op: Op, context: Context): set<Reg> {
    var storage := AccessedStorage(op);
    if storage.Some? && storage.value.Operand? && storage.value.index < |context.operands| &&
       context.operands[storage.value.index].MemBinding?
    then
      var ea := context.operands[storage.value.index].ea;
      (if ea.base.Some? then {ea.base.value} else {}) + (if ea.index.Some? then {ea.index.value} else {})
    else {}
  }

  /** Nothing tracked stands between the address and the registers really written. */
  predicate AddressUntracked(op: Op, context: Context, values: Values) {
    forall reg <- AddressRegs(op, context) :: !Overwrites(values, reg)
  }

  predicate WritesNothingBack(lists: seq<Materialization>) {
    forall list <- lists :: Written(list) == {}
  }

  /**
   Where an operation can fault, no register has been written back since the instruction began, and its address names
   no register whose write is being held back.
   */
  predicate FaultsSeeEntryFrom(ops: seq<Op>, context: Context, last: bool, analysis: Analysis, clean: bool)
    decreases ops
  {
    ops == [] ||
    var here := DecisionFor(ops, context, last, analysis);
    && (CanFault(ops[0], context.operands) ==> clean && AddressUntracked(ops[0], context, analysis.values))
    && FaultsSeeEntryFrom(ops[1..], context, last, here.1, clean && WritesNothingBack(here.0.before))
  }

  predicate FaultsSeeEntry(block: Block, values: Values) {
    block == [] ||
    (FaultsSeeEntryFrom(block[0].ops, block[0].context, |block| == 1, Entered(block[0], values), true) &&
     FaultsSeeEntry(block[1..], ValuesAfter(block[0], |block| == 1, values)))
  }

  // ---------- trees held by variables ----------

  // The trees that variables of the rewritten instruction hold; true once a register the tree names has been written
  // since the first of those variables was computed.
  type Held = map<Tree, bool>

  function Holding(held: Held, tree: Tree, stale: bool): Held {
    if tree in held then held else held[tree := stale]
  }

  function AfterWriting(held: Held, regs: set<Reg>): Held {
    map tree <- held :: held[tree] || exists reg <- regs :: UsesReg(tree, reg)
  }

  // `ok`: no tree was taken from a variable computed before a write to a register it names.
  datatype Walk = Walk(held: Held, ok: bool)

  /** A tree is needed in a variable: one that holds it is reused, otherwise its parts are needed. */
  function Need(held: Held, tree: Tree): Walk
    decreases tree, 1
  {
    if tree.ConstTree? then Walk(held, true)
    else if tree in held then Walk(held, !held[tree])
    else
      var parts := NeedParts(held, tree);
      Walk(Holding(parts.held, tree, false), parts.ok)
  }

  function NeedParts(held: Held, tree: Tree): Walk
    decreases tree, 0
  {
    match tree
    case ConstTree(_) => Walk(held, true)
    case RegTree(_) => Walk(held, true)
    case UnaryTree(_, a) => Need(held, a)
    case BinaryTree(_, a, b) =>
      var x := Need(held, a);
      var y := Need(x.held, b);
      Walk(y.held, x.ok && y.ok)
  }

  function NeedAll(held: Held, list: Materialization): Walk
    decreases list
  {
    if list == [] then Walk(held, true)
    else if list[0].tree == RegTree(list[0].reg) then NeedAll(held, list[1..])
    else
      var here := Need(held, list[0].tree);
      var rest := NeedAll(here.held, list[1..]);
      Walk(rest.held, here.ok && rest.ok)
  }

  /** The trees are computed first, then the registers are written. */
  function WriteBack(held: Held, list: Materialization): Walk {
    var all := NeedAll(held, list);
    Walk(AfterWriting(all.held, Written(list)), all.ok)
  }

  function WriteBackAll(held: Held, lists: seq<Materialization>): Walk
    decreases lists
  {
    if lists == [] then Walk(held, true)
    else
      var here := WriteBack(held, lists[0]);
      var rest := WriteBackAll(here.held, lists[1..]);
      Walk(rest.held, here.ok && rest.ok)
  }

  /** The tree of the variable an operation defines. */
  function TreeOf(tracker: Tracker, op: Op, context: Context, values: Values): Known {
    match op
    case Get(_, _, _, _) => ValueForGet(op, context, values)
    case Address(_, operand) => ValueForAddress(operand, context, values)
    case ValueConst(_, constant) => Known(ConstTree(constant), false)
    case ValueBinary(_, operator, a, b) =>
      var x, y := ValueFor(tracker, a), ValueFor(tracker, b);
      if x.Known? && y.Known? then Known(BinaryTree(operator, x.tree, y.tree), x.stale || y.stale) else Unknown
    case ValueUnary(_, operator, a) =>
      var x := ValueFor(tracker, a);
      if x.Known? then Known(UnaryTree(operator, x.tree), x.stale) else Unknown
    case _ => Unknown
  }

  function Carry(held: Held, action: Action, op: Op, context: Context, known: Known): Walk {
    match action
    case Drop => Walk(held, true)
    case Copy =>
      Walk(AfterWriting(if known.Known? then Holding(held, known.tree, known.stale) else held, Writes(op, context)), true)
    case Assign(tree) =>
      if Dst(op).None? then Walk(held, true)
      else
        var parts := NeedParts(held, tree);
        Walk(Holding(parts.held, tree, false), parts.ok)
  }

  /** A write that is left out must not leave its register with a tree that no longer describes the value. */
  predicate KeepsCurrentTree(action: Action, op: Op, tracker: Tracker) {
    action.Drop? && op.Set? && ValueFor(tracker, op.value).Known? ==> !ValueFor(tracker, op.value).stale
  }

  function CarryOp(held: Held, decision: Decision, op: Op, context: Context, analysis: Analysis): Walk {
    var before := WriteBackAll(held, decision.before);
    var after :=
      if IsTerminator(op) then WriteBack(before.held, decision.after)
      else Carry(before.held, decision.action, op, context, TreeOf(analysis.tracker, op, context, analysis.values));
    Walk(after.held, before.ok && after.ok && KeepsCurrentTree(decision.action, op, analysis.tracker))
  }

  predicate ReusesNothingStaleFrom(ops: seq<Op>, context: Context, last: bool, analysis: Analysis, held: Held)
    decreases ops
  {
    ops == [] ||
    var here := DecisionFor(ops, context, last, analysis);
    var walk := CarryOp(held, here.0, ops[0], context, analysis);
    walk.ok && ReusesNothingStaleFrom(ops[1..], context, last, here.1, walk.held)
  }

  predicate ReusesNothingStale(block: Block, values: Values) {
    block == [] ||
    (var flush := WriteBack(map[], EntryWriteBack(block[0], values));
     && flush.ok
     && ReusesNothingStaleFrom(block[0].ops, block[0].context, |block| == 1, Entered(block[0], values), flush.held)
     && ReusesNothingStale(block[1..], ValuesAfter(block[0], |block| == 1, values)))
  }
}
