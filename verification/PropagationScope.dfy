/** The propagated code is again well formed: it assigns no variable twice and contains only operations that are valid. */
module PropagationScope {
  import opened X86Types
  import opened Ir
  import opened RegisterValues
  import opened RegisterPropagation
  import PropagationProof
  import ExpressionProof

  function Defs(ops: seq<Op>): set<VarId> {
    set op <- ops | Dst(op).Some? :: Dst(op).value
  }

  lemma DefsAppend(first: seq<Op>, second: seq<Op>)
    ensures Defs(first + second) == Defs(first) + Defs(second)
  {
    assert forall op :: op in first + second <==> op in first || op in second;
  }

  lemma {:induction false} AssignsOnceAppend(first: seq<Op>, second: seq<Op>, defined: set<VarId>)
    ensures AssignsOnce(first + second, defined) <==>
            AssignsOnce(first, defined) && AssignsOnce(second, defined + Defs(first))
    decreases first
  {
    if first == [] {
      assert first + second == second && defined + Defs(first) == defined;
    } else {
      assert (first + second)[1..] == first[1..] + second;
      assert first == [first[0]] + first[1..];
      DefsAppend([first[0]], first[1..]);
      var next := if Dst(first[0]).Some? then defined + {Dst(first[0]).value} else defined;
      AssignsOnceAppend(first[1..], second, next);
      assert next + Defs(first[1..]) == defined + Defs(first);
    }
  }

  /** New code on top of what is defined: nothing assigned twice, new variables from `low` up to `high`, and `dsts`. */
  ghost predicate Adds(ops: seq<Op>, defined: set<VarId>, low: VarId, high: VarId, dsts: set<VarId>) {
    && AssignsOnce(ops, defined) && low <= high
    && forall id <- Defs(ops) :: id in dsts || low <= id < high
  }

  lemma AddsMore(
      first: seq<Op>, second: seq<Op>, defined: set<VarId>, low: VarId, middle: VarId, high: VarId, a: set<VarId>,
      b: set<VarId>)
    requires Adds(first, defined, low, middle, a) && Adds(second, defined + Defs(first), middle, high, b)
    ensures Adds(first + second, defined, low, high, a + b)
  {
    AssignsOnceAppend(first, second, defined);
    DefsAppend(first, second);
  }

  lemma AddsAlso(
      first: seq<Op>, second: seq<Op>, defined: set<VarId>, low: VarId, middle: VarId, high: VarId)
    requires Adds(first, defined, low, middle, {}) && Adds(second, defined + Defs(first), middle, high, {})
    ensures Adds(first + second, defined, low, high, {})
  {
    hide Adds;
    AddsMore(first, second, defined, low, middle, high, {}, {});
    var none: set<VarId> := {};
    assert none + none == none;
  }

  lemma AddsNothing(defined: set<VarId>, low: VarId, dsts: set<VarId>)
    ensures Adds([], defined, low, low, dsts)
  {
  }

  lemma AddsOne(op: Op, defined: set<VarId>, low: VarId)
    requires Dst(op).Some? ==> Dst(op).value !in defined
    ensures Adds([op], defined, low, low, if Dst(op).Some? then {Dst(op).value} else {})
  {
    assert [op][1..] == [] && forall o <- [op] :: o == op;
    assert AssignsOnce([op][1..], if Dst(op).Some? then defined + {Dst(op).value} else defined);
  }

  predicate AllBelow(ids: set<VarId>, bound: VarId) {
    forall id <- ids :: id < bound
  }

  lemma StillBelow(ops: seq<Op>, defined: set<VarId>, low: VarId, high: VarId, dsts: set<VarId>)
    requires Adds(ops, defined, low, high, dsts) && AllBelow(defined + dsts, low)
    ensures AllBelow(defined + Defs(ops), high)
  {
  }

  lemma {:induction false} RefAdds(rewrite: Rewrite, tree: Tree, defined: set<VarId>)
    requires AllBelow(defined, rewrite.next)
    ensures
      var emission := EmitRef(rewrite, tree);
      Adds(emission.ops, defined, rewrite.next, emission.rewrite.next, {})
    decreases tree, 1
  {
    AddsNothing(defined, rewrite.next, {});
    if !tree.ConstTree? && FirstWith(rewrite.tracker, tree).None? {
      IntoAdds(rewrite.(next := rewrite.next + 1), rewrite.next, tree, defined);
    }
  }

  lemma {:induction false} IntoAdds(rewrite: Rewrite, dst: VarId, tree: Tree, defined: set<VarId>)
    requires AllBelow(defined, rewrite.next) && dst < rewrite.next && dst !in defined
    ensures
      var code := EmitInto(rewrite, dst, tree);
      Adds(code.0, defined, rewrite.next, code.1.next, {dst})
    decreases tree, 0
  {
    hide AssignsOnce, Adds, Defs;
    match tree
    case ConstTree(value) => AddsOne(ValueConst(dst, value), defined, rewrite.next);
    case RegTree(reg) => AddsOne(Get(dst, RegStorage(reg), W32, false), defined, rewrite.next);
    case UnaryTree(operator, a) =>
      var x := EmitRef(rewrite, a);
      RefAdds(rewrite, a, defined);
      AddsLast(x.ops, ValueUnary(dst, operator, x.ref), defined, rewrite.next, x.rewrite.next, dst);
    case BinaryTree(operator, a, b) =>
      var x := EmitRef(rewrite, a);
      var y := EmitRef(x.rewrite, b);
      RefAdds(rewrite, a, defined);
      StillBelow(x.ops, defined, rewrite.next, x.rewrite.next, {});
      RefAdds(x.rewrite, b, defined + Defs(x.ops));
      AddsAlso(x.ops, y.ops, defined, rewrite.next, x.rewrite.next, y.rewrite.next);
      AddsLast(x.ops + y.ops, ValueBinary(dst, operator, x.ref, y.ref), defined, rewrite.next, y.rewrite.next, dst);
  }

  lemma AddsLast(ops: seq<Op>, op: Op, defined: set<VarId>, low: VarId, high: VarId, dst: VarId)
    requires Adds(ops, defined, low, high, {})
    requires Dst(op) == Some(dst) && dst !in defined && dst < low
    ensures Adds(ops + [op], defined, low, high, {dst})
  {
    AddsOne(op, defined + Defs(ops), high);
    AddsMore(ops, [op], defined, low, high, high, {}, {dst});
  }

  lemma {:induction false} RefsAdd(rewrite: Rewrite, list: Materialization, defined: set<VarId>)
    requires AllBelow(defined, rewrite.next)
    ensures
      var refs := EmitRefs(rewrite, list);
      Adds(refs.0, defined, rewrite.next, refs.2.next, {}) && (forall op <- refs.1 :: Dst(op).None? && op.Set?)
    decreases list
  {
    hide AssignsOnce, Adds, Defs, EmitRef;
    AddsNothing(defined, rewrite.next, {});
    if list != [] {
      if list[0].tree == RegTree(list[0].reg) {
        RefsAdd(rewrite, list[1..], defined);
      } else {
        var here := EmitRef(rewrite, list[0].tree);
        RefAdds(rewrite, list[0].tree, defined);
        StillBelow(here.ops, defined, rewrite.next, here.rewrite.next, {});
        RefsAdd(here.rewrite, list[1..], defined + Defs(here.ops));
        AddsAlso(here.ops, EmitRefs(here.rewrite, list[1..]).0, defined, rewrite.next, here.rewrite.next,
                 EmitRefs(here.rewrite, list[1..]).2.next);
      }
    }
  }

  lemma {:induction false} SetsAdd(sets: seq<Op>, defined: set<VarId>, low: VarId)
    requires forall op <- sets :: Dst(op).None?
    ensures Adds(sets, defined, low, low, {})
    decreases sets
  {
    if sets != [] {
      assert sets[0] in sets && forall op <- sets[1..] :: op in sets;
      SetsAdd(sets[1..], defined, low);
    }
  }

  lemma WriteBackAdds(rewrite: Rewrite, list: Materialization, defined: set<VarId>)
    requires AllBelow(defined, rewrite.next)
    ensures
      var code := EmitMaterialization(rewrite, list);
      Adds(code.0, defined, rewrite.next, code.1.next, {})
  {
    hide AssignsOnce, Adds, Defs, EmitRefs;
    var refs := EmitRefs(rewrite, list);
    RefsAdd(rewrite, list, defined);
    SetsAdd(refs.1, defined + Defs(refs.0), refs.2.next);
    AddsAlso(refs.0, refs.1, defined, rewrite.next, refs.2.next, refs.2.next);
  }

  lemma {:induction false} WriteBacksAdd(rewrite: Rewrite, lists: seq<Materialization>, defined: set<VarId>)
    requires AllBelow(defined, rewrite.next)
    ensures
      var code := EmitMaterializations(rewrite, lists);
      Adds(code.0, defined, rewrite.next, code.1.next, {})
    decreases lists
  {
    hide AssignsOnce, Adds, Defs, EmitMaterialization;
    AddsNothing(defined, rewrite.next, {});
    if lists != [] {
      var here := EmitMaterialization(rewrite, lists[0]);
      var rest := EmitMaterializations(here.1, lists[1..]);
      WriteBackAdds(rewrite, lists[0], defined);
      StillBelow(here.0, defined, rewrite.next, here.1.next, {});
      WriteBacksAdd(here.1, lists[1..], defined + Defs(here.0));
      AddsAlso(here.0, rest.0, defined, rewrite.next, here.1.next, rest.1.next);
    }
  }

  function DstSet(op: Op): set<VarId> {
    if Dst(op).Some? then {Dst(op).value} else {}
  }

  lemma ActionAdds(rewrite: Rewrite, action: Action, op: Op, context: Context, defined: set<VarId>)
    requires AllBelow(defined, rewrite.next) && AllBelow(DstSet(op), rewrite.next) && DstSet(op) !! defined
    ensures
      var code := EmitAction(rewrite, action, op, context);
      Adds(code.0, defined, rewrite.next, code.1.next, DstSet(op))
  {
    hide AssignsOnce, EmitInto;
    match action
    case Drop => AddsNothing(defined, rewrite.next, DstSet(op));
    case Copy => AddsOne(op, defined, rewrite.next);
    case Assign(tree) =>
      AddsNothing(defined, rewrite.next, DstSet(op));
      if Dst(op).Some? { IntoAdds(rewrite, Dst(op).value, tree, defined); }
  }

  lemma OpAdds(rewrite: Rewrite, decision: Decision, op: Op, context: Context, defined: set<VarId>)
    requires AllBelow(defined, rewrite.next) && AllBelow(DstSet(op), rewrite.next) && DstSet(op) !! defined
    ensures
      var code := EmitOp(rewrite, decision, op, context);
      Adds(code.0, defined, rewrite.next, code.1.next, DstSet(op))
  {
    hide AssignsOnce, EmitAction, EmitMaterialization, EmitMaterializations, DstSet;
    var before := EmitMaterializations(rewrite, decision.before);
    WriteBacksAdd(rewrite, decision.before, defined);
    StillBelow(before.0, defined, rewrite.next, before.1.next, {});
    if IsTerminator(op) {
      var after := EmitMaterialization(before.1, decision.after);
      var code := EmitAction(after.1, decision.action, op, context);
      WriteBackAdds(before.1, decision.after, defined + Defs(before.0));
      AddsAlso(before.0, after.0, defined, rewrite.next, before.1.next, after.1.next);
      StillBelow(before.0 + after.0, defined, rewrite.next, after.1.next, {});
      ActionAdds(after.1, decision.action, op, context, defined + Defs(before.0 + after.0));
      AddsMore(before.0 + after.0, code.0, defined, rewrite.next, after.1.next, code.1.next, {}, DstSet(op));
    } else {
      var code := EmitAction(before.1, decision.action, op, context);
      var after := EmitMaterialization(code.1, decision.after);
      ActionAdds(before.1, decision.action, op, context, defined + Defs(before.0));
      AddsMore(before.0, code.0, defined, rewrite.next, before.1.next, code.1.next, {}, DstSet(op));
      StillBelow(before.0 + code.0, defined, rewrite.next, code.1.next, DstSet(op));
      WriteBackAdds(code.1, decision.after, defined + Defs(before.0 + code.0));
      AddsMore(before.0 + code.0, after.0, defined, rewrite.next, code.1.next, after.1.next, DstSet(op), {});
    }
  }

  /** The block's own variables so far, and above `base` those of the rewrite. */
  ghost predicate Split(defined: set<VarId>, own: set<VarId>, base: VarId, next: VarId) {
    base <= next && AllBelow(defined, next) && forall id <- defined :: id < base ==> id in own
  }

  lemma {:induction false} OpsAdd(
      rewrite: Rewrite, decisions: seq<Decision>, ops: seq<Op>, context: Context, defined: set<VarId>, own: set<VarId>,
      base: VarId)
    requires |decisions| == |ops| && Split(defined, own, base, rewrite.next)
    requires AssignsOnce(ops, own) && PropagationProof.AssignsBelow(ops, base)
    ensures AssignsOnce(EmitOps(rewrite, decisions, ops, context).0, defined)
    decreases ops
  {
    hide EmitOp, Adds;
    if ops != [] {
      var op := ops[0];
      assert op in ops && forall o <- ops[1..] :: o in ops;
      var here := EmitOp(rewrite, decisions[0], op, context);
      OpAdds(rewrite, decisions[0], op, context, defined);
      SplitMore(here.0, op, defined, own, base, rewrite.next, here.1.next);
      assert own + {} == own;
      OpsAdd(here.1, decisions[1..], ops[1..], context, defined + Defs(here.0), own + DstSet(op), base);
      AssignsOnceAppend(here.0, EmitOps(here.1, decisions[1..], ops[1..], context).0, defined);
    }
  }

  lemma SplitMore(
      ops: seq<Op>, op: Op, defined: set<VarId>, own: set<VarId>, base: VarId, low: VarId, high: VarId)
    requires Split(defined, own, base, low) && Adds(ops, defined, low, high, DstSet(op)) && AllBelow(DstSet(op), low)
    ensures Split(defined + Defs(ops), own + DstSet(op), base, high) && AssignsOnce(ops, defined)
  {
  }

  /** A propagated instruction assigns no variable twice. */
  lemma PropagatedAssignsOnce(instruction: Instruction, last: bool, values: Values)
    requires AssignsOnce(instruction.ops, {})
    ensures AssignsOnce(PropagateInstruction(instruction, last, values).instruction.ops, {})
  {
    hide AnalyzeOps, EmitOps, EmitMaterialization, Entered, EntryWriteBack, AssignsOnce, Adds;
    var ops, context, next := instruction.ops, instruction.context, NextVarId(instruction.ops);
    var rewrite := Rewrite([], next, true);
    var analyzed := AnalyzeOps(ops, context, last, Entered(instruction, values));
    var before := EmitMaterialization(rewrite, EntryWriteBack(instruction, values));
    PropagationProof.NextVarIdIsAbove(ops);
    WriteBackAdds(rewrite, EntryWriteBack(instruction, values), {});
    EntrySplit(before.0, next, before.1.next);
    OpsAdd(before.1, analyzed.0, ops, context, {} + Defs(before.0), {}, next);
    AssignsOnceAppend(before.0, EmitOps(before.1, analyzed.0, ops, context).0, {});
  }

  lemma EntrySplit(ops: seq<Op>, low: VarId, high: VarId)
    requires Adds(ops, {}, low, high, {})
    ensures Split({} + Defs(ops), {}, low, high) && AssignsOnce(ops, {})
  {
  }

  // ---------- valid operations ----------

  ghost predicate AllValid(ops: seq<Op>, context: Context) {
    forall op <- ops :: ExpressionProof.ValidOp(op, context)
  }

  /** Operations the rewrite makes up itself. */
  predicate Made(op: Op) {
    op.Get? || op.ValueConst? || op.ValueBinary? || op.ValueUnary? || op.Set?
  }

  lemma MadeIsValid(ops: seq<Op>, context: Context)
    requires forall op <- ops :: Made(op)
    ensures AllValid(ops, context)
  {
  }

  lemma {:induction false} RefMade(rewrite: Rewrite, tree: Tree)
    ensures forall op <- EmitRef(rewrite, tree).ops :: Made(op)
    decreases tree, 1
  {
    IntoMade(rewrite.(next := rewrite.next + 1), rewrite.next, tree);
  }

  lemma {:induction false} IntoMade(rewrite: Rewrite, dst: VarId, tree: Tree)
    ensures forall op <- EmitInto(rewrite, dst, tree).0 :: Made(op)
    decreases tree, 0
  {
    match tree
    case ConstTree(_) =>
    case RegTree(_) =>
    case UnaryTree(_, a) => RefMade(rewrite, a);
    case BinaryTree(_, a, b) =>
      RefMade(rewrite, a);
      RefMade(EmitRef(rewrite, a).rewrite, b);
  }

  lemma {:induction false} RefsMade(rewrite: Rewrite, list: Materialization)
    ensures forall op <- EmitRefs(rewrite, list).0 + EmitRefs(rewrite, list).1 :: Made(op)
    decreases list
  {
    hide EmitRef;
    if list != [] {
      if list[0].tree == RegTree(list[0].reg) {
        RefsMade(rewrite, list[1..]);
      } else {
        RefMade(rewrite, list[0].tree);
        var rest := EmitRefs(EmitRef(rewrite, list[0].tree).rewrite, list[1..]);
        RefsMade(EmitRef(rewrite, list[0].tree).rewrite, list[1..]);
        assert forall op <- rest.0 :: op in rest.0 + rest.1;
        assert forall op <- rest.1 :: op in rest.0 + rest.1;
      }
    }
  }

  lemma {:induction false} WriteBacksMade(rewrite: Rewrite, lists: seq<Materialization>)
    ensures forall op <- EmitMaterializations(rewrite, lists).0 :: Made(op)
    decreases lists
  {
    hide EmitRefs;
    if lists != [] {
      RefsMade(rewrite, lists[0]);
      WriteBacksMade(EmitMaterialization(rewrite, lists[0]).1, lists[1..]);
    }
  }

  lemma OpValid(rewrite: Rewrite, decision: Decision, op: Op, context: Context)
    requires ExpressionProof.ValidOp(op, context)
    ensures AllValid(EmitOp(rewrite, decision, op, context).0, context)
  {
    hide EmitRefs, EmitInto, ExpressionProof.ValidOp;
    var before := EmitMaterializations(rewrite, decision.before);
    WriteBacksMade(rewrite, decision.before);
    MadeIsValid(before.0, context);
    ActionValid(before.1, decision.action, op, context);
    RefsMade(before.1, decision.after);
    MadeIsValid(EmitMaterialization(before.1, decision.after).0, context);
    ActionValid(EmitMaterialization(before.1, decision.after).1, decision.action, op, context);
    var code := EmitAction(before.1, decision.action, op, context);
    RefsMade(code.1, decision.after);
    MadeIsValid(EmitMaterialization(code.1, decision.after).0, context);
  }

  lemma ActionValid(rewrite: Rewrite, action: Action, op: Op, context: Context)
    requires ExpressionProof.ValidOp(op, context)
    ensures AllValid(EmitAction(rewrite, action, op, context).0, context)
  {
    hide EmitInto, ExpressionProof.ValidOp;
    if action.Assign? && Dst(op).Some? {
      IntoMade(rewrite, Dst(op).value, action.tree);
      MadeIsValid(EmitInto(rewrite, Dst(op).value, action.tree).0, context);
    }
  }

  lemma {:induction false} OpsValid(rewrite: Rewrite, decisions: seq<Decision>, ops: seq<Op>, context: Context)
    requires |decisions| == |ops| && AllValid(ops, context)
    ensures AllValid(EmitOps(rewrite, decisions, ops, context).0, context)
    decreases ops
  {
    hide EmitOp, ExpressionProof.ValidOp;
    if ops != [] {
      assert ops[0] in ops && forall op <- ops[1..] :: op in ops;
      OpValid(rewrite, decisions[0], ops[0], context);
      OpsValid(EmitOp(rewrite, decisions[0], ops[0], context).1, decisions[1..], ops[1..], context);
    }
  }

  lemma PropagatedIsValid(instruction: Instruction, last: bool, values: Values)
    requires AllValid(instruction.ops, instruction.context)
    ensures AllValid(PropagateInstruction(instruction, last, values).instruction.ops, instruction.context)
  {
    hide AnalyzeOps, EmitOps, EmitRefs, Entered, EntryWriteBack, ExpressionProof.ValidOp;
    var ops, context, rewrite := instruction.ops, instruction.context, Rewrite([], NextVarId(instruction.ops), true);
    var list := EntryWriteBack(instruction, values);
    RefsMade(rewrite, list);
    var before := EmitMaterialization(rewrite, list);
    MadeIsValid(before.0, context);
    OpsValid(before.1, AnalyzeOps(ops, context, last, Entered(instruction, values)).0, ops, context);
  }
}
