/** The propagated code does what the original code does. */
module PropagationProof {
  import opened X86Types
  import opened Flags
  import opened Ir
  import Conditions
  import DirectConditions
  import opened RegisterValues
  import opened RegisterPropagation
  import opened PropagationSafety

  // ---------- trackers ----------

  ghost predicate EntryOk(entry: Entry, vars: map<VarId, Word>, regs: Regs) {
    !entry.stale ==> entry.id in vars && vars[entry.id] == EvalTree(entry.tree, regs)
  }

  /** Every entry that is not stale still describes its variable. */
  ghost predicate TrackerOk(tracker: Tracker, vars: map<VarId, Word>, regs: Regs) {
    forall entry <- tracker :: EntryOk(entry, vars, regs)
  }

  lemma {:induction false} LookupOk(tracker: Tracker, id: VarId)
    ensures Lookup(tracker, id).Some? ==> Lookup(tracker, id).value in tracker && Lookup(tracker, id).value.id == id
  {
    if tracker != [] { LookupOk(tracker[1..], id); }
  }

  lemma {:induction false} FirstWithOk(tracker: Tracker, tree: Tree)
    ensures FirstWith(tracker, tree).Some? ==>
              FirstWith(tracker, tree).value in tracker && FirstWith(tracker, tree).value.tree == tree
  {
    if tracker != [] { FirstWithOk(tracker[1..], tree); }
  }

  lemma {:induction false} ForgetOk(tracker: Tracker, id: VarId)
    ensures forall entry <- Forget(tracker, id) :: entry in tracker && entry.id != id
  {
    if tracker != [] { ForgetOk(tracker[1..], id); }
  }

  /** Defining a variable anew, with a tree that describes it unless stale. */
  lemma RecordOk(tracker: Tracker, vars: map<VarId, Word>, regs: Regs, id: VarId, value: Word, known: Known)
    requires TrackerOk(tracker, vars, regs)
    requires known.Known? && !known.stale ==> value == EvalTree(known.tree, regs)
    ensures TrackerOk(Record(tracker, id, known), vars[id := value], regs)
  {
    ForgetOk(tracker, id);
    forall entry <- Record(tracker, id, known) ensures EntryOk(entry, vars[id := value], regs) {
      if entry in Forget(tracker, id) {
        assert EntryOk(entry, vars, regs);
      }
    }
  }

  lemma DefineOk(tracker: Tracker, vars: map<VarId, Word>, regs: Regs, id: VarId, value: Word)
    requires TrackerOk(tracker, vars, regs) && id !in vars
    ensures TrackerOk(tracker, vars[id := value], regs)
  {
    assert forall entry <- tracker :: EntryOk(entry, vars, regs);
  }

  ghost predicate Extends(before: map<VarId, Word>, after: map<VarId, Word>) {
    before.Keys <= after.Keys && forall id <- before :: after[id] == before[id]
  }

  /** After writing some registers, entries that use one of them are stale and the others still hold. */
  lemma StaleOk(tracker: Tracker, vars: map<VarId, Word>, regs: Regs, after: Regs, written: set<Reg>)
    requires TrackerOk(tracker, vars, regs)
    requires forall reg: Reg :: reg !in written ==> after[reg] == regs[reg]
    ensures TrackerOk(MarkStale(tracker, written), vars, after)
  {
    var marked := MarkStale(tracker, written);
    forall entry <- marked ensures EntryOk(entry, vars, after) {
      var i :| 0 <= i < |marked| && marked[i] == entry;
      assert tracker[i] in tracker && EntryOk(tracker[i], vars, regs);
      if !entry.stale {
        TreeReadsItsRegs(entry.tree, regs, after);
      }
    }
  }

  lemma ValueForOk(tracker: Tracker, vars: map<VarId, Word>, regs: Regs, value: Value, nextEip: Word)
    requires TrackerOk(tracker, vars, regs)
    ensures
      var known := ValueFor(tracker, value);
      known.Known? && !known.stale ==> Eval(value, vars, nextEip) == Some(EvalTree(known.tree, regs))
  {
    if value.Var? {
      LookupOk(tracker, value.id);
      var entry := Lookup(tracker, value.id);
      if entry.Some? { assert EntryOk(entry.value, vars, regs); }
    }
  }

  // ---------- emitted value code ----------

  /** Running emitted value code only defines new variables, numbered from `low`. */
  ghost predicate Computes(ops: seq<Op>, context: Context, p: Machine, low: VarId, high: VarId) {
    var end := RunSteps(ops, context, p);
    && end.Running? && low <= high
    && end.m == p.(vars := end.m.vars) && Extends(p.vars, end.m.vars)
    && (forall id <- end.m.vars :: id in p.vars || low <= id < high)
  }

  ghost predicate Below(vars: map<VarId, Word>, next: VarId) {
    forall id <- vars :: id < next
  }

  lemma ComputesMore(first: seq<Op>, second: seq<Op>, context: Context, p: Machine, low: VarId, middle: VarId, high: VarId)
    requires Computes(first, context, p, low, middle)
    requires Computes(second, context, RunSteps(first, context, p).m, middle, high)
    ensures Computes(first + second, context, p, low, high)
    ensures RunSteps(first + second, context, p) == RunSteps(second, context, RunSteps(first, context, p).m)
  {
    hide RunSteps;
    RunStepsAppend(first, second, context, p);
  }

  lemma ComputesNothing(context: Context, p: Machine, low: VarId)
    ensures Computes([], context, p, low, low) && RunSteps([], context, p) == Running(p)
  {
  }

  lemma {:induction false} OkOnlyFalls(rewrite: Rewrite, tree: Tree, dst: VarId)
    ensures EmitRef(rewrite, tree).rewrite.ok ==> rewrite.ok
    ensures EmitInto(rewrite, dst, tree).1.ok ==> rewrite.ok
    decreases tree, 1
  {
    OkOnlyFallsInto(rewrite, tree, dst);
    OkOnlyFallsInto(rewrite.(next := rewrite.next + 1), tree, rewrite.next);
  }

  lemma {:induction false} OkOnlyFallsInto(rewrite: Rewrite, tree: Tree, dst: VarId)
    ensures EmitInto(rewrite, dst, tree).1.ok ==> rewrite.ok
    decreases tree, 0
  {
    match tree
    case ConstTree(_) =>
    case RegTree(_) =>
    case UnaryTree(_, a) => OkOnlyFalls(rewrite, a, dst);
    case BinaryTree(_, a, b) =>
      OkOnlyFalls(rewrite, a, dst);
      OkOnlyFalls(EmitRef(rewrite, a).rewrite, b, dst);
  }

  /** The reference denotes the tree's value after the code has run, and the tracker knows it. */
  ghost predicate Denoted(emission: Emission, tree: Tree, context: Context, p: Machine) {
    var end := RunSteps(emission.ops, context, p);
    end.Running? &&
    var vars := end.m.vars;
    && Eval(emission.ref, vars, context.nextEip) == Some(EvalTree(tree, p.regs))
    && TrackerOk(emission.rewrite.tracker, vars, p.regs)
  }

  lemma {:induction false} EmitRefCorrect(rewrite: Rewrite, tree: Tree, context: Context, p: Machine)
    requires TrackerOk(rewrite.tracker, p.vars, p.regs) && Below(p.vars, rewrite.next)
    requires EmitRef(rewrite, tree).rewrite.ok
    ensures
      var emission := EmitRef(rewrite, tree);
      && Computes(emission.ops, context, p, rewrite.next, emission.rewrite.next)
      && Denoted(emission, tree, context, p)
    decreases tree, 1
  {
    hide RunSteps, Computes;
    ComputesNothing(context, p, rewrite.next);
    FirstWithOk(rewrite.tracker, tree);
    var found := FirstWith(rewrite.tracker, tree);
    if tree.ConstTree? {
    } else if found.Some? {
      assert EntryOk(found.value, p.vars, p.regs);
    } else {
      var dst := rewrite.next;
      EmitIntoCorrect(rewrite.(next := dst + 1), dst, tree, context, p);
      var code := EmitInto(rewrite.(next := dst + 1), dst, tree);
      DefinesComputes(code.0, context, p, dst, dst + 1, code.1.next);
    }
  }

  /** Like Computes, but besides the new variables it defines `dst`. */
  ghost predicate Defines(ops: seq<Op>, context: Context, p: Machine, dst: VarId, low: VarId, high: VarId) {
    var end := RunSteps(ops, context, p);
    && end.Running? && low <= high
    && end.m == p.(vars := end.m.vars) && Extends(p.vars, end.m.vars) && dst in end.m.vars
    && (forall id <- end.m.vars :: id in p.vars || id == dst || low <= id < high)
  }

  lemma DefinesComputes(ops: seq<Op>, context: Context, p: Machine, dst: VarId, low: VarId, high: VarId)
    requires Defines(ops, context, p, dst, low, high) && low == dst + 1
    ensures Computes(ops, context, p, dst, high)
  {
  }

  lemma DefineLast(ops: seq<Op>, op: Op, context: Context, p: Machine, dst: VarId, low: VarId, high: VarId, value: Word)
    requires Computes(ops, context, p, low, high) && dst !in p.vars && dst < low
    requires Step(op, context, RunSteps(ops, context, p).m) == Bind(RunSteps(ops, context, p).m, dst, value)
    ensures Defines(ops + [op], context, p, dst, low, high) && RunSteps(ops + [op], context, p).Running?
    ensures dst !in RunSteps(ops, context, p).m.vars
    ensures RunSteps(ops + [op], context, p).m.vars == RunSteps(ops, context, p).m.vars[dst := value]
  {
    hide Step;
    RunStepsAppend(ops, [op], context, p);
    var middle := RunSteps(ops, context, p).m;
    assert RunSteps([op], context, middle) == Bind(middle, dst, value) by {
      assert [op][1..] == [];
    }
  }

  ghost predicate Computed(code: (seq<Op>, Rewrite), dst: VarId, tree: Tree, context: Context, p: Machine) {
    var end := RunSteps(code.0, context, p);
    end.Running? &&
    var vars := end.m.vars;
    && dst in vars && vars[dst] == EvalTree(tree, p.regs)
    && TrackerOk(Record(code.1.tracker, dst, Known(tree, false)), vars, p.regs)
  }

  lemma {:induction false} EmitIntoCorrect(rewrite: Rewrite, dst: VarId, tree: Tree, context: Context, p: Machine)
    requires TrackerOk(rewrite.tracker, p.vars, p.regs) && Below(p.vars, rewrite.next)
    requires dst !in p.vars && dst < rewrite.next && EmitInto(rewrite, dst, tree).1.ok
    ensures
      var code := EmitInto(rewrite, dst, tree);
      && Defines(code.0, context, p, dst, rewrite.next, code.1.next)
      && Computed(code, dst, tree, context, p)
    decreases tree, 0
  {
    hide RunSteps, Computes, Defines, EvalBinary, EvalUnary;
    ComputesNothing(context, p, rewrite.next);
    var value := EvalTree(tree, p.regs);
    match tree
    case ConstTree(constant) =>
      LeafDefines(ValueConst(dst, constant), rewrite, dst, tree, context, p);
    case RegTree(reg) =>
      LeafDefines(Get(dst, RegStorage(reg), W32, false), rewrite, dst, tree, context, p);
    case UnaryTree(operator, a) =>
      EmitRefCorrect(rewrite, a, context, p);
      UnaryDefines(operator, rewrite, dst, a, context, p);
    case BinaryTree(operator, a, b) =>
      var x := EmitRef(rewrite, a);
      OkOnlyFalls(x.rewrite, b, dst);
      EmitRefCorrect(rewrite, a, context, p);
      AfterComputing(x, a, context, p, rewrite.next);
      var middle := RunSteps(x.ops, context, p).m;
      EmitRefCorrect(x.rewrite, b, context, middle);
      BinaryDefines(operator, rewrite, dst, a, b, context, p);
  }

  lemma AfterComputing(x: Emission, a: Tree, context: Context, p: Machine, low: VarId)
    requires Computes(x.ops, context, p, low, x.rewrite.next) && Denoted(x, a, context, p) && Below(p.vars, low)
    ensures
      var middle := RunSteps(x.ops, context, p).m;
      && TrackerOk(x.rewrite.tracker, middle.vars, middle.regs) && Below(middle.vars, x.rewrite.next)
      && middle.regs == p.regs
  {
  }

  lemma LeafDefines(op: Op, rewrite: Rewrite, dst: VarId, tree: Tree, context: Context, p: Machine)
    requires TrackerOk(rewrite.tracker, p.vars, p.regs) && dst !in p.vars && dst < rewrite.next
    requires (tree.ConstTree? && op == ValueConst(dst, tree.value)) ||
             (tree.RegTree? && op == Get(dst, RegStorage(tree.reg), W32, false))
    ensures Defines([op], context, p, dst, rewrite.next, rewrite.next)
    ensures Computed(([op], rewrite), dst, tree, context, p)
  {
    ComputesNothing(context, p, rewrite.next);
    var value := EvalTree(tree, p.regs);
    assert Step(op, context, p) == Bind(p, dst, value);
    DefineLast([], op, context, p, dst, rewrite.next, rewrite.next, value);
    assert [] + [op] == [op];
    RecordOk(rewrite.tracker, p.vars, p.regs, dst, value, Known(tree, false));
  }

  lemma UnaryDefines(operator: UnaryOperator, rewrite: Rewrite, dst: VarId, a: Tree, context: Context, p: Machine)
    requires dst !in p.vars && dst < rewrite.next
    requires
      var x := EmitRef(rewrite, a);
      Computes(x.ops, context, p, rewrite.next, x.rewrite.next) && Denoted(x, a, context, p)
    ensures
      var code := EmitInto(rewrite, dst, UnaryTree(operator, a));
      && Defines(code.0, context, p, dst, rewrite.next, code.1.next)
      && Computed(code, dst, UnaryTree(operator, a), context, p)
  {
    hide RunSteps, Computes, Defines, EmitRef, EvalUnary;
    var x := EmitRef(rewrite, a);
    var value := EvalTree(UnaryTree(operator, a), p.regs);
    var middle := RunSteps(x.ops, context, p).m;
    var op := ValueUnary(dst, operator, x.ref);
    DefineLast(x.ops, op, context, p, dst, rewrite.next, x.rewrite.next, value);
    RecordOk(x.rewrite.tracker, middle.vars, p.regs, dst, value, Known(UnaryTree(operator, a), false));
  }

  lemma BinaryDefines(
      operator: BinaryOperator, rewrite: Rewrite, dst: VarId, a: Tree, b: Tree, context: Context, p: Machine)
    requires dst !in p.vars && dst < rewrite.next
    requires
      var x := EmitRef(rewrite, a);
      var y := EmitRef(x.rewrite, b);
      && Computes(x.ops, context, p, rewrite.next, x.rewrite.next) && Denoted(x, a, context, p)
      && var middle := RunSteps(x.ops, context, p).m;
         Computes(y.ops, context, middle, x.rewrite.next, y.rewrite.next) && Denoted(y, b, context, middle)
    ensures
      var code := EmitInto(rewrite, dst, BinaryTree(operator, a, b));
      && Defines(code.0, context, p, dst, rewrite.next, code.1.next)
      && Computed(code, dst, BinaryTree(operator, a, b), context, p)
  {
    hide RunSteps, Defines, EmitRef, EvalBinary;
    var x := EmitRef(rewrite, a);
    var y := EmitRef(x.rewrite, b);
    var tree := BinaryTree(operator, a, b);
    var value := EvalTree(tree, p.regs);
    var middle := RunSteps(x.ops, context, p).m;
    ComputesMore(x.ops, y.ops, context, p, rewrite.next, x.rewrite.next, y.rewrite.next);
    var end := RunSteps(x.ops + y.ops, context, p).m;
    assert Eval(x.ref, end.vars, context.nextEip) == Eval(x.ref, middle.vars, context.nextEip);
    DefineLast(x.ops + y.ops, ValueBinary(dst, operator, x.ref, y.ref), context, p, dst, rewrite.next, y.rewrite.next, value);
    RecordOk(y.rewrite.tracker, end.vars, p.regs, dst, value, Known(tree, false));
  }

  // ---------- parallel assignment ----------

  /** The registers after a list of assignments whose right-hand sides are all read from `source`. */
  function Assigned(regs: Regs, list: Materialization, source: Regs): Regs {
    if list == [] then regs
    else
      Assigned(if list[0].tree == RegTree(list[0].reg) then regs else regs[list[0].reg := EvalTree(list[0].tree, source)],
               list[1..], source)
  }

  /** The emitted writes are those of the list, each with a reference that denotes its tree's value in `source`. */
  ghost predicate SetsDenote(sets: seq<Op>, list: Materialization, vars: map<VarId, Word>, source: Regs, nextEip: Word) {
    if list == [] then sets == []
    else if list[0].tree == RegTree(list[0].reg) then SetsDenote(sets, list[1..], vars, source, nextEip)
    else
      && sets != [] && sets[0].Set? && sets[0].target == RegStorage(list[0].reg)
      && sets[0].width == W32 && sets[0].materialization
      && Eval(sets[0].value, vars, nextEip) == Some(EvalTree(list[0].tree, source))
      && SetsDenote(sets[1..], list[1..], vars, source, nextEip)
  }

  lemma {:induction false} OkOnlyFallsInRefs(rewrite: Rewrite, list: Materialization)
    ensures EmitRefs(rewrite, list).2.ok ==> rewrite.ok
    decreases list
  {
    if list != [] {
      OkOnlyFalls(rewrite, list[0].tree, 0);
      OkOnlyFallsInRefs(rewrite, list[1..]);
      OkOnlyFallsInRefs(EmitRef(rewrite, list[0].tree).rewrite, list[1..]);
    }
  }

  ghost predicate RefsComputed(refs: (seq<Op>, seq<Op>, Rewrite), list: Materialization, context: Context, p: Machine) {
    var end := RunSteps(refs.0, context, p);
    && end.Running?
    && SetsDenote(refs.1, list, end.m.vars, p.regs, context.nextEip)
    && TrackerOk(refs.2.tracker, end.m.vars, p.regs)
  }

  lemma {:induction false} EmitRefsCorrect(rewrite: Rewrite, list: Materialization, context: Context, p: Machine)
    requires TrackerOk(rewrite.tracker, p.vars, p.regs) && Below(p.vars, rewrite.next)
    requires EmitRefs(rewrite, list).2.ok
    ensures
      var refs := EmitRefs(rewrite, list);
      Computes(refs.0, context, p, rewrite.next, refs.2.next) && RefsComputed(refs, list, context, p)
    decreases list
  {
    hide RunSteps, EvalTree, EmitRef;
    if list == [] {
      ComputesNothing(context, p, rewrite.next);
    } else if list[0].tree == RegTree(list[0].reg) {
      EmitRefsCorrect(rewrite, list[1..], context, p);
    } else {
      var tree := list[0].tree;
      var here := EmitRef(rewrite, tree);
      OkOnlyFallsInRefs(here.rewrite, list[1..]);
      EmitRefCorrect(rewrite, tree, context, p);
      AfterComputing(here, tree, context, p, rewrite.next);
      var middle := RunSteps(here.ops, context, p).m;
      EmitRefsCorrect(here.rewrite, list[1..], context, middle);
      var rest := EmitRefs(here.rewrite, list[1..]);
      ComputesMore(here.ops, rest.0, context, p, rewrite.next, here.rewrite.next, rest.2.next);
      var set0 := Set(RegStorage(list[0].reg), here.ref, W32, true);
      assert ([set0] + rest.1)[1..] == rest.1;
    }
  }

  lemma {:induction false} RunSets(sets: seq<Op>, list: Materialization, context: Context, q: Machine, source: Regs)
    requires SetsDenote(sets, list, q.vars, source, context.nextEip)
    ensures RunSteps(sets, context, q) ==
            Running(q.(regs := Assigned(q.regs, list, source), committed := Assigned(q.committed, list, source)))
    decreases list
  {
    hide EvalTree;
    if list != [] {
      if list[0].tree == RegTree(list[0].reg) {
        RunSets(sets, list[1..], context, q, source);
      } else {
        var value := EvalTree(list[0].tree, source);
        var next := q.(regs := q.regs[list[0].reg := value], committed := q.committed[list[0].reg := value]);
        WriteRegister(sets[0], list[0].reg, value, context, q);
        RunSets(sets[1..], list[1..], context, next, source);
      }
    }
  }

  lemma WriteRegister(op: Op, reg: Reg, value: Word, context: Context, q: Machine)
    requires op.Set? && op.target == RegStorage(reg) && op.width == W32
    requires Eval(op.value, q.vars, context.nextEip) == Some(value)
    ensures Step(op, context, q) ==
            Running(q.(regs := q.regs[reg := value],
                    committed := if op.materialization then q.committed[reg := value] else q.committed))
  {
  }

  lemma {:induction false} AssignedAt(
      values: Values, regs: set<Reg>, order: seq<Reg>, base: Regs, source: Regs, reg: Reg)
    requires forall i, j | 0 <= i < j < |order| :: order[i] != order[j]
    ensures Assigned(base, Listed(values, regs, order), source)[reg] ==
            if reg in order && reg in regs && Overwrites(values, reg) then EvalTree(values[reg], source) else base[reg]
    decreases order
  {
    hide EvalTree;
    if order != [] {
      var first, rest := order[0], Listed(values, regs, order[1..]);
      forall i, j | 0 <= i < j < |order[1..]| ensures order[1..][i] != order[1..][j] {
        assert order[i + 1] != order[j + 1];
      }
      assert first !in order[1..];
      if first in regs && first in values {
        assert ([RegValue(first, values[first])] + rest)[1..] == rest;
        var next := if values[first] == RegTree(first) then base else base[first := EvalTree(values[first], source)];
        AssignedAt(values, regs, order[1..], next, source, reg);
      } else {
        assert Listed(values, regs, order) == rest;
        AssignedAt(values, regs, order[1..], base, source, reg);
      }
    }
  }

  lemma WrittenConcat(first: Materialization, second: Materialization)
    ensures Written(first + second) == Written(first) + Written(second)
  {
    forall value <- first + second ensures value in first || value in second {}
    assert forall value <- first :: value in first + second;
    assert forall value <- second :: value in first + second;
  }

  lemma {:induction false} WrittenListed(values: Values, regs: set<Reg>, order: seq<Reg>)
    ensures Written(Listed(values, regs, order)) == set reg <- regs | reg in order && Overwrites(values, reg)
    decreases order
  {
    if order != [] {
      WrittenListed(values, regs, order[1..]);
      var first, rest := order[0], Listed(values, regs, order[1..]);
      var here := if first in regs && first in values then [RegValue(first, values[first])] else [];
      WrittenConcat(here, rest);
      assert Written(here) == if first in regs && Overwrites(values, first) then {first} else {};
    }
  }

  lemma EveryRegisterOrdered()
    ensures forall reg: Reg :: reg in REG_ORDER
    ensures forall i, j | 0 <= i < j < |REG_ORDER| :: REG_ORDER[i] != REG_ORDER[j]
  {
    AllRegsListed();
    assert REG_ORDER[0] == EAX && REG_ORDER[1] == ECX && REG_ORDER[2] == EDX && REG_ORDER[3] == EBX;
    assert REG_ORDER[4] == ESP && REG_ORDER[5] == EBP && REG_ORDER[6] == ESI && REG_ORDER[7] == EDI;
    forall reg: Reg ensures reg in REG_ORDER { assert reg in ALL_REGS; }
  }

  /**
   Writing back the closure of a set of tracked registers is a correct parallel assignment: the written registers
   get the values they stood for, and every register, tracked or not, still stands for its original value.
   */
  lemma WriteBackIsParallelAssignment(values: Values, requested: set<Reg>, regs: Regs, physical: Regs)
    requires Denotes(values, regs, physical)
    ensures
      var closure := Closure(values, requested);
      var after := Assigned(physical, ListOf(values, requested), physical);
      && requested <= closure
      && Denotes(values - closure, regs, after)
      && (forall reg <- closure :: after[reg] == regs[reg])
      && (forall reg: Reg :: reg !in Written(ListOf(values, requested)) ==> after[reg] == physical[reg])
  {
    hide EvalTree, Closure;
    var closure := Closure(values, requested);
    ClosureIsClosed(values, requested);
    EveryRegisterOrdered();
    WrittenListed(values, closure, REG_ORDER);
    var after := Assigned(physical, ListOf(values, requested), physical);
    forall reg: Reg
      ensures after[reg] == if reg in closure && Overwrites(values, reg) then EvalTree(values[reg], physical) else physical[reg]
    {
      AssignedAt(values, closure, REG_ORDER, physical, physical, reg);
    }
    forall reg: Reg ensures
        && (reg in closure ==> after[reg] == regs[reg])
        && regs[reg] == if reg in values - closure then EvalTree((values - closure)[reg], after) else after[reg]
    {
      WrittenBack(values, closure, regs, physical, after, reg);
    }
  }

  lemma WrittenBack(values: Values, closure: set<Reg>, regs: Regs, physical: Regs, after: Regs, reg: Reg)
    requires Denotes(values, regs, physical) && Closed(values, closure)
    requires forall r: Reg ::
               after[r] == if r in closure && Overwrites(values, r) then EvalTree(values[r], physical) else physical[r]
    ensures reg in closure ==> after[reg] == regs[reg]
    ensures regs[reg] == if reg in values - closure then EvalTree((values - closure)[reg], after) else after[reg]
  {
    if reg in values {
      if reg in closure {
        assert !Overwrites(values, reg) ==> EvalTree(values[reg], physical) == physical[reg];
      } else {
        assert forall r: Reg :: UsesReg(values[reg], r) ==> after[r] == physical[r];
        TreeReadsItsRegs(values[reg], physical, after);
      }
    }
  }

  // ---------- the two programs side by side ----------

  /** Original machine `m` and propagated machine `p`, which differ only in registers, committed registers and variables. */
  ghost predicate Related(analysis: Analysis, rewrite: Rewrite, m: Machine, p: Machine, base: VarId) {
    && p == m.(regs := p.regs, committed := p.committed, vars := p.vars)
    && Denotes(analysis.values, m.regs, p.regs)
    && VarsRelated(rewrite.next, m.vars, p.vars, base)
    && TrackerOk(analysis.tracker, m.vars, p.regs)
    && TrackerOk(rewrite.tracker, p.vars, p.regs)
  }

  ghost predicate VarsRelated(next: VarId, vars: map<VarId, Word>, other: map<VarId, Word>, base: VarId) {
    && Extends(vars, other) && Below(vars, base) && base <= next
    && forall id <- other :: id in vars || base <= id < next
  }

  lemma VarsRelatedBelow(next: VarId, vars: map<VarId, Word>, other: map<VarId, Word>, base: VarId)
    requires VarsRelated(next, vars, other, base)
    ensures Below(other, next)
  {
  }

  lemma VarsRelatedMore(
      next: VarId, vars: map<VarId, Word>, other: map<VarId, Word>, base: VarId, more: map<VarId, Word>, high: VarId)
    requires VarsRelated(next, vars, other, base) && next <= high
    requires Extends(other, more) && forall id <- more :: id in other || next <= id < high
    ensures VarsRelated(high, vars, more, base)
  {
  }

  /** What a machine looks like after a materialization. */
  ghost predicate Materialized(end: Outcome, p: Machine, list: Materialization) {
    && end.Running?
    && end.m == p.(regs := Assigned(p.regs, list, p.regs), committed := Assigned(p.committed, list, p.regs),
              vars := end.m.vars)
    && Extends(p.vars, end.m.vars)
  }

  lemma RunMaterialization(rewrite: Rewrite, list: Materialization, context: Context, p: Machine)
    requires TrackerOk(rewrite.tracker, p.vars, p.regs) && Below(p.vars, rewrite.next)
    requires EmitMaterialization(rewrite, list).1.ok
    ensures
      var code := EmitMaterialization(rewrite, list);
      var end := RunSteps(code.0, context, p);
      && Materialized(end, p, list) && rewrite.next <= code.1.next
      && (forall id <- end.m.vars :: id in p.vars || rewrite.next <= id < code.1.next)
      && TrackerOk(EmitRefs(rewrite, list).2.tracker, end.m.vars, p.regs)
  {
    hide RunSteps, EmitRefs, SetsDenote, TrackerOk;
    var refs := EmitRefs(rewrite, list);
    EmitRefsCorrect(rewrite, list, context, p);
    var middle := RunSteps(refs.0, context, p).m;
    RunSets(refs.1, list, context, middle, p.regs);
    RunStepsAppend(refs.0, refs.1, context, p);
  }

  lemma MaterializeCorrect(
      analysis: Analysis, rewrite: Rewrite, requested: set<Reg>, context: Context, m: Machine, p: Machine, base: VarId)
    requires Related(analysis, rewrite, m, p, base)
    requires EmitMaterialization(rewrite, ListOf(analysis.values, requested)).1.ok
    ensures
      var list := ListOf(analysis.values, requested);
      var code := EmitMaterialization(rewrite, list);
      var end := RunSteps(code.0, context, p);
      Materialized(end, p, list) && Related(AfterMaterializing(analysis, requested), code.1, m, end.m, base)
  {
    hide RunSteps, EmitRefs, TrackerOk, Denotes, VarsRelated, Closure, ListOf, MarkStale, Written, Below, Extends;
    var list := ListOf(analysis.values, requested);
    var code := EmitMaterialization(rewrite, list);
    VarsRelatedBelow(rewrite.next, m.vars, p.vars, base);
    RunMaterialization(rewrite, list, context, p);
    var end := RunSteps(code.0, context, p).m;
    VarsRelatedMore(rewrite.next, m.vars, p.vars, base, end.vars, code.1.next);
    WriteBackIsParallelAssignment(analysis.values, requested, m.regs, p.regs);
    StaleOk(analysis.tracker, m.vars, p.regs, end.regs, Written(list));
    StaleOk(EmitRefs(rewrite, list).2.tracker, end.vars, p.regs, end.regs, Written(list));
  }

  lemma OkOnlyFallsInMaterialization(rewrite: Rewrite, list: Materialization)
    ensures EmitMaterialization(rewrite, list).1.ok ==> rewrite.ok
  {
    OkOnlyFallsInRefs(rewrite, list);
  }

  lemma {:induction false} OkOnlyFallsInMaterializations(rewrite: Rewrite, lists: seq<Materialization>)
    ensures EmitMaterializations(rewrite, lists).1.ok ==> rewrite.ok
    decreases lists
  {
    if lists != [] {
      OkOnlyFallsInMaterialization(rewrite, lists[0]);
      OkOnlyFallsInMaterializations(EmitMaterialization(rewrite, lists[0]).1, lists[1..]);
    }
  }

  lemma OkOnlyFallsInAction(rewrite: Rewrite, action: Action, op: Op, context: Context)
    ensures EmitAction(rewrite, action, op, context).1.ok ==> rewrite.ok
  {
    if action.Assign? && Dst(op).Some? { OkOnlyFalls(rewrite, action.tree, Dst(op).value); }
  }

  // ---------- single operations ----------

  /** The propagated outcome matches the original one, and after a normal step the machines stay related. */
  ghost predicate Matches(o: Outcome, q: Outcome, analysis: Analysis, rewrite: Rewrite, base: VarId) {
    match o
    case Running(n) => q.Running? && Related(analysis, rewrite, n, q.m, base)
    case Completed(n) =>
      && q.Completed? && q.m == n.(regs := q.m.regs, committed := q.m.committed, vars := q.m.vars)
      && Denotes(analysis.values, n.regs, q.m.regs)
    case _ => q == o
  }

  ghost predicate DefinesFresh(op: Op, vars: map<VarId, Word>, base: VarId) {
    Dst(op).Some? ==> Dst(op).value !in vars && Dst(op).value < base
  }

  predicate TouchesStorage(op: Op) {
    op.Get? || op.Set? || op.SetIf? || op.Address?
  }

  function Reregister(m: Machine, regs: Regs, committed: Regs): Machine {
    m.(regs := regs, committed := committed)
  }

  lemma PureIgnoresRegisters(op: Op, context: Context, m: Machine, regs: Regs, committed: Regs)
    requires !op.Address?
    ensures PureResult(op, context, Reregister(m, regs, committed)) == PureResult(op, context, m)
  {
    hide Eval, EvalInputs, EvalBinary, EvalUnary, Conditions.Condition, DirectConditions.Decide, DirectConditions.ConditionKind;
  }

  function Reregistered(outcome: Outcome, regs: Regs, committed: Regs): Outcome {
    match outcome
    case Running(n) => Running(Reregister(n, regs, committed))
    case Completed(n) => Completed(Reregister(n, regs, committed))
    case other => other
  }

  lemma ControlIgnoresRegisters(op: Op, context: Context, m: Machine, regs: Regs, committed: Regs)
    requires IsExit(op, context) ==> regs == m.regs
    ensures StepControl(op, context, Reregister(m, regs, committed)) == Reregistered(StepControl(op, context, m), regs, committed)
    ensures !StepControl(op, context, m).Running? && !StepControl(op, context, m).Fault?
  {
    hide Eval;
  }

  lemma StepIgnoresRegisters(op: Op, context: Context, m: Machine, regs: Regs, committed: Regs)
    requires !TouchesStorage(op) && (IsExit(op, context) ==> regs == m.regs)
    ensures Step(op, context, Reregister(m, regs, committed)) == Reregistered(Step(op, context, m), regs, committed)
    ensures Step(op, context, m).Running? ==> Step(op, context, m).m.regs == m.regs
    ensures !Step(op, context, m).Fault?
  {
    hide Step, Reregister;
    if IsTerminator(op) {
      ControlStep(op, context, m);
      ControlStep(op, context, Reregister(m, regs, committed));
      ControlIgnoresRegisters(op, context, m, regs, committed);
    } else if op.FlagsSet? || op.FlagsMaterialize? || op.FlagsBoundary? {
      FlagsIgnoreRegisters(op, context, m, regs, committed);
    } else {
      PureStepIgnoresRegisters(op, context, m, regs, committed);
    }
  }

  lemma ControlStep(op: Op, context: Context, m: Machine)
    requires IsTerminator(op)
    ensures Step(op, context, m) == StepControl(op, context, m)
  {
    hide StepControl;
  }

  lemma FlagsIgnoreRegisters(op: Op, context: Context, m: Machine, regs: Regs, committed: Regs)
    requires op.FlagsSet? || op.FlagsMaterialize? || op.FlagsBoundary?
    ensures Step(op, context, Reregister(m, regs, committed)) == Reregistered(Step(op, context, m), regs, committed)
    ensures Step(op, context, m).Running? ==> Step(op, context, m).m.regs == m.regs
    ensures !Step(op, context, m).Fault?
  {
    hide EvalInputs, SetFlags, PureResult, StepControl, StepGet, StepWrite, Eval;
  }

  lemma PureStepIgnoresRegisters(op: Op, context: Context, m: Machine, regs: Regs, committed: Regs)
    requires !TouchesStorage(op) && !IsTerminator(op) && !op.FlagsSet? && !op.FlagsMaterialize? && !op.FlagsBoundary?
    ensures Step(op, context, Reregister(m, regs, committed)) == Reregistered(Step(op, context, m), regs, committed)
    ensures Step(op, context, m).Running? ==> Step(op, context, m).m.regs == m.regs
    ensures !Step(op, context, m).Fault?
  {
    hide EvalInputs, SetFlags, PureResult, StepControl, StepGet, StepWrite, Eval;
    PureIgnoresRegisters(op, context, m, regs, committed);
  }

  /** Define the same variable with the same value on both sides. */
  lemma DefineBoth(next: VarId, vars: map<VarId, Word>, other: map<VarId, Word>, base: VarId, dst: VarId, value: Word)
    requires VarsRelated(next, vars, other, base) && dst !in vars && dst < base
    ensures VarsRelated(next, vars[dst := value], other[dst := value], base) && dst !in other
  {
  }

  lemma RecordPure(
      tracker: Tracker, op: Op, context: Context, values: Values, m: Machine, physical: Regs, value: Word)
    requires TrackerOk(tracker, m.vars, physical) && !TouchesStorage(op) && Dst(op).Some? && Dst(op).value !in m.vars
    requires PureResult(op, context, m) == Some(value)
    ensures TrackerOk(RecordOp(tracker, op, context, values), m.vars[Dst(op).value := value], physical)
  {
    hide EvalBinary, EvalUnary, Conditions.Condition, EvalInputs, DirectConditions.Decide, TrackerOk, Record;
    var dst := Dst(op).value;
    if op.ValueConst? {
      RecordOk(tracker, m.vars, physical, dst, value, Known(ConstTree(op.constant), false));
    } else if op.ValueBinary? {
      ValueForOk(tracker, m.vars, physical, op.a, context.nextEip);
      ValueForOk(tracker, m.vars, physical, op.b, context.nextEip);
      var x, y := ValueFor(tracker, op.a), ValueFor(tracker, op.b);
      RecordOk(tracker, m.vars, physical, dst, value,
               if x.Known? && y.Known? then Known(BinaryTree(op.binary, x.tree, y.tree), x.stale || y.stale) else Unknown);
    } else if op.ValueUnary? {
      ValueForOk(tracker, m.vars, physical, op.a, context.nextEip);
      var x := ValueFor(tracker, op.a);
      RecordOk(tracker, m.vars, physical, dst, value,
               if x.Known? then Known(UnaryTree(op.unary, x.tree), x.stale) else Unknown);
    } else {
      DefineOk(tracker, m.vars, physical, dst, value);
    }
  }

  lemma MarkNothing(tracker: Tracker)
    ensures MarkStale(tracker, {}) == tracker
  {
  }

  lemma WritesNothing(op: Op, context: Context)
    requires !op.Set? && !op.SetIf?
    ensures Writes(op, context) == {}
  {
  }

  /** An operation on variables and flags is simply copied. */
  /** A plain operation does the same on both sides: it binds its variable to the same value and keeps the registers. */
  lemma PlainStepBoth(op: Op, context: Context, m: Machine, p: Machine)
    requires p == m.(regs := p.regs, committed := p.committed, vars := p.vars) && AgreeOn(m.vars, p.vars, Uses(op))
    requires !TouchesStorage(op) && !IsTerminator(op) && Step(op, context, m) != Stuck
    ensures Step(op, context, m).Running? && Step(op, context, p).Running?
    ensures
      var n, q := Step(op, context, m).m, Step(op, context, p).m;
      && n.regs == m.regs && q.regs == p.regs
      && q == n.(regs := q.regs, committed := q.committed, vars := q.vars)
      && if Dst(op).Some?
         then Dst(op).value in n.vars && n.vars == m.vars[Dst(op).value := n.vars[Dst(op).value]] &&
              q.vars == p.vars[Dst(op).value := n.vars[Dst(op).value]]
         else n.vars == m.vars && q.vars == p.vars
  {
    hide Uses, Step, AgreeOn;
    PlainRuns(op, context, m);
    StepReadsItsUses(op, context, m, p.vars);
    StepIgnoresRegisters(op, context, m.(vars := p.vars), p.regs, p.committed);
    assert p == Reregister(m.(vars := p.vars), p.regs, p.committed);
    StepDefinesItsDst(op, context, m);
  }

  lemma CopyPlain(op: Op, context: Context, analysis: Analysis, rewrite: Rewrite, m: Machine, p: Machine, base: VarId)
    requires Related(analysis, rewrite, m, p, base) && DefinesFresh(op, m.vars, base)
    requires !TouchesStorage(op) && !IsTerminator(op) && Step(op, context, m) != Stuck
    ensures
      var after := analysis.(tracker := RecordOp(analysis.tracker, op, context, analysis.values));
      var code := EmitAction(rewrite, Copy, op, context);
      Matches(Step(op, context, m), Step(op, context, p), after, code.1, base)
  {
    hide EvalInputs, SetFlags, TrackerOk, Denotes, VarsRelated, PureResult, RecordOp, Uses, MarkStale, Step, Writes;
    VarsRelatedAgree(rewrite.next, m.vars, p.vars, base, Uses(op));
    PlainStepBoth(op, context, m, p);
    WritesNothing(op, context);
    MarkNothing(RecordOp(rewrite.tracker, op, context, map[]));
    if Dst(op).Some? {
      var dst := Dst(op).value;
      var value := Step(op, context, m).m.vars[dst];
      DefineBoth(rewrite.next, m.vars, p.vars, base, dst, value);
      PureStep(op, context, m, value);
      PureStep(op, context, p, value);
      RecordPure(analysis.tracker, op, context, analysis.values, m, p.regs, value);
      RecordPure(rewrite.tracker, op, context, map[], p, p.regs, value);
    } else {
      RecordsNothing(op, context, analysis.tracker, analysis.values);
      RecordsNothing(op, context, rewrite.tracker, map[]);
    }
  }

  lemma VarsRelatedAgree(next: VarId, vars: map<VarId, Word>, other: map<VarId, Word>, base: VarId, used: set<VarId>)
    requires VarsRelated(next, vars, other, base)
    ensures AgreeOn(vars, other, used)
  {
  }

  lemma PlainRuns(op: Op, context: Context, m: Machine)
    requires !TouchesStorage(op) && !IsTerminator(op) && Step(op, context, m) != Stuck
    ensures Step(op, context, m).Running? && Step(op, context, m).m.regs == m.regs
  {
    hide EvalInputs, SetFlags, PureResult;
  }

  lemma PureStep(op: Op, context: Context, m: Machine, value: Word)
    requires !TouchesStorage(op) && Dst(op).Some? && Step(op, context, m).Running?
    requires Dst(op).value in Step(op, context, m).m.vars && Step(op, context, m).m.vars[Dst(op).value] == value
    ensures PureResult(op, context, m) == Some(value)
  {
    hide PureResult;
  }

  lemma RecordsNothing(op: Op, context: Context, tracker: Tracker, values: Values)
    requires Dst(op).None?
    ensures RecordOp(tracker, op, context, values) == tracker
  {
  }

  // ---------- operations on storage ----------

  /** Only whole registers are read and written. */
  predicate Whole(storage: Storage, width: Width, context: Context) {
    match storage
    case Mem(_) => true
    case RegStorage(_) => width == W32
    case Operand(index) =>
      index < |context.operands| ==>
        match context.operands[index]
        case RegBinding(alias) => alias.width == W32 && width == W32
        case RelTarget(_) => width == W32
        case _ => true
  }

  predicate WholeAccess(op: Op, context: Context) {
    match op
    case Get(_, source, width, _) => Whole(source, width, context)
    case Set(target, _, width, _) => Whole(target, width, context)
    case SetIf(_, target, _, width) => Whole(target, width, context)
    case _ => true
  }

  lemma WholeRead(op: Op, reg: Reg, context: Context, m: Machine)
    requires op.Get? && WholeAccess(op, context) && RegisterOf(op.source, context) == Some(reg)
    ensures Step(op, context, m) == Bind(m, op.dst, m.regs[reg])
  {
  }

  predicate OthersSame(regs: Regs, after: Regs, reg: Reg) {
    forall r: Reg :: r != reg ==> after[r] == regs[r]
  }

  function Put(m: Machine, reg: Reg, value: Word, commits: bool): (n: Machine)
    ensures n.regs[reg] == value && OthersSame(m.regs, n.regs, reg)
    ensures n.regs == m.regs[reg := value] && n == m.(regs := n.regs, committed := n.committed)
  {
    m.(regs := m.regs[reg := value], committed := if commits then m.committed[reg := value] else m.committed)
  }

  lemma WholePlace(target: Storage, width: Width, reg: Reg, context: Context, m: Machine)
    requires Whole(target, width, context) && RegisterOf(target, context) == Some(reg)
    ensures
      var place := PlaceOf(target, width, context, m);
      place.RegPlace? && place.alias.base == reg && place.alias.width == W32 && place.access == W32 && width == W32
  {
    hide EffectiveAddress;
  }

  lemma WholeStepWrite(target: Storage, value: Word, width: Width, commits: bool, reg: Reg, context: Context, m: Machine)
    requires Whole(target, width, context) && RegisterOf(target, context) == Some(reg)
    ensures StepWrite(target, value, width, commits, context, m) == Running(Put(m, reg, value, commits))
  {
    hide WriteMemory, WriteField, InBounds, FaultAt, ReadField, PlaceOf, Whole, RegisterOf;
    WholePlace(target, width, reg, context, m);
  }

  lemma WholeWrite(op: Op, reg: Reg, context: Context, m: Machine)
    requires op.Set? && WholeAccess(op, context) && RegisterOf(op.target, context) == Some(reg)
    ensures
      var value := Eval(op.value, m.vars, context.nextEip);
      Step(op, context, m) ==
      if value.None? then Stuck
      else Running(Put(m, reg, value.value, op.materialization))
  {
    hide StepWrite, StepGet, StepControl, PureResult, SetFlags, EvalInputs, Eval, RegisterOf, Whole, Put;
    var value := Eval(op.value, m.vars, context.nextEip);
    if value.Some? { WholeStepWrite(op.target, value.value, op.width, op.materialization, reg, context, m); }
  }

  /** Reading a tracked register: its tree is computed instead. */
  lemma FoldRead(op: Op, dst: VarId, tree: Tree, value: Word, context: Context, analysis: Analysis, after: Tracker,
                 rewrite: Rewrite, m: Machine, p: Machine, base: VarId)
    requires Related(analysis, rewrite, m, p, base) && DefinesFresh(op, m.vars, base) && Dst(op) == Some(dst)
    requires Step(op, context, m) == Bind(m, dst, value) && value == EvalTree(tree, p.regs)
    requires after == Record(analysis.tracker, dst, Known(tree, false))
    requires EmitAction(rewrite, Assign(tree), op, context).1.ok
    ensures
      var code := EmitAction(rewrite, Assign(tree), op, context);
      Matches(Step(op, context, m), RunSteps(code.0, context, p), analysis.(tracker := after), code.1, base)
      && (RunSteps(code.0, context, p).Running? ==> RunSteps(code.0, context, p).m.committed == p.committed)
  {
    hide TrackerOk, Denotes, RunSteps, EvalTree, Record, Step;
    VarsRelatedBelow(rewrite.next, m.vars, p.vars, base);
    DefineBoth(rewrite.next, m.vars, p.vars, base, dst, value);
    EmitIntoCorrect(rewrite, dst, tree, context, p);
    var end := RunSteps(EmitInto(rewrite, dst, tree).0, context, p).m;
    RecordOk(analysis.tracker, m.vars, p.regs, dst, value, Known(tree, false));
    FoldVars(rewrite.next, m.vars, p.vars, base, dst, value, end.vars, EmitInto(rewrite, dst, tree).1.next);
  }

  lemma FoldVars(
      next: VarId, vars: map<VarId, Word>, other: map<VarId, Word>, base: VarId, dst: VarId, value: Word,
      after: map<VarId, Word>, high: VarId)
    requires VarsRelated(next, vars, other, base) && dst < base && next <= high
    requires Extends(other, after) && dst in after && after[dst] == value
    requires forall id <- after :: id in other || id == dst || next <= id < high
    requires dst !in vars
    ensures VarsRelated(high, vars[dst := value], after, base)
  {
  }

  /** Copying an operation that defines the same variable with the same known value on both sides. */
  lemma CopyRead(op: Op, dst: VarId, value: Word, known: Known, other: Known, context: Context, analysis: Analysis,
                 rewrite: Rewrite, m: Machine, p: Machine, base: VarId)
    requires Related(analysis, rewrite, m, p, base) && DefinesFresh(op, m.vars, base) && Dst(op) == Some(dst)
    requires Step(op, context, m) == Bind(m, dst, value) && Step(op, context, p) == Bind(p, dst, value)
    requires known.Known? && !known.stale ==> value == EvalTree(known.tree, p.regs)
    requires other.Known? && !other.stale ==> value == EvalTree(other.tree, p.regs)
    requires RecordOp(rewrite.tracker, op, context, map[]) == Record(rewrite.tracker, dst, other)
    ensures
      var code := EmitAction(rewrite, Copy, op, context);
      Matches(Step(op, context, m), Step(op, context, p),
              analysis.(tracker := Record(analysis.tracker, dst, known)), code.1, base)
  {
    hide TrackerOk, Denotes, EvalTree, Record, Step, MarkStale, RecordOp;
    DefineBoth(rewrite.next, m.vars, p.vars, base, dst, value);
    RecordOk(analysis.tracker, m.vars, p.regs, dst, value, known);
    RecordOk(rewrite.tracker, p.vars, p.regs, dst, value, other);
    WritesNothing(op, context);
    MarkNothing(Record(rewrite.tracker, dst, other));
  }

  /** Both machines would expose the same registers at a fault. */
  ghost predicate SameExposed(m: Machine, p: Machine) {
    p.committed == m.committed
  }

  lemma MemoryStep(op: Op, context: Context, m: Machine)
    requires CanFault(op, context.operands) && Step(op, context, m) != Stuck
    ensures
      var step := Step(op, context, m);
      && (step.Running? || step.Fault?)
      && (step.Running? ==> step.m.regs == m.regs && step.m.committed == m.committed)
  {
    hide WriteMemory, ReadMemory, Mask32, Extended;
  }

  lemma SameEffectiveAddress(ea: MemOperand, regs: Regs, other: Regs)
    requires ea.base.Some? ==> other[ea.base.value] == regs[ea.base.value]
    requires ea.index.Some? ==> other[ea.index.value] == regs[ea.index.value]
    ensures EffectiveAddress(ea, other) == EffectiveAddress(ea, regs)
  {
  }

  /** An access to memory depends on the registers only through the address. */
  lemma MemoryPlace(op: Op, storage: Storage, width: Width, context: Context, m: Machine, regs: Regs)
    requires AccessedStorage(op) == Some(storage) && IsMemory(storage, context.operands)
    requires forall reg <- AddressRegs(op, context) :: regs[reg] == m.regs[reg]
    ensures PlaceOf(storage, width, context, m.(regs := regs)) == PlaceOf(storage, width, context, m)
    ensures PlaceOf(storage, width, context, m).MemPlace? || PlaceOf(storage, width, context, m).NoPlace?
  {
    hide EffectiveAddress;
    if storage.Operand? {
      SameEffectiveAddress(context.operands[storage.index].ea, m.regs, regs);
    }
  }

  lemma MemoryIgnoresRegisters(op: Op, context: Context, m: Machine, regs: Regs)
    requires CanFault(op, context.operands) && Step(op, context, m) != Stuck
    requires forall reg <- AddressRegs(op, context) :: regs[reg] == m.regs[reg]
    ensures Step(op, context, m.(regs := regs)) ==
            match Step(op, context, m) case Running(n) => Running(n.(regs := regs)) case other => other
  {
    hide WriteMemory, ReadMemory, Mask32, Extended, PlaceOf, AddressRegs, Eval;
    var storage := AccessedStorage(op).value;
    MemoryPlace(op, storage, op.width, context, m, regs);
  }

  lemma AddressAgrees(op: Op, context: Context, values: Values, regs: Regs, physical: Regs)
    requires Denotes(values, regs, physical) && AddressUntracked(op, context, values)
    ensures forall reg <- AddressRegs(op, context) :: physical[reg] == regs[reg]
  {
  }

  lemma MemoryRecords(op: Op, context: Context, tracker: Tracker, values: Values)
    requires CanFault(op, context.operands)
    ensures RecordOp(tracker, op, context, values) == if Dst(op).Some? then Record(tracker, Dst(op).value, Unknown) else tracker
    ensures Writes(op, context) == {}
  {
  }

  lemma ForgetBoth(tracker: Tracker, vars: map<VarId, Word>, after: map<VarId, Word>, regs: Regs, dst: Option<VarId>)
    requires TrackerOk(tracker, vars, regs)
    requires if dst.Some? then dst.value in after && after == vars[dst.value := after[dst.value]] else after == vars
    ensures TrackerOk(if dst.Some? then Record(tracker, dst.value, Unknown) else tracker, after, regs)
  {
    if dst.Some? { RecordOk(tracker, vars, regs, dst.value, after[dst.value], Unknown); }
  }

  lemma MemoryRelated(
      op: Op, context: Context, analysis: Analysis, rewrite: Rewrite, m: Machine, p: Machine, n: Machine, q: Machine,
      base: VarId)
    requires Related(analysis, rewrite, m, p, base) && DefinesFresh(op, m.vars, base)
    requires CanFault(op, context.operands) && n.regs == m.regs && q == n.(regs := p.regs, vars := q.vars)
    requires if Dst(op).Some? then
               && Dst(op).value in n.vars && n.vars == m.vars[Dst(op).value := n.vars[Dst(op).value]]
               && q.vars == p.vars[Dst(op).value := n.vars[Dst(op).value]]
             else n.vars == m.vars && q.vars == p.vars
    ensures
      var after := analysis.(tracker := RecordOp(analysis.tracker, op, context, analysis.values));
      Related(after, EmitAction(rewrite, Copy, op, context).1, n, q, base)
  {
    hide TrackerOk, VarsRelated, RecordOp, MarkStale, Record, CanFault, Writes, Dst, EvalTree, Denotes;
    MemoryRecords(op, context, analysis.tracker, analysis.values);
    MemoryRecords(op, context, rewrite.tracker, map[]);
    MarkNothing(RecordOp(rewrite.tracker, op, context, map[]));
    ForgetBoth(analysis.tracker, m.vars, n.vars, p.regs, Dst(op));
    ForgetBoth(rewrite.tracker, p.vars, q.vars, p.regs, Dst(op));
    if Dst(op).Some? {
      DefineBoth(rewrite.next, m.vars, p.vars, base, Dst(op).value, n.vars[Dst(op).value]);
    }
  }

  /** The copied access does the same: the same access or the same fault, exposing the same registers. */
  lemma MemoryBoth(op: Op, context: Context, m: Machine, p: Machine)
    requires p == m.(regs := p.regs, vars := p.vars) && AgreeOn(m.vars, p.vars, Uses(op))
    requires CanFault(op, context.operands) && Step(op, context, m) != Stuck
    requires forall reg <- AddressRegs(op, context) :: p.regs[reg] == m.regs[reg]
    ensures
      match Step(op, context, m)
      case Running(n) =>
        && n.regs == m.regs && n.committed == m.committed && Step(op, context, p).Running?
        && var q := Step(op, context, p).m;
           && q == n.(regs := p.regs, vars := q.vars)
           && if Dst(op).Some? then
                && Dst(op).value in n.vars && n.vars == m.vars[Dst(op).value := n.vars[Dst(op).value]]
                && q.vars == p.vars[Dst(op).value := n.vars[Dst(op).value]]
              else n.vars == m.vars && q.vars == p.vars
      case other => Step(op, context, p) == other && other.Fault?
  {
    hide Uses, Step, CanFault, AddressRegs, AgreeOn, Dst;
    MemoryStep(op, context, m);
    StepReadsItsUses(op, context, m, p.vars);
    MemoryIgnoresRegisters(op, context, m.(vars := p.vars), p.regs);
    assert p == m.(vars := p.vars).(regs := p.regs);
    if Step(op, context, m).Running? { StepDefinesItsDst(op, context, m); }
  }

  /** An access to guest memory is copied. */
  lemma CopyMemory(op: Op, context: Context, analysis: Analysis, rewrite: Rewrite, m: Machine, p: Machine, base: VarId)
    requires Related(analysis, rewrite, m, p, base) && DefinesFresh(op, m.vars, base)
    requires CanFault(op, context.operands) && Step(op, context, m) != Stuck
    requires SameExposed(m, p) && AddressUntracked(op, context, analysis.values)
    ensures
      var after := analysis.(tracker := RecordOp(analysis.tracker, op, context, analysis.values));
      var code := EmitAction(rewrite, Copy, op, context);
      Matches(Step(op, context, m), Step(op, context, p), after, code.1, base)
      && (Step(op, context, m).Running? ==> SameExposed(Step(op, context, m).m, Step(op, context, p).m))
  {
    hide TrackerOk, VarsRelated, RecordOp, Uses, Step, CanFault, EmitAction, Denotes, AddressRegs, AddressUntracked, Dst;
    VarsRelatedAgree(rewrite.next, m.vars, p.vars, base, Uses(op));
    AddressAgrees(op, context, analysis.values, m.regs, p.regs);
    MemoryBoth(op, context, m, p);
    var step := Step(op, context, m);
    if step.Running? {
      MemoryRelated(op, context, analysis, rewrite, m, p, step.m, Step(op, context, p).m, base);
    }
  }

  lemma JustEmits(rewrite: Rewrite, action: Action, op: Op, context: Context)
    ensures EmitOp(rewrite, Just(action), op, context) == EmitAction(rewrite, action, op, context)
  {
    var code := EmitAction(rewrite, action, op, context);
    EmitNothing(rewrite);
    EmitNothing(code.1);
    assert [] + code.0 + [] == code.0;
    assert [] + [] + code.0 == code.0;
  }

  lemma EmitNothing(rewrite: Rewrite)
    ensures EmitMaterialization(rewrite, []) == ([], rewrite)
    ensures EmitMaterializations(rewrite, []) == ([], rewrite)
  {
    MarkNothing(rewrite.tracker);
    var refs := EmitRefs(rewrite, []);
    assert refs.0 + refs.1 == [];
    assert Written([]) == {};
  }

  lemma OneListEmits(rewrite: Rewrite, list: Materialization, op: Op, context: Context)
    requires !IsTerminator(op)
    ensures
      var before := EmitMaterialization(rewrite, list);
      var code := EmitAction(before.1, Copy, op, context);
      && EmitMaterializations(rewrite, [list]) == before
      && EmitOp(rewrite, Decision([list], Copy, []), op, context) == (before.0 + [op], code.1)
  {
    var before := EmitMaterialization(rewrite, list);
    var code := EmitAction(before.1, Copy, op, context);
    OneMaterialization(rewrite, list);
    EmitNothing(code.1);
    assert before.0 + [op] + [] == before.0 + [op];
  }

  lemma OneMaterialization(rewrite: Rewrite, list: Materialization)
    ensures EmitMaterializations(rewrite, [list]) == EmitMaterialization(rewrite, list)
  {
    hide EmitMaterialization;
    var here := EmitMaterialization(rewrite, list);
    assert [list][1..] == [];
    assert here.0 + [] == here.0;
  }

  lemma RunOne(op: Op, context: Context, m: Machine)
    ensures RunSteps([op], context, m) == Step(op, context, m)
  {
    hide Step;
    var step := Step(op, context, m);
    if step.Running? { assert RunSteps([], context, step.m) == step; }
  }

  // ---------- reads ----------

  /** What a decision for one operation must achieve. */
  ghost predicate Achieves(
      r: (Decision, Analysis), op: Op, context: Context, analysis: Analysis, rewrite: Rewrite, m: Machine, p: Machine,
      base: VarId)
  {
    var code := EmitOp(rewrite, r.0, op, context);
    && Matches(Step(op, context, m), RunSteps(code.0, context, p), r.1, code.1, base)
    && (SameExposed(m, p) && WritesNothingBack(r.0.before) && Step(op, context, m).Running? ==>
        SameExposed(Step(op, context, m).m, RunSteps(code.0, context, p).m))
  }

  lemma AchievesByCopy(
      after: Analysis, op: Op, context: Context, analysis: Analysis, rewrite: Rewrite, m: Machine, p: Machine, base: VarId)
    requires Matches(Step(op, context, m), Step(op, context, p), after, EmitAction(rewrite, Copy, op, context).1, base)
    requires SameExposed(m, p) && Step(op, context, m).Running? ==>
               SameExposed(Step(op, context, m).m, Step(op, context, p).m)
    ensures Achieves((Just(Copy), after), op, context, analysis, rewrite, m, p, base)
  {
    hide Step, Matches, SameExposed;
    JustEmits(rewrite, Copy, op, context);
    RunOne(op, context, p);
  }

  lemma DenotesRegister(values: Values, regs: Regs, physical: Regs, reg: Reg)
    requires Denotes(values, regs, physical)
    ensures EvalTree(RegisterValue(values, reg), physical) == regs[reg]
    ensures reg !in values ==> physical[reg] == regs[reg]
  {
  }

  lemma DenotesItself(regs: Regs)
    ensures Denotes(map[], regs, regs)
  {
  }

  lemma GetRegister(
      op: Op, reg: Reg, context: Context, analysis: Analysis, rewrite: Rewrite, m: Machine, p: Machine, base: VarId)
    requires op.Get? && RegisterOf(op.source, context) == Some(reg) && WholeAccess(op, context)
    requires Related(analysis, rewrite, m, p, base) && DefinesFresh(op, m.vars, base)
    requires EmitOp(rewrite, AnalyzeRead(analysis, op, context).0, op, context).1.ok
    ensures Achieves(AnalyzeRead(analysis, op, context), op, context, analysis, rewrite, m, p, base)
  {
    hide TrackerOk, VarsRelated, Record, Step, EvalTree, EmitOp, EmitAction, Denotes, WholeAccess, Related, RunSteps;
    RelatedParts(analysis, rewrite, m, p, base);
    var tree := RegisterValue(analysis.values, reg);
    var after := analysis.(tracker := Record(analysis.tracker, op.dst, Known(tree, false)));
    WholeRead(op, reg, context, m);
    WholeRead(op, reg, context, p);
    DenotesRegister(analysis.values, m.regs, p.regs, reg);
    if reg in analysis.values {
      JustEmits(rewrite, Assign(tree), op, context);
      FoldRead(op, op.dst, tree, m.regs[reg], context, analysis, after.tracker, rewrite, m, p, base);
    } else {
      DenotesItself(p.regs);
      DenotesRegister(map[], p.regs, p.regs, reg);
      CopyRead(op, op.dst, m.regs[reg], Known(tree, false), Known(RegTree(reg), false), context, analysis, rewrite, m, p, base);
      AchievesByCopy(after, op, context, analysis, rewrite, m, p, base);
    }
  }

  lemma ConstantRead(op: Op, context: Context, values: Values, m: Machine)
    requires op.Get? && RegisterOf(op.source, context).None? && WholeAccess(op, context)
    requires !CanFault(op, context.operands) && Step(op, context, m) != Stuck
    ensures
      var known := ValueForGet(op, context, values);
      known.Known? && !known.stale && known.tree.ConstTree? && Step(op, context, m) == Bind(m, op.dst, known.tree.value)
    ensures ValueForGet(op, context, values) == ValueForGet(op, context, map[])
  {
    hide SignExtend;
  }

  lemma GetCorrect(
      op: Op, context: Context, analysis: Analysis, rewrite: Rewrite, m: Machine, p: Machine, base: VarId)
    requires op.Get? && WholeAccess(op, context) && Step(op, context, m) != Stuck
    requires Related(analysis, rewrite, m, p, base) && DefinesFresh(op, m.vars, base)
    requires CanFault(op, context.operands) ==> SameExposed(m, p) && AddressUntracked(op, context, analysis.values)
    requires EmitOp(rewrite, AnalyzeRead(analysis, op, context).0, op, context).1.ok
    ensures Achieves(AnalyzeRead(analysis, op, context), op, context, analysis, rewrite, m, p, base)
  {
    hide TrackerOk, VarsRelated, Record, Step, EmitAction, Matches, Denotes, WholeAccess, CanFault, ValueForGet;
    var reg := RegisterOf(op.source, context);
    if reg.Some? {
      GetRegister(op, reg.value, context, analysis, rewrite, m, p, base);
    } else {
      var after := analysis.(tracker := RecordOp(analysis.tracker, op, context, analysis.values));
      if CanFault(op, context.operands) {
        CopyMemory(op, context, analysis, rewrite, m, p, base);
      } else {
        var known, other := ValueForGet(op, context, analysis.values), ValueForGet(op, context, map[]);
        ConstantRead(op, context, analysis.values, m);
        ConstantStep(op, context, m, p);
        ConstEval(known.tree.value, p.regs);
        CopyRead(op, op.dst, known.tree.value, known, other, context, analysis, rewrite, m, p, base);
      }
      AchievesByCopy(after, op, context, analysis, rewrite, m, p, base);
    }
  }

  lemma ConstantStep(op: Op, context: Context, m: Machine, p: Machine)
    requires op.Get? && RegisterOf(op.source, context).None? && WholeAccess(op, context)
    requires !CanFault(op, context.operands) && Step(op, context, m) != Stuck
    ensures Step(op, context, p) != Stuck
    ensures
      var known := ValueForGet(op, context, map[]);
      known.Known? && known.tree.ConstTree? && Step(op, context, p) == Bind(p, op.dst, known.tree.value)
  {
    ConstantReadAny(op, context, m, p);
    ConstantRead(op, context, map[], p);
  }

  lemma ConstantReadAny(op: Op, context: Context, m: Machine, p: Machine)
    requires op.Get? && RegisterOf(op.source, context).None? && !CanFault(op, context.operands)
    requires Step(op, context, m) != Stuck
    ensures Step(op, context, p) != Stuck
  {
    hide SignExtend;
  }

  lemma WrapTwice(x: int, y: int)
    ensures U32(U32(x) + y) == U32(x + y)
  {
  }

  lemma SumOfOne(a: Tree, regs: Regs)
    ensures EvalTree(Sum([a]), regs) == EvalTree(a, regs)
  {
  }

  lemma SumOfTwo(a: Tree, b: Tree, regs: Regs)
    ensures EvalTree(Sum([a, b]), regs) == U32(EvalTree(a, regs) + EvalTree(b, regs))
  {
    assert [a, b][..1] == [a];
    SumOfOne(a, regs);
  }

  lemma SumOfLast(terms: seq<Tree>, last: Tree, regs: Regs)
    requires terms != []
    ensures EvalTree(Sum(terms + [last]), regs) == U32(EvalTree(Sum(terms), regs) + EvalTree(last, regs))
  {
    assert (terms + [last])[..|terms|] == terms;
  }

  lemma SumOfThree(a: Tree, b: Tree, c: Tree, regs: Regs)
    ensures EvalTree(Sum([a, b, c]), regs) == U32(EvalTree(a, regs) + EvalTree(b, regs) + EvalTree(c, regs))
  {
    hide U32, Sum, EvalTree;
    assert [a, b] + [c] == [a, b, c];
    SumOfLast([a, b], c, regs);
    SumOfTwo(a, b, regs);
    WrapTwice(EvalTree(a, regs) + EvalTree(b, regs), EvalTree(c, regs));
  }

  /** The tree of an address denotes the effective address. */
  lemma AddressTree(ea: MemOperand, values: Values, regs: Regs, physical: Regs)
    requires Denotes(values, regs, physical) && (ea.index.Some? ==> ea.scale == 1)
    ensures EvalTree(Sum(AddressTerms(ea, values)), physical) == EffectiveAddress(ea, regs)
  {
    hide Sum, EvalTree, Denotes;
    var disp := ConstTree(ea.disp);
    assert EvalTree(disp, physical) == ea.disp by { ConstEval(ea.disp, physical); }
    if ea.base.Some? { DenotesRegister(values, regs, physical, ea.base.value); }
    if ea.index.Some? {
      DenotesRegister(values, regs, physical, ea.index.value);
      assert U32(regs[ea.index.value] * ea.scale) == regs[ea.index.value];
    }
    if ea.base.Some? && ea.index.Some? {
      var b, i := RegisterValue(values, ea.base.value), RegisterValue(values, ea.index.value);
      assert [b] + [i] == [b, i] && [b, i] + [disp] == [b, i, disp];
      SumOfTwo(b, i, physical);
      SumOfThree(b, i, disp, physical);
    } else if ea.base.Some? || ea.index.Some? {
      var r := RegisterValue(values, if ea.base.Some? then ea.base.value else ea.index.value);
      assert [r] + [] == [r] && [] + [r] == [r] && [r] + [disp] == [r, disp];
      SumOfOne(r, physical);
      SumOfTwo(r, disp, physical);
    } else {
      assert [] + [] + [disp] == [disp];
      SumOfOne(disp, physical);
    }
  }

  lemma ConstEval(value: Word, regs: Regs)
    ensures EvalTree(ConstTree(value), regs) == value
  {
  }

  /** After some registers have been written back, what is read from them is the original value. */
  lemma SameAddress(ea: MemOperand, values: Values, regs: Regs, physical: Regs)
    requires Denotes(values, regs, physical)
    requires (ea.base.Some? ==> ea.base.value !in values) && (ea.index.Some? ==> ea.index.value !in values)
    ensures EffectiveAddress(ea, physical) == EffectiveAddress(ea, regs)
  {
  }

  lemma AddressStep(op: Op, context: Context, m: Machine)
    requires op.Address? && Step(op, context, m) != Stuck
    ensures op.operand < |context.operands| && context.operands[op.operand].MemBinding?
    ensures Step(op, context, m) == Bind(m, op.dst, EffectiveAddress(context.operands[op.operand].ea, m.regs))
  {
    hide EffectiveAddress;
  }

  lemma AddressRuns(op: Op, context: Context, m: Machine, p: Machine)
    requires op.Address? && Step(op, context, m) != Stuck
    ensures Step(op, context, p) != Stuck
  {
    hide EffectiveAddress;
  }

  lemma RunThen(code: seq<Op>, op: Op, context: Context, p: Machine)
    requires RunSteps(code, context, p).Running?
    ensures RunSteps(code + [op], context, p) == Step(op, context, RunSteps(code, context, p).m)
  {
    hide Step, RunSteps;
    RunStepsAppend(code, [op], context, p);
    RunOne(op, context, RunSteps(code, context, p).m);
  }

  /** Nothing tracked means nothing written back. */
  lemma {:induction false} NothingListed(regs: set<Reg>, order: seq<Reg>)
    ensures Listed(map[], regs, order) == []
    decreases order
  {
    if order != [] { NothingListed(regs, order[1..]); }
  }

  lemma {:induction false} AssignedNothing(regs: Regs, list: Materialization, source: Regs)
    requires Written(list) == {}
    ensures Assigned(regs, list, source) == regs
    decreases list
  {
    if list != [] {
      assert list[0] in list && list[0].reg !in Written(list);
      assert Written(list[1..]) == {} by {
        forall value <- list[1..] ensures value.tree == RegTree(value.reg) {
          assert value in list && value.reg !in Written(list);
        }
      }
      AssignedNothing(regs, list[1..], source);
    }
  }

  /** Writing nothing back changes nothing that a fault would expose. */
  lemma ExposedStays(list: Materialization, m: Machine, p: Machine, end: Outcome)
    requires SameExposed(m, p) && Materialized(end, p, list) && Written(list) == {}
    ensures SameExposed(m, end.m)
  {
    AssignedNothing(p.committed, list, p.regs);
  }

  lemma AddressCorrect(
      op: Op, context: Context, analysis: Analysis, rewrite: Rewrite, m: Machine, p: Machine, base: VarId)
    requires op.Address? && Step(op, context, m) != Stuck
    requires Related(analysis, rewrite, m, p, base) && DefinesFresh(op, m.vars, base)
    requires EmitOp(rewrite, AnalyzeRead(analysis, op, context).0, op, context).1.ok
    ensures Achieves(AnalyzeRead(analysis, op, context), op, context, analysis, rewrite, m, p, base)
  {
    hide TrackerOk, VarsRelated, Record, Step, EmitAction, EmitOp, Denotes, EffectiveAddress, EvalTree, RunSteps,
      ValueForAddress, MarkStale, AfterMaterializing, EmitMaterialization;
    var known := ValueForAddress(op.operand, context, analysis.values);
    AddressStep(op, context, m);
    if known.Known? {
      KnownAddress(op, context, analysis, m, p);
      JustEmits(rewrite, Assign(known.tree), op, context);
      FoldRead(op, op.dst, known.tree, EffectiveAddress(context.operands[op.operand].ea, m.regs), context, analysis,
               Record(analysis.tracker, op.dst, known), rewrite, m, p, base);
    } else {
      ScaledAddress(op, context, analysis, rewrite, m, p, base);
    }
  }

  lemma KnownAddress(op: Op, context: Context, analysis: Analysis, m: Machine, p: Machine)
    requires op.Address? && Step(op, context, m) != Stuck && Denotes(analysis.values, m.regs, p.regs)
    requires ValueForAddress(op.operand, context, analysis.values).Known?
    ensures
      var known := ValueForAddress(op.operand, context, analysis.values);
      && op.operand < |context.operands| && context.operands[op.operand].MemBinding?
      && EvalTree(known.tree, p.regs) == EffectiveAddress(context.operands[op.operand].ea, m.regs) && !known.stale
  {
    hide EffectiveAddress, EvalTree, Sum, AddressTerms, Denotes;
    AddressStep(op, context, m);
    AddressTree(context.operands[op.operand].ea, analysis.values, m.regs, p.regs);
  }

  lemma ReadRegistersWrittenBack(op: Op, context: Context, analysis: Analysis)
    requires op.Address? && op.operand < |context.operands| && context.operands[op.operand].MemBinding?
    ensures
      var regs := RegsReadByAddress(op.operand, context, analysis.values);
      var after := AfterMaterializing(analysis, regs);
      var ea := context.operands[op.operand].ea;
      (ea.base.Some? ==> ea.base.value !in after.values) && (ea.index.Some? ==> ea.index.value !in after.values)
  {
    hide Closure, MarkStale, Written, ListOf;
    ClosureIsClosed(analysis.values, RegsReadByAddress(op.operand, context, analysis.values));
  }

  lemma UnknownAddressStays(op: Op, context: Context, first: Values, second: Values)
    requires op.Address? && ValueForAddress(op.operand, context, first).Unknown?
    ensures ValueForAddress(op.operand, context, second).Unknown?
  {
    hide Sum, AddressTerms;
  }

  /** A scaled address is computed from registers that have been written back. */
  lemma ScaledAddress(
      op: Op, context: Context, analysis: Analysis, rewrite: Rewrite, m: Machine, p: Machine, base: VarId)
    requires op.Address? && Step(op, context, m) != Stuck
    requires Related(analysis, rewrite, m, p, base) && DefinesFresh(op, m.vars, base)
    requires ValueForAddress(op.operand, context, analysis.values).Unknown?
    requires EmitOp(rewrite, AnalyzeRead(analysis, op, context).0, op, context).1.ok
    ensures Achieves(AnalyzeRead(analysis, op, context), op, context, analysis, rewrite, m, p, base)
  {
    hide TrackerOk, VarsRelated, Record, Step, EmitAction, EmitOp, Denotes, EffectiveAddress, EvalTree, RunSteps,
      ValueForAddress, MarkStale, AfterMaterializing, EmitMaterialization, ListOf, RegsReadByAddress, Writes;
    var regs := RegsReadByAddress(op.operand, context, analysis.values);
    var list, after := ListOf(analysis.values, regs), AfterMaterializing(analysis, regs);
    var code := EmitMaterialization(rewrite, list);
    OneListEmits(rewrite, list, op, context);
    OkOnlyFallsInAction(code.1, Copy, op, context);
    MaterializeCorrect(analysis, rewrite, regs, context, m, p, base);
    var middle := RunSteps(code.0, context, p).m;
    RunThen(code.0, op, context, p);
    AddressRuns(op, context, m, middle);
    AddressStep(op, context, m);
    AddressStep(op, context, middle);
    ReadRegistersWrittenBack(op, context, analysis);
    var ea := context.operands[op.operand].ea;
    SameAddress(ea, after.values, m.regs, middle.regs);
    UnknownAddressStays(op, context, analysis.values, after.values);
    UnknownAddressStays(op, context, analysis.values, map[]);
    CopyRead(op, op.dst, EffectiveAddress(ea, m.regs), Unknown, Unknown, context, after, code.1, m, middle, base);
    assert list in Decision([list], Copy, []).before;
    if SameExposed(m, p) && Written(list) == {} { ExposedStays(list, m, p, RunSteps(code.0, context, p)); }
  }

  // ---------- register writes ----------

  predicate NobodyUses(values: Values, reg: Reg) {
    forall r <- values :: r != reg ==> !UsesReg(values[r], reg)
  }

  lemma ClobberDenotes(values: Values, regs: Regs, physical: Regs, reg: Reg, value: Word)
    requires Denotes(values, regs, physical) && NobodyUses(values, reg)
    ensures Denotes(values - {reg}, regs[reg := value], physical[reg := value])
  {
    var after := physical[reg := value];
    forall r: Reg | r in values - {reg} ensures EvalTree(values[r], after) == EvalTree(values[r], physical) {
      TreeReadsItsRegs(values[r], physical, after);
    }
  }

  lemma TrackDenotes(values: Values, regs: Regs, physical: Regs, reg: Reg, tree: Tree)
    requires Denotes(values, regs, physical)
    ensures Denotes(values[reg := tree], regs[reg := EvalTree(tree, physical)], physical)
  {
  }

  /** Once the dependents have been written back, nothing tracked uses the register about to be written. */
  lemma DependentsWrittenBack(analysis: Analysis, reg: Reg)
    ensures NobodyUses(AfterMaterializing(analysis, Dependents(analysis.values, reg)).values, reg)
  {
    hide MarkStale, Written, ListOf, Closure, UsesReg;
    ClosureIsClosed(analysis.values, Dependents(analysis.values, reg));
  }

  lemma StillOnlyRegistersDiffer(m: Machine, p: Machine, n: Machine, q: Machine)
    requires p == m.(regs := p.regs, committed := p.committed, vars := p.vars)
    requires n == m.(regs := n.regs, committed := n.committed) && q == p.(regs := q.regs, committed := q.committed)
    ensures q == n.(regs := q.regs, committed := q.committed, vars := q.vars)
    ensures n.vars == m.vars && q.vars == p.vars
  {
  }

  lemma CopyWriteEmits(op: Op, reg: Reg, context: Context, rewrite: Rewrite)
    requires Dst(op).None? && Writes(op, context) == {reg}
    ensures EmitAction(rewrite, Copy, op, context).1 == rewrite.(tracker := MarkStale(rewrite.tracker, {reg}))
  {
    hide MarkStale, Writes, RecordOp, Dst;
    RecordsNothing(op, context, rewrite.tracker, map[]);
  }

  lemma StaleOne(tracker: Tracker, vars: map<VarId, Word>, regs: Regs, after: Regs, reg: Reg)
    requires TrackerOk(tracker, vars, regs) && OthersSame(regs, after, reg)
    ensures TrackerOk(MarkStale(tracker, {reg}), vars, after)
  {
    hide TrackerOk, MarkStale;
    StaleOk(tracker, vars, regs, after, {reg});
  }

  lemma ClobberRelated(
      op: Op, context: Context, analysis: Analysis, rewrite: Rewrite, m: Machine, p: Machine, n: Machine, q: Machine,
      reg: Reg, base: VarId)
    requires Related(analysis, rewrite, m, p, base) && Dst(op).None? && Writes(op, context) == {reg}
    requires Denotes(analysis.values - {reg}, n.regs, q.regs)
    requires OthersSame(p.regs, q.regs, reg)
    requires n == m.(regs := n.regs, committed := n.committed) && q == p.(regs := q.regs, committed := q.committed)
    ensures Related(Clobber(analysis, reg), EmitAction(rewrite, Copy, op, context).1, n, q, base)
  {
    hide TrackerOk, VarsRelated, Denotes, MarkStale, Writes, EmitAction, Dst, Related, OthersSame;
    RelatedParts(analysis, rewrite, m, p, base);
    StillOnlyRegistersDiffer(m, p, n, q);
    StaleOne(analysis.tracker, m.vars, p.regs, q.regs, reg);
    StaleOne(rewrite.tracker, p.vars, p.regs, q.regs, reg);
    CopyWriteEmits(op, reg, context, rewrite);
    RelatedFrom(Clobber(analysis, reg), rewrite.(tracker := MarkStale(rewrite.tracker, {reg})), n, q, base);
  }

  lemma RelatedFrom(analysis: Analysis, rewrite: Rewrite, m: Machine, p: Machine, base: VarId)
    requires p == m.(regs := p.regs, committed := p.committed, vars := p.vars)
    requires Denotes(analysis.values, m.regs, p.regs) && VarsRelated(rewrite.next, m.vars, p.vars, base)
    requires TrackerOk(analysis.tracker, m.vars, p.regs) && TrackerOk(rewrite.tracker, p.vars, p.regs)
    ensures Related(analysis, rewrite, m, p, base)
  {
  }

  lemma SetRetained(
      op: Op, reg: Reg, exitNext: bool, context: Context, analysis: Analysis, rewrite: Rewrite, m: Machine, p: Machine,
      base: VarId)
    requires op.Set? && RegisterOf(op.target, context) == Some(reg) && WholeAccess(op, context)
    requires Related(analysis, rewrite, m, p, base) && Step(op, context, m) != Stuck
    requires Retains(ValueFor(analysis.tracker, op.value), reg, op.materialization, exitNext)
    requires AnalyzeSet(analysis, op, context, exitNext).1.ok
    ensures Achieves(AnalyzeSet(analysis, op, context, exitNext), op, context, analysis, rewrite, m, p, base)
  {
    hide TrackerOk, VarsRelated, Denotes, Step, EvalTree, EmitOp, WholeAccess, Eval, ValueFor;
    var known := ValueFor(analysis.tracker, op.value);
    JustEmits(rewrite, Drop, op, context);
    WholeWrite(op, reg, context, m);
    ValueForOk(analysis.tracker, m.vars, p.regs, op.value, context.nextEip);
    TrackDenotes(analysis.values, m.regs, p.regs, reg, known.tree);
    assert RunSteps([], context, p) == Running(p);
  }

  lemma SetWritten(
      op: Op, reg: Reg, exitNext: bool, context: Context, analysis: Analysis, rewrite: Rewrite, m: Machine, p: Machine,
      base: VarId)
    requires op.Set? && RegisterOf(op.target, context) == Some(reg) && WholeAccess(op, context)
    requires Related(analysis, rewrite, m, p, base) && Step(op, context, m) != Stuck
    requires !Retains(ValueFor(analysis.tracker, op.value), reg, op.materialization, exitNext)
    requires EmitOp(rewrite, AnalyzeSet(analysis, op, context, exitNext).0, op, context).1.ok
    ensures Achieves(AnalyzeSet(analysis, op, context, exitNext), op, context, analysis, rewrite, m, p, base)
  {
    hide TrackerOk, VarsRelated, Denotes, Step, EmitAction, EmitOp, WholeAccess, ValueFor, RunSteps, Eval,
      MarkStale, AfterMaterializing, EmitMaterialization, ListOf, Dependents, NobodyUses, Retains, Clobber, SameExposed;
    var requested := Dependents(analysis.values, reg);
    var list, after := ListOf(analysis.values, requested), AfterMaterializing(analysis, requested);
    var code := EmitMaterialization(rewrite, list);
    OneListEmits(rewrite, list, op, context);
    OkOnlyFallsInAction(code.1, Copy, op, context);
    MaterializeCorrect(analysis, rewrite, requested, context, m, p, base);
    var middle := RunSteps(code.0, context, p).m;
    RunThen(code.0, op, context, p);
    DependentsWrittenBack(analysis, reg);
    WriteBoth(op, reg, context, after, code.1, m, middle, base);
    assert list in Decision([list], Copy, []).before;
    if SameExposed(m, p) && Written(list) == {} { ExposedStays(list, m, p, RunSteps(code.0, context, p)); }
  }

  lemma SameValue(op: Op, context: Context, next: VarId, m: Machine, p: Machine, base: VarId)
    requires op.Set? && VarsRelated(next, m.vars, p.vars, base)
    requires Eval(op.value, m.vars, context.nextEip).Some?
    ensures Eval(op.value, p.vars, context.nextEip) == Eval(op.value, m.vars, context.nextEip)
  {
  }

  lemma WriteBoth(op: Op, reg: Reg, context: Context, analysis: Analysis, rewrite: Rewrite, m: Machine, p: Machine, base: VarId)
    requires op.Set? && RegisterOf(op.target, context) == Some(reg) && WholeAccess(op, context)
    requires Related(analysis, rewrite, m, p, base) && Step(op, context, m) != Stuck && NobodyUses(analysis.values, reg)
    ensures Matches(Step(op, context, m), Step(op, context, p), Clobber(analysis, reg),
                    EmitAction(rewrite, Copy, op, context).1, base)
    ensures SameExposed(m, p) && Step(op, context, m).Running? ==>
              SameExposed(Step(op, context, m).m, Step(op, context, p).m)
  {
    hide TrackerOk, VarsRelated, Denotes, Step, EmitAction, WholeAccess, NobodyUses, Clobber, Eval, RegisterOf, Related, Writes;
    WholeWrite(op, reg, context, m);
    WholeWrite(op, reg, context, p);
    RelatedParts(analysis, rewrite, m, p, base);
    SameValue(op, context, rewrite.next, m, p, base);
    WritesTarget(op, reg, context);
    var value := Eval(op.value, m.vars, context.nextEip).value;
    WriteSame(op, reg, value, op.materialization, context, analysis, rewrite, m, p, base);
  }

  lemma SetCorrect(
      op: Op, exitNext: bool, context: Context, analysis: Analysis, rewrite: Rewrite, m: Machine, p: Machine, base: VarId)
    requires op.Set? && WholeAccess(op, context) && Step(op, context, m) != Stuck
    requires Related(analysis, rewrite, m, p, base)
    requires CanFault(op, context.operands) ==> SameExposed(m, p) && AddressUntracked(op, context, analysis.values)
    requires AnalyzeSet(analysis, op, context, exitNext).1.ok
    requires EmitOp(rewrite, AnalyzeSet(analysis, op, context, exitNext).0, op, context).1.ok
    ensures Achieves(AnalyzeSet(analysis, op, context, exitNext), op, context, analysis, rewrite, m, p, base)
  {
    hide TrackerOk, VarsRelated, Denotes, Step, EmitAction, EmitOp, WholeAccess, ValueFor, RunSteps, Matches, CanFault,
      Achieves, Dependents, AfterMaterializing, Clobber, ListOf, SameExposed, Retains, AddressUntracked;
    var reg := RegisterOf(op.target, context);
    if reg.None? {
      SetsMemory(op, context, m);
      CopyMemory(op, context, analysis, rewrite, m, p, base);
      MemoryRecords(op, context, analysis.tracker, analysis.values);
      SetMemoryExposed(op, context, analysis, rewrite, m, p, base);
    } else if Retains(ValueFor(analysis.tracker, op.value), reg.value, op.materialization, exitNext) {
      SetRetained(op, reg.value, exitNext, context, analysis, rewrite, m, p, base);
    } else {
      SetWritten(op, reg.value, exitNext, context, analysis, rewrite, m, p, base);
    }
  }

  lemma SetsMemory(op: Op, context: Context, m: Machine)
    requires op.Set? && RegisterOf(op.target, context).None? && Step(op, context, m) != Stuck
    ensures CanFault(op, context.operands)
  {
    hide WriteMemory, Mask32;
  }

  lemma SetMemoryExposed(
      op: Op, context: Context, analysis: Analysis, rewrite: Rewrite, m: Machine, p: Machine, base: VarId)
    requires op.Set? && CanFault(op, context.operands)
    requires Matches(Step(op, context, m), Step(op, context, p), analysis, EmitAction(rewrite, Copy, op, context).1, base)
    requires Step(op, context, m).Running? ==> SameExposed(Step(op, context, m).m, Step(op, context, p).m)
    ensures Achieves((Just(Copy), analysis), op, context, analysis, rewrite, m, p, base)
  {
    hide Step, EmitAction, CanFault, Related, Denotes;
    AchievesByCopy(analysis, op, context, analysis, rewrite, m, p, base);
  }

  lemma TwoListsEmit(rewrite: Rewrite, first: Materialization, second: Materialization, op: Op, context: Context)
    requires !IsTerminator(op)
    ensures
      var one := EmitMaterialization(rewrite, first);
      var two := EmitMaterialization(one.1, second);
      EmitOp(rewrite, Decision([first, second], Copy, []), op, context) ==
      (one.0 + two.0 + [op], EmitAction(two.1, Copy, op, context).1)
  {
    var one := EmitMaterialization(rewrite, first);
    var two := EmitMaterialization(one.1, second);
    assert [first, second][1..] == [second];
    OneMaterialization(one.1, second);
    EmitNothing(EmitAction(two.1, Copy, op, context).1);
    assert one.0 + two.0 + [op] + [] == one.0 + two.0 + [op];
  }

  lemma ConditionalWrite(op: Op, reg: Reg, context: Context, m: Machine)
    requires op.SetIf? && WholeAccess(op, context) && RegisterOf(op.target, context) == Some(reg)
    ensures
      var c, value := Eval(op.condition, m.vars, context.nextEip), Eval(op.value, m.vars, context.nextEip);
      Step(op, context, m) ==
      if c.None? || value.None? then Stuck
      else if c.value == 0 then Running(m) else Running(Put(m, reg, value.value, false))
  {
    hide StepWrite, StepGet, StepControl, PureResult, SetFlags, EvalInputs, Eval, RegisterOf, Whole, Put;
    var value := Eval(op.value, m.vars, context.nextEip);
    if value.Some? { WholeStepWrite(op.target, value.value, op.width, false, reg, context, m); }
  }

  lemma RelatedParts(analysis: Analysis, rewrite: Rewrite, m: Machine, p: Machine, base: VarId)
    requires Related(analysis, rewrite, m, p, base)
    ensures p == m.(regs := p.regs, committed := p.committed, vars := p.vars)
    ensures Denotes(analysis.values, m.regs, p.regs) && VarsRelated(rewrite.next, m.vars, p.vars, base)
    ensures TrackerOk(analysis.tracker, m.vars, p.regs) && TrackerOk(rewrite.tracker, p.vars, p.regs)
  {
  }

  lemma WritesTarget(op: Op, reg: Reg, context: Context)
    requires (op.Set? || op.SetIf?) && RegisterOf(op.target, context) == Some(reg)
    ensures Writes(op, context) == {reg} && Dst(op).None?
  {
  }

  lemma SameConditionalValues(op: Op, context: Context, next: VarId, m: Machine, p: Machine, base: VarId)
    requires op.SetIf? && VarsRelated(next, m.vars, p.vars, base)
    requires Eval(op.condition, m.vars, context.nextEip).Some? && Eval(op.value, m.vars, context.nextEip).Some?
    ensures Eval(op.condition, p.vars, context.nextEip) == Eval(op.condition, m.vars, context.nextEip)
    ensures Eval(op.value, p.vars, context.nextEip) == Eval(op.value, m.vars, context.nextEip)
  {
  }

  /** Writing the same value to one register on both sides. */
  lemma WriteSame(
      op: Op, reg: Reg, value: Word, commits: bool, context: Context, analysis: Analysis, rewrite: Rewrite, m: Machine,
      p: Machine, base: VarId)
    requires Related(analysis, rewrite, m, p, base) && NobodyUses(analysis.values, reg)
    requires Writes(op, context) == {reg} && Dst(op).None?
    ensures Related(Clobber(analysis, reg), EmitAction(rewrite, Copy, op, context).1,
                    Put(m, reg, value, commits), Put(p, reg, value, commits), base)
  {
    hide TrackerOk, VarsRelated, Denotes, EmitAction, NobodyUses, Clobber, Related, Writes, Dst, Put;
    RelatedParts(analysis, rewrite, m, p, base);
    ClobberDenotes(analysis.values, m.regs, p.regs, reg, value);
    ClobberRelated(op, context, analysis, rewrite, m, p, Put(m, reg, value, commits), Put(p, reg, value, commits), reg, base);
  }

  lemma WriteNeither(
      op: Op, reg: Reg, context: Context, analysis: Analysis, rewrite: Rewrite, m: Machine, p: Machine, base: VarId)
    requires Related(analysis, rewrite, m, p, base) && reg !in analysis.values
    requires Writes(op, context) == {reg} && Dst(op).None?
    ensures Related(Clobber(analysis, reg), EmitAction(rewrite, Copy, op, context).1, m, p, base)
  {
    hide TrackerOk, VarsRelated, Denotes, EmitAction, Clobber, Related, Writes, Dst;
    RelatedParts(analysis, rewrite, m, p, base);
    assert analysis.values - {reg} == analysis.values;
    ClobberRelated(op, context, analysis, rewrite, m, p, m, p, reg, base);
  }

  lemma WriteBothIf(
      op: Op, reg: Reg, context: Context, analysis: Analysis, rewrite: Rewrite, m: Machine, p: Machine, base: VarId)
    requires op.SetIf? && RegisterOf(op.target, context) == Some(reg) && WholeAccess(op, context)
    requires Related(analysis, rewrite, m, p, base) && Step(op, context, m) != Stuck
    requires NobodyUses(analysis.values, reg) && reg !in analysis.values
    ensures Matches(Step(op, context, m), Step(op, context, p), Clobber(analysis, reg),
                    EmitAction(rewrite, Copy, op, context).1, base)
    ensures SameExposed(m, p) && Step(op, context, m).Running? ==>
              SameExposed(Step(op, context, m).m, Step(op, context, p).m)
  {
    hide TrackerOk, VarsRelated, Denotes, Step, EmitAction, WholeAccess, NobodyUses, Clobber, Eval, RegisterOf, Related, Writes;
    ConditionalWrite(op, reg, context, m);
    ConditionalWrite(op, reg, context, p);
    RelatedParts(analysis, rewrite, m, p, base);
    SameConditionalValues(op, context, rewrite.next, m, p, base);
    WritesTarget(op, reg, context);
    if Eval(op.condition, m.vars, context.nextEip).value == 0 {
      WriteNeither(op, reg, context, analysis, rewrite, m, p, base);
    } else {
      WriteSame(op, reg, Eval(op.value, m.vars, context.nextEip).value, false, context, analysis, rewrite, m, p, base);
    }
  }

  lemma WrittenBackIsUntracked(analysis: Analysis, reg: Reg, requested: set<Reg>)
    ensures reg !in AfterMaterializing(analysis, {reg}).values
    ensures reg !in analysis.values ==> reg !in AfterMaterializing(analysis, requested).values
  {
    hide MarkStale, Written, ListOf, Closure;
    ClosureIsClosed(analysis.values, {reg});
  }

  lemma SetIfCorrect(
      op: Op, context: Context, analysis: Analysis, rewrite: Rewrite, m: Machine, p: Machine, base: VarId)
    requires op.SetIf? && WholeAccess(op, context) && Step(op, context, m) != Stuck
    requires RegisterOf(op.target, context).Some?
    requires Related(analysis, rewrite, m, p, base)
    requires EmitOp(rewrite, AnalyzeSetIf(analysis, op, context).0, op, context).1.ok
    ensures Achieves(AnalyzeSetIf(analysis, op, context), op, context, analysis, rewrite, m, p, base)
  {
    hide TrackerOk, VarsRelated, Denotes, Step, EmitAction, EmitOp, WholeAccess, RunSteps, Eval,
      MarkStale, AfterMaterializing, EmitMaterialization, ListOf, Dependents, NobodyUses, Clobber, SameExposed,
      Written;
    var reg := RegisterOf(op.target, context).value;
    var middle := AfterMaterializing(analysis, {reg});
    var requested := Dependents(middle.values, reg);
    var first, second := ListOf(analysis.values, {reg}), ListOf(middle.values, requested);
    var one := EmitMaterialization(rewrite, first);
    var two := EmitMaterialization(one.1, second);
    TwoListsEmit(rewrite, first, second, op, context);
    OkOnlyFallsInAction(two.1, Copy, op, context);
    OkOnlyFallsInMaterialization(one.1, second);
    MaterializeCorrect(analysis, rewrite, {reg}, context, m, p, base);
    var p1 := RunSteps(one.0, context, p).m;
    MaterializeCorrect(middle, one.1, requested, context, m, p1, base);
    var p2 := RunSteps(two.0, context, p1).m;
    RunStepsAppend(one.0, two.0, context, p);
    RunThen(one.0 + two.0, op, context, p);
    DependentsWrittenBack(middle, reg);
    WrittenBackIsUntracked(analysis, reg, requested);
    WrittenBackIsUntracked(middle, reg, requested);
    WriteBothIf(op, reg, context, AfterMaterializing(middle, requested), two.1, m, p2, base);
    var lists := [first, second];
    assert first in lists && second in lists;
    if SameExposed(m, p) && Written(first) == {} && Written(second) == {} {
      ExposedStays(first, m, p, RunSteps(one.0, context, p));
      ExposedStays(second, m, p1, RunSteps(two.0, context, p1));
    }
  }

  // ---------- terminators ----------

  lemma FlushedIsEmpty(analysis: Analysis)
    ensures Flushed(analysis).values == map[]
  {
    hide MarkStale, Written, ListOf, Closure;
    ClosureIsClosed(analysis.values, analysis.values.Keys);
  }

  lemma TerminatorEmits(rewrite: Rewrite, list: Materialization, op: Op, context: Context)
    requires IsTerminator(op)
    ensures
      var before := EmitMaterialization(rewrite, list);
      var code := (before.0 + [op], EmitAction(before.1, Copy, op, context).1);
      && EmitOp(rewrite, Decision([list], Copy, []), op, context) == code
      && EmitOp(rewrite, Decision([], Copy, list), op, context) == code
  {
    var before := EmitMaterialization(rewrite, list);
    OneMaterialization(rewrite, list);
    EmitNothing(rewrite);
    EmitNothing(before.1);
    assert before.0 + [] + [op] == before.0 + [op];
    assert [] + before.0 + [op] == before.0 + [op];
  }

  lemma TerminatorStops(op: Op, context: Context, m: Machine)
    requires IsTerminator(op)
    ensures Step(op, context, m).Completed? ==> Step(op, context, m).m == m
    ensures Step(op, context, m).Completed? || Step(op, context, m).Exit? || Step(op, context, m).Stuck?
  {
  }

  /** A terminator is copied; if it leaves the block, both machines must hold the same registers. */
  lemma CopyTerminator(op: Op, context: Context, analysis: Analysis, rewrite: Rewrite, m: Machine, p: Machine, base: VarId)
    requires IsTerminator(op) && Related(analysis, rewrite, m, p, base) && Step(op, context, m) != Stuck
    requires IsExit(op, context) ==> analysis.values == map[]
    ensures Matches(Step(op, context, m), Step(op, context, p), analysis, EmitAction(rewrite, Copy, op, context).1, base)
    ensures !Step(op, context, m).Running?
  {
    hide TrackerOk, VarsRelated, Step, EmitAction, Uses, EvalTree;
    VarsRelatedAgree(rewrite.next, m.vars, p.vars, base, Uses(op));
    StepReadsItsUses(op, context, m, p.vars);
    TerminatorStops(op, context, m);
    if IsExit(op, context) { assert p.regs == m.regs; }
    StepIgnoresRegisters(op, context, m.(vars := p.vars), p.regs, p.committed);
    assert p == Reregister(m.(vars := p.vars), p.regs, p.committed);
  }

  lemma FlushThenStop(
      r: (Decision, Analysis), op: Op, context: Context, analysis: Analysis, rewrite: Rewrite, m: Machine, p: Machine,
      base: VarId)
    requires IsTerminator(op) && Related(analysis, rewrite, m, p, base) && Step(op, context, m) != Stuck
    requires r.1 == Flushed(analysis)
    requires r.0 == Decision([All(analysis)], Copy, []) || r.0 == Decision([], Copy, All(analysis))
    requires EmitOp(rewrite, r.0, op, context).1.ok
    ensures Achieves(r, op, context, analysis, rewrite, m, p, base)
  {
    hide TrackerOk, VarsRelated, Denotes, Step, EmitAction, EmitOp, RunSteps, MarkStale, AfterMaterializing,
      EmitMaterialization, ListOf, Related;
    var code := EmitMaterialization(rewrite, All(analysis));
    TerminatorEmits(rewrite, All(analysis), op, context);
    OkOnlyFallsInAction(code.1, Copy, op, context);
    MaterializeCorrect(analysis, rewrite, analysis.values.Keys, context, m, p, base);
    RunThen(code.0, op, context, p);
    FlushedIsEmpty(analysis);
    CopyTerminator(op, context, Flushed(analysis), code.1, m, RunSteps(code.0, context, p).m, base);
  }

  // ---------- any operation ----------

  lemma SetIfNowhere(
      op: Op, context: Context, analysis: Analysis, rewrite: Rewrite, m: Machine, p: Machine, base: VarId)
    requires op.SetIf? && RegisterOf(op.target, context).None? && !IsMemory(op.target, context.operands)
    requires Related(analysis, rewrite, m, p, base) && Step(op, context, m) != Stuck
    ensures Achieves((Just(Copy), analysis), op, context, analysis, rewrite, m, p, base)
  {
    hide TrackerOk, Denotes, VarsRelated, EmitAction, Writes;
    NowhereStays(op, context, m);
    RelatedParts(analysis, rewrite, m, p, base);
    NowhereAgain(op, context, rewrite.next, m, p, base);
    NowhereEmits(op, context, rewrite);
    AchievesByCopy(analysis, op, context, analysis, rewrite, m, p, base);
  }

  lemma NowhereStays(op: Op, context: Context, m: Machine)
    requires op.SetIf? && RegisterOf(op.target, context).None? && !IsMemory(op.target, context.operands)
    requires Step(op, context, m) != Stuck
    ensures Step(op, context, m) == Running(m)
  {
  }

  lemma NowhereAgain(op: Op, context: Context, next: VarId, m: Machine, p: Machine, base: VarId)
    requires op.SetIf? && RegisterOf(op.target, context).None? && !IsMemory(op.target, context.operands)
    requires Step(op, context, m) != Stuck && VarsRelated(next, m.vars, p.vars, base)
    ensures Step(op, context, p) == Running(p)
  {
  }

  lemma NowhereEmits(op: Op, context: Context, rewrite: Rewrite)
    requires op.SetIf? && RegisterOf(op.target, context).None?
    ensures EmitAction(rewrite, Copy, op, context).1 == rewrite
  {
    MarkNothing(rewrite.tracker);
  }

  lemma InnerCorrect(
      op: Op, exitNext: bool, context: Context, analysis: Analysis, rewrite: Rewrite, m: Machine, p: Machine, base: VarId)
    requires WholeAccess(op, context) && (op.SetIf? ==> !IsMemory(op.target, context.operands))
    requires !IsExit(op, context) && Step(op, context, m) != Stuck
    requires Related(analysis, rewrite, m, p, base) && DefinesFresh(op, m.vars, base)
    requires CanFault(op, context.operands) ==> SameExposed(m, p) && AddressUntracked(op, context, analysis.values)
    requires AnalyzeInner(analysis, op, context, exitNext).1.ok
    requires EmitOp(rewrite, AnalyzeInner(analysis, op, context, exitNext).0, op, context).1.ok
    ensures Achieves(AnalyzeInner(analysis, op, context, exitNext), op, context, analysis, rewrite, m, p, base)
  {
    hide TrackerOk, VarsRelated, Denotes, Step, EmitAction, EmitOp, RunSteps, Related, Achieves, AnalyzeSet, AnalyzeSetIf,
      AnalyzeRead, CanFault, SameExposed, DefinesFresh, WholeAccess, AddressUntracked;
    if op.Get? {
      GetCorrect(op, context, analysis, rewrite, m, p, base);
    } else if op.Address? {
      AddressCorrect(op, context, analysis, rewrite, m, p, base);
    } else if op.Set? {
      SetCorrect(op, exitNext, context, analysis, rewrite, m, p, base);
    } else if op.SetIf? {
      if RegisterOf(op.target, context).Some? {
        SetIfCorrect(op, context, analysis, rewrite, m, p, base);
      } else {
        assert AnalyzeSetIf(analysis, op, context) == (Just(Copy), analysis) by { NowhereAnalyzed(op, context, analysis); }
        SetIfNowhere(op, context, analysis, rewrite, m, p, base);
      }
    } else {
      PlainCorrect(op, context, analysis, rewrite, m, p, base);
    }
  }

  lemma NowhereAnalyzed(op: Op, context: Context, analysis: Analysis)
    requires op.SetIf? && RegisterOf(op.target, context).None?
    ensures AnalyzeSetIf(analysis, op, context) == (Just(Copy), analysis)
  {
  }

  lemma PlainCorrect(
      op: Op, context: Context, analysis: Analysis, rewrite: Rewrite, m: Machine, p: Machine, base: VarId)
    requires !TouchesStorage(op) && !IsExit(op, context) && Step(op, context, m) != Stuck
    requires Related(analysis, rewrite, m, p, base) && DefinesFresh(op, m.vars, base)
    ensures
      var after := analysis.(tracker := RecordOp(analysis.tracker, op, context, analysis.values));
      Achieves((Just(Copy), after), op, context, analysis, rewrite, m, p, base)
  {
    hide TrackerOk, VarsRelated, Denotes, Step, EmitAction, RunSteps, RecordOp, DefinesFresh;
    var after := analysis.(tracker := RecordOp(analysis.tracker, op, context, analysis.values));
    if IsTerminator(op) {
      RecordsNothing(op, context, analysis.tracker, analysis.values);
      assert after == analysis;
      CopyTerminator(op, context, analysis, rewrite, m, p, base);
    } else {
      CopyPlain(op, context, analysis, rewrite, m, p, base);
      PlainExposed(op, context, m, p);
    }
    AchievesByCopy(after, op, context, analysis, rewrite, m, p, base);
  }

  lemma PlainExposed(op: Op, context: Context, m: Machine, p: Machine)
    requires !TouchesStorage(op)
    ensures Step(op, context, m).Running? ==> Step(op, context, m).m.committed == m.committed
    ensures Step(op, context, p).Running? ==> Step(op, context, p).m.committed == p.committed
  {
    hide Step;
    PlainKeepsCommitted(op, context, m);
    PlainKeepsCommitted(op, context, p);
  }

  lemma PlainKeepsCommitted(op: Op, context: Context, m: Machine)
    requires !TouchesStorage(op)
    ensures Step(op, context, m).Running? ==> Step(op, context, m).m.committed == m.committed
  {
    hide EvalInputs, SetFlags, PureResult, StepControl;
    if IsTerminator(op) { TerminatorStops(op, context, m); }
  }

  lemma OpCorrect(
      op: Op, exitNext: bool, blockEnd: bool, context: Context, analysis: Analysis, rewrite: Rewrite, m: Machine,
      p: Machine, base: VarId)
    requires WholeAccess(op, context) && (op.SetIf? ==> !IsMemory(op.target, context.operands))
    requires (blockEnd ==> IsTerminator(op)) && Step(op, context, m) != Stuck
    requires Related(analysis, rewrite, m, p, base) && DefinesFresh(op, m.vars, base)
    requires CanFault(op, context.operands) ==> SameExposed(m, p) && AddressUntracked(op, context, analysis.values)
    requires AnalyzeOp(analysis, op, context, exitNext, blockEnd).1.ok
    requires EmitOp(rewrite, AnalyzeOp(analysis, op, context, exitNext, blockEnd).0, op, context).1.ok
    ensures Achieves(AnalyzeOp(analysis, op, context, exitNext, blockEnd), op, context, analysis, rewrite, m, p, base)
  {
    hide TrackerOk, VarsRelated, Denotes, Step, EmitAction, EmitOp, RunSteps, Related, Achieves, AnalyzeInner, CanFault,
      SameExposed, DefinesFresh, WholeAccess, Flushed, All, AddressUntracked;
    var r := AnalyzeOp(analysis, op, context, exitNext, blockEnd);
    if blockEnd || IsExit(op, context) {
      FlushThenStop(r, op, context, analysis, rewrite, m, p, base);
    } else {
      InnerCorrect(op, exitNext, context, analysis, rewrite, m, p, base);
    }
  }

  // ---------- whole instructions ----------

  predicate WholeAccesses(ops: seq<Op>, context: Context) {
    forall op <- ops :: WholeAccess(op, context)
  }

  predicate AssignsBelow(ops: seq<Op>, base: VarId) {
    forall op <- ops :: Dst(op).Some? ==> Dst(op).value < base
  }

  lemma {:induction false} NextVarIdIsAbove(ops: seq<Op>)
    ensures AssignsBelow(ops, NextVarId(ops))
  {
    if ops != [] { NextVarIdIsAbove(ops[1..]); }
  }

  lemma {:induction false} AnalysisOkFalls(ops: seq<Op>, context: Context, last: bool, analysis: Analysis)
    ensures AnalyzeOps(ops, context, last, analysis).1.ok ==> analysis.ok
    decreases ops
  {
    hide MarkStale, RecordOp, ListOf, Closure, Written, ValueFor, ValueForAddress;
    if ops != [] {
      var here := AnalyzeOp(analysis, ops[0], context, ExitNext(ops, context),
                            BlockEnd(ops, last) && !IsExit(ops[0], context));
      AnalysisOkFalls(ops[1..], context, last, here.1);
    }
  }

  lemma OkOnlyFallsInOp(rewrite: Rewrite, decision: Decision, op: Op, context: Context)
    ensures EmitOp(rewrite, decision, op, context).1.ok ==> rewrite.ok
  {
    hide EmitMaterialization, EmitMaterializations, EmitAction;
    var before := EmitMaterializations(rewrite, decision.before);
    OkOnlyFallsInMaterializations(rewrite, decision.before);
    if IsTerminator(op) {
      var after := EmitMaterialization(before.1, decision.after);
      OkOnlyFallsInMaterialization(before.1, decision.after);
      OkOnlyFallsInAction(after.1, decision.action, op, context);
    } else {
      var code := EmitAction(before.1, decision.action, op, context);
      OkOnlyFallsInAction(before.1, decision.action, op, context);
      OkOnlyFallsInMaterialization(code.1, decision.after);
    }
  }

  lemma {:induction false} EmitOkFalls(rewrite: Rewrite, decisions: seq<Decision>, ops: seq<Op>, context: Context)
    requires |decisions| == |ops|
    ensures EmitOps(rewrite, decisions, ops, context).1.ok ==> rewrite.ok
    decreases ops
  {
    hide EmitOp;
    if ops != [] {
      var here := EmitOp(rewrite, decisions[0], ops[0], context);
      OkOnlyFallsInOp(rewrite, decisions[0], ops[0], context);
      EmitOkFalls(here.1, decisions[1..], ops[1..], context);
    }
  }

  /** The same outcome; a completed instruction leaves registers that the tracked values describe. */
  ghost predicate EndMatches(o: Outcome, q: Outcome, values: Values) {
    match o
    case Completed(n) =>
      && q.Completed? && q.m == n.(regs := q.m.regs, committed := q.m.committed, vars := q.m.vars)
      && Denotes(values, n.regs, q.m.regs)
    case _ => q == o
  }

  ghost predicate Ready(
      ops: seq<Op>, context: Context, last: bool, analysis: Analysis, rewrite: Rewrite, m: Machine, p: Machine,
      base: VarId, clean: bool)
  {
    && WholeAccesses(ops, context) && NoMemorySetIf(ops, context) && TerminatorIsLast(ops)
    && FaultsSeeEntryFrom(ops, context, last, analysis, clean)
    && AssignsOnce(ops, m.vars.Keys) && AssignsBelow(ops, base)
    && Related(analysis, rewrite, m, p, base)
    && (AnyFault(ops, context) && clean ==> SameExposed(m, p))
  }

  lemma ReadyOp(
      ops: seq<Op>, context: Context, last: bool, analysis: Analysis, rewrite: Rewrite, m: Machine, p: Machine,
      base: VarId, clean: bool)
    requires ops != [] && Ready(ops, context, last, analysis, rewrite, m, p, base, clean)
    ensures WholeAccess(ops[0], context) && (ops[0].SetIf? ==> !IsMemory(ops[0].target, context.operands))
    ensures Related(analysis, rewrite, m, p, base) && DefinesFresh(ops[0], m.vars, base)
    ensures CanFault(ops[0], context.operands) ==>
              SameExposed(m, p) && AddressUntracked(ops[0], context, analysis.values)
    ensures |ops| > 1 ==> !IsTerminator(ops[0])
  {
    hide Related, SameExposed, WholeAccess, CanFault, AddressUntracked, DecisionFor;
    assert ops[0] in ops;
  }

  lemma ReadyNext(
      ops: seq<Op>, context: Context, last: bool, before: Analysis, rewrite: Rewrite, m: Machine, p: Machine,
      base: VarId, clean: bool, next: Rewrite, n: Machine, q: Machine)
    requires ops != [] && Ready(ops, context, last, before, rewrite, m, p, base, clean)
    requires Related(DecisionFor(ops, context, last, before).1, next, n, q, base)
    requires SameExposed(m, p) && WritesNothingBack(DecisionFor(ops, context, last, before).0.before) ==> SameExposed(n, q)
    requires n.vars.Keys == if Dst(ops[0]).Some? then m.vars.Keys + {Dst(ops[0]).value} else m.vars.Keys
    ensures
      var here := DecisionFor(ops, context, last, before);
      Ready(ops[1..], context, last, here.1, next, n, q, base, clean && WritesNothingBack(here.0.before))
  {
    hide Related, SameExposed, WholeAccess, CanFault, WritesNothingBack, Dst, AddressUntracked, DecisionFor;
    var rest := ops[1..];
    assert forall op <- rest :: op in ops;
    assert forall j | 0 <= j < |rest| - 1 :: rest[j] == ops[j + 1];
    assert TerminatorIsLast(rest);
    if AnyFault(rest, context) {
      assert AnyFault(ops, context);
    }
  }

  lemma StepKeys(op: Op, context: Context, m: Machine)
    requires Step(op, context, m).Running?
    ensures Step(op, context, m).m.vars.Keys == if Dst(op).Some? then m.vars.Keys + {Dst(op).value} else m.vars.Keys
  {
    hide Step;
    StepDefinesItsDst(op, context, m);
  }

  lemma {:induction false} OpsCorrect(
      ops: seq<Op>, context: Context, last: bool, analysis: Analysis, rewrite: Rewrite, m: Machine, p: Machine,
      base: VarId, clean: bool)
    requires Ready(ops, context, last, analysis, rewrite, m, p, base, clean) && RunOps(ops, context, m) != Stuck
    requires AnalyzeOps(ops, context, last, analysis).1.ok
    requires EmitOps(rewrite, AnalyzeOps(ops, context, last, analysis).0, ops, context).1.ok
    ensures
      var analyzed := AnalyzeOps(ops, context, last, analysis);
      var code := EmitOps(rewrite, analyzed.0, ops, context).0;
      EndMatches(RunOps(ops, context, m), RunOps(code, context, p), analyzed.1.values)
    decreases ops
  {
    hide Step, AnalyzeOp, EmitOp, RunSteps, Ready, Related, Denotes, SameExposed, CanFault, WholeAccess, AddressUntracked,
      WritesNothingBack;
    var op, rest := ops[0], ops[1..];
    var here := DecisionFor(ops, context, last, analysis);
    var later := AnalyzeOps(rest, context, last, here.1);
    var code := EmitOp(rewrite, here.0, op, context);
    var more := EmitOps(code.1, later.0, rest, context);
    assert ([here.0] + later.0)[1..] == later.0;
    AnalysisOkFalls(rest, context, last, here.1);
    EmitOkFalls(code.1, later.0, rest, context);
    ReadyOp(ops, context, last, analysis, rewrite, m, p, base, clean);
    OpCorrect(op, ExitNext(ops, context), BlockEnd(ops, last) && !IsExit(op, context), context, analysis, rewrite, m, p, base);
    RunStepsAppend(code.0, more.0, context, p);
    var step := Step(op, context, m);
    if step.Running? {
      var q := RunSteps(code.0, context, p).m;
      StepKeys(op, context, m);
      ReadyNext(ops, context, last, analysis, rewrite, m, p, base, clean, code.1, step.m, q);
      OpsCorrect(rest, context, last, here.1, code.1, step.m, q, base, clean && WritesNothingBack(here.0.before));
    } else {
      if step.Completed? { StopsAtTheEnd(ops, context, m); }
    }
  }

  lemma StopsAtTheEnd(ops: seq<Op>, context: Context, m: Machine)
    requires ops != [] && (|ops| > 1 ==> !IsTerminator(ops[0])) && Step(ops[0], context, m).Completed?
    ensures ops[1..] == []
  {
    hide EvalInputs, SetFlags, PureResult, StepGet, StepWrite;
    if |ops| > 1 { PlainOrStorageRuns(ops[0], context, m); }
  }

  lemma PlainOrStorageRuns(op: Op, context: Context, m: Machine)
    requires !IsTerminator(op)
    ensures !Step(op, context, m).Completed?
  {
    hide EvalInputs, SetFlags, PureResult, Extended, ReadMemory, WriteMemory, ReadAlias, WriteAlias, Mask32;
  }

  /** What the pass is given: validated code with whole-register accesses. */
  ghost predicate Propagatable(instruction: Instruction) {
    var ops, context := instruction.ops, instruction.context;
    && WholeAccesses(ops, context) && NoMemorySetIf(ops, context) && TerminatorIsLast(ops)
    && ops != [] && IsTerminator(ops[|ops| - 1]) && AssignsOnce(ops, {}) && DefinesBeforeUse(ops, {})
  }

  /** Between instructions only registers, and what is left over from the last instruction, differ. */
  ghost predicate Between(values: Values, m: Machine, p: Machine) {
    && p == m.(regs := p.regs, committed := p.committed, vars := p.vars)
    && Denotes(values, m.regs, p.regs)
  }

  lemma StartRelated(values: Values, next: VarId, m: Machine, p: Machine)
    requires Between(values, m, p)
    ensures Related(Analysis(values, [], true), Rewrite([], next, true), Begin(m), Begin(p), next)
  {
    hide Denotes;
  }

  lemma ExposedAtStart(values: Values, m: Machine, p: Machine, end: Outcome)
    requires Between(values, m, p)
    requires Materialized(end, Begin(p), All(Analysis(values, [], true)))
    requires Denotes(map[], m.regs, end.m.regs)
    ensures SameExposed(Begin(m), end.m)
  {
    hide ListOf, MarkStale, Written;
    assert end.m.committed == end.m.regs == m.regs;
  }

  /** The instruction's faults see what its entry left, and the operations are what the pass is given. */
  ghost predicate ReadyToPropagate(instruction: Instruction, last: bool, values: Values) {
    && Propagatable(instruction)
    && FaultsSeeEntryFrom(instruction.ops, instruction.context, last, Entered(instruction, values), true)
  }

  lemma InstructionCorrect(instruction: Instruction, last: bool, values: Values, m: Machine, p: Machine)
    requires ReadyToPropagate(instruction, last, values) && Between(values, m, p)
    requires RunOps(instruction.ops, instruction.context, Begin(m)) != Stuck
    requires PropagateInstruction(instruction, last, values).ok
    ensures
      var after := PropagateInstruction(instruction, last, values);
      EndMatches(RunOps(instruction.ops, instruction.context, Begin(m)),
                 RunOps(after.instruction.ops, after.instruction.context, Begin(p)), after.values)
  {
    hide RunOps, RunSteps, Related, Denotes, SameExposed, AnalyzeOps, EmitOps, EmitMaterialization, Ready, Entered,
      EntryWriteBack, EndMatches, Begin, ReadyToPropagate;
    var ops, context := instruction.ops, instruction.context;
    var rewrite := Rewrite([], NextVarId(ops), true);
    var before := EmitMaterialization(rewrite, EntryWriteBack(instruction, values));
    var analyzed := AnalyzeOps(ops, context, last, Entered(instruction, values));
    var code := EmitOps(before.1, analyzed.0, ops, context);
    EmitOkFalls(before.1, analyzed.0, ops, context);
    EntryCorrect(instruction, last, values, m, p);
    var middle := RunSteps(before.0, context, Begin(p)).m;
    RunStepsAppend(before.0, code.0, context, Begin(p));
    OpsCorrect(ops, context, last, Entered(instruction, values), before.1, Begin(m), middle, NextVarId(ops), true);
  }

  /** Before the first operation: everything is written back if the instruction can fault. */
  lemma EntryCorrect(instruction: Instruction, last: bool, values: Values, m: Machine, p: Machine)
    requires ReadyToPropagate(instruction, last, values) && Between(values, m, p)
    requires EmitMaterialization(Rewrite([], NextVarId(instruction.ops), true), EntryWriteBack(instruction, values)).1.ok
    ensures
      var ops, context, next := instruction.ops, instruction.context, NextVarId(instruction.ops);
      var before := EmitMaterialization(Rewrite([], next, true), EntryWriteBack(instruction, values));
      var end := RunSteps(before.0, context, Begin(p));
      end.Running? && Ready(ops, context, last, Entered(instruction, values), before.1, Begin(m), end.m, next, true)
  {
    hide RunSteps, SameExposed, EmitMaterialization, AnyFault, Between, AfterMaterializing, WholeAccesses,
      NoMemorySetIf, TerminatorIsLast, FaultsSeeEntryFrom, AssignsOnce, AssignsBelow;
    var ops, context := instruction.ops, instruction.context;
    var next, start := NextVarId(ops), Analysis(values, [], true);
    var rewrite := Rewrite([], next, true);
    NextVarIdIsAbove(ops);
    StartRelated(values, next, m, p);
    BeginHasNoVars(m);
    if AnyFault(ops, context) {
      hide Related, Denotes, TrackerOk;
      MaterializeCorrect(start, rewrite, values.Keys, context, Begin(m), Begin(p), next);
      var before := EmitMaterialization(rewrite, All(start));
      var end := RunSteps(before.0, context, Begin(p));
      FlushedIsEmpty(start);
      RelatedParts(Flushed(start), before.1, Begin(m), end.m, next);
      BeginKeepsRegs(m);
      ExposedAtStart(values, m, p, end);
    } else {
      hide Related;
      EmitNothing(rewrite);
      RunNothing(context, Begin(p));
    }
  }

  lemma RunNothing(context: Context, p: Machine)
    ensures RunSteps([], context, p) == Running(p)
  {
  }

  lemma BeginHasNoVars(m: Machine)
    ensures Begin(m).vars.Keys == {}
  {
  }

  lemma BeginKeepsRegs(m: Machine)
    ensures Begin(m).regs == m.regs
  {
  }

  /** The last instruction leaves nothing tracked. */
  lemma {:induction false} LastFlushes(ops: seq<Op>, context: Context, analysis: Analysis)
    requires ops != [] && IsTerminator(ops[|ops| - 1]) && TerminatorIsLast(ops)
    ensures AnalyzeOps(ops, context, true, analysis).1.values == map[]
    decreases ops
  {
    hide AnalyzeInner, All, Flushed;
    var here := AnalyzeOp(analysis, ops[0], context, ExitNext(ops, context), BlockEnd(ops, true) && !IsExit(ops[0], context));
    if |ops| == 1 {
      FlushedIsEmpty(analysis);
      assert AnalyzeOps(ops[1..], context, true, here.1).1 == here.1;
    } else {
      LastFlushes(ops[1..], context, here.1);
    }
  }

  /** What a run lets the outside see; a block that ends without leaving exposes its final registers. */
  ghost predicate SameRun(o: Outcome, q: Outcome) {
    match o
    case Completed(n) => q.Completed? && q.m == n.(committed := q.m.committed, vars := q.m.vars)
    case _ => q == o
  }

  lemma {:induction false} BlockCorrect(block: Block, values: Values, m: Machine, p: Machine)
    requires (forall instruction <- block :: Propagatable(instruction)) && FaultsSeeEntry(block, values)
    requires Between(values, m, p) && (block == [] ==> values == map[])
    requires RunBlock(block, m) != Stuck && PropagateBlock(block, values).1
    ensures SameRun(RunBlock(block, m), RunBlock(PropagateBlock(block, values).0, p))
    decreases block
  {
    hide RunOps, Propagatable, PropagateInstruction, Denotes, Begin, FaultsSeeEntryFrom, ValuesAfter;
    if block == [] {
      EmptyDenotes(m.regs, p.regs);
    } else {
      var first, rest := block[0], block[1..];
      var here := PropagateInstruction(first, |block| == 1, values);
      var more := PropagateBlock(rest, here.values);
      assert first in block;
      assert ([here.instruction] + more.0)[1..] == more.0;
      SameValuesAfter(first, |block| == 1, values);
      InstructionCorrect(first, |block| == 1, values, m, p);
      if |block| == 1 { LastValues(first, values); }
      var o := RunOps(first.ops, first.context, Begin(m));
      if o.Completed? {
        var q := RunOps(here.instruction.ops, here.instruction.context, Begin(p));
        BlockCorrect(rest, here.values, o.m, q.m);
      }
    }
  }

  lemma SameValuesAfter(instruction: Instruction, last: bool, values: Values)
    ensures PropagateInstruction(instruction, last, values).values == ValuesAfter(instruction, last, values)
  {
    hide AnalyzeOps, EmitOps, EmitMaterialization, Entered, EntryWriteBack;
  }

  lemma EmptyDenotes(regs: Regs, physical: Regs)
    requires Denotes(map[], regs, physical)
    ensures regs == physical
  {
  }

  lemma LastValues(instruction: Instruction, values: Values)
    requires Propagatable(instruction)
    ensures PropagateInstruction(instruction, true, values).values == map[]
  {
    hide AnalyzeOps, EmitOps, EmitMaterialization, Entered, EntryWriteBack;
    LastFlushes(instruction.ops, instruction.context, Entered(instruction, values));
  }
}
