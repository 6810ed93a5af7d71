/**
 The walk over a block and the pass itself agree: the pass takes a tree from a variable computed before a write to a
 register the tree names exactly when the walk finds such a tree.
 */
module StaleReuse {
  import opened X86Types
  import opened Ir
  import opened RegisterValues
  import opened RegisterPropagation
  import opened PropagationSafety
  import PropagationProof

  // ---------- trackers that only grow ----------

  /** New entries were appended, for variables from `low` on. */
  ghost predicate Grown(before: Tracker, after: Tracker, low: VarId) {
    |before| <= |after| && after[..|before|] == before && forall entry <- after[|before|..] :: entry.id >= low
  }

  lemma GrownTwice(before: Tracker, middle: Tracker, after: Tracker, low: VarId, high: VarId)
    requires Grown(before, middle, low) && Grown(middle, after, high) && low <= high
    ensures Grown(before, after, low)
  {
    assert after[..|before|] == middle[..|before|];
    forall entry <- after[|before|..] ensures entry.id >= low {
      var i :| |before| <= i < |after| && after[i] == entry;
      if i < |middle| {
        assert after[..|middle|][i] == middle[i] && middle[i] in middle[|before|..];
      } else {
        assert after[i] in after[|middle|..];
      }
    }
  }

  lemma GrownNot(tracker: Tracker, low: VarId)
    ensures Grown(tracker, tracker, low)
  {
  }

  predicate Absent(tracker: Tracker, id: VarId) {
    forall entry <- tracker :: entry.id != id
  }

  lemma {:induction false} ForgetAbsent(tracker: Tracker, id: VarId)
    requires Absent(tracker, id)
    ensures Forget(tracker, id) == tracker && Lookup(tracker, id).None?
  {
    if tracker != [] {
      assert tracker[0] in tracker;
      assert Absent(tracker[1..], id);
      ForgetAbsent(tracker[1..], id);
    }
  }

  /** Recording a new variable appends it. */
  lemma RecordAbsent(tracker: Tracker, id: VarId, known: Known)
    requires Absent(tracker, id)
    ensures Record(tracker, id, known) ==
            if known.Known? then tracker + [Entry(id, known.tree, known.stale)] else tracker
  {
    ForgetAbsent(tracker, id);
  }

  lemma {:induction false} FirstWithAppended(tracker: Tracker, entry: Entry, tree: Tree)
    ensures FirstWith(tracker + [entry], tree) ==
            if FirstWith(tracker, tree).Some? then FirstWith(tracker, tree)
            else if entry.tree == tree then Some(entry) else None
  {
    if tracker == [] {
      assert [] + [entry] == [entry] && [entry][1..] == [];
    } else {
      assert (tracker + [entry])[1..] == tracker[1..] + [entry];
      FirstWithAppended(tracker[1..], entry, tree);
    }
  }

  lemma {:induction false} LookupAppended(tracker: Tracker, entry: Entry, id: VarId)
    ensures Lookup(tracker + [entry], id) ==
            if Lookup(tracker, id).Some? then Lookup(tracker, id) else if entry.id == id then Some(entry) else None
  {
    if tracker == [] {
      assert [] + [entry] == [entry] && [entry][1..] == [];
    } else {
      assert (tracker + [entry])[1..] == tracker[1..] + [entry];
      LookupAppended(tracker[1..], entry, id);
    }
  }

  lemma {:induction false} LookupGrown(before: Tracker, after: Tracker, low: VarId, id: VarId)
    requires Grown(before, after, low) && id < low
    ensures Lookup(after, id) == Lookup(before, id)
    decreases before
  {
    if before == [] {
      assert after[0..] == after;
      ForgetAbsent(after, id);
    } else {
      assert after[0] == after[..|before|][0] && after[1..][..|before[1..]|] == before[1..];
      assert after[1..][|before[1..]|..] == after[|before|..];
      LookupGrown(before[1..], after[1..], low, id);
    }
  }

  function Marked(entry: Entry, regs: set<Reg>): Entry {
    entry.(stale := entry.stale || exists reg <- regs :: UsesReg(entry.tree, reg))
  }

  lemma MarkStaleHead(tracker: Tracker, regs: set<Reg>)
    requires tracker != []
    ensures MarkStale(tracker, regs) != [] && MarkStale(tracker, regs)[0] == Marked(tracker[0], regs)
    ensures MarkStale(tracker, regs)[1..] == MarkStale(tracker[1..], regs)
  {
  }

  lemma {:induction false} FirstWithMarked(tracker: Tracker, regs: set<Reg>, tree: Tree)
    ensures FirstWith(MarkStale(tracker, regs), tree) ==
            if FirstWith(tracker, tree).Some? then Some(Marked(FirstWith(tracker, tree).value, regs)) else None
    ensures FirstWith(tracker, tree).Some? ==> FirstWith(tracker, tree).value.tree == tree
  {
    if tracker != [] {
      MarkStaleHead(tracker, regs);
      FirstWithMarked(tracker[1..], regs, tree);
    }
  }

  lemma {:induction false} LookupMarked(tracker: Tracker, regs: set<Reg>, id: VarId)
    ensures Lookup(MarkStale(tracker, regs), id) ==
            if Lookup(tracker, id).Some? then Some(Marked(Lookup(tracker, id).value, regs)) else None
  {
    if tracker != [] {
      MarkStaleHead(tracker, regs);
      LookupMarked(tracker[1..], regs, id);
    }
  }

  // ---------- what the walk keeps of a tracker ----------

  /** The held trees are those of the tracker, each stale exactly if its first variable is. */
  ghost predicate Describes(held: Held, tracker: Tracker) {
    forall tree: Tree ::
      (tree in held <==> FirstWith(tracker, tree).Some?) &&
      (tree in held ==> held[tree] == FirstWith(tracker, tree).value.stale)
  }

  lemma DescribesAppended(held: Held, tracker: Tracker, entry: Entry)
    requires Describes(held, tracker)
    ensures Describes(Holding(held, entry.tree, entry.stale), tracker + [entry])
  {
    forall tree: Tree
      ensures FirstWith(tracker + [entry], tree) ==
              if FirstWith(tracker, tree).Some? then FirstWith(tracker, tree)
              else if entry.tree == tree then Some(entry) else None
    {
      FirstWithAppended(tracker, entry, tree);
    }
  }

  lemma DescribesMarked(held: Held, tracker: Tracker, regs: set<Reg>)
    requires Describes(held, tracker)
    ensures Describes(AfterWriting(held, regs), MarkStale(tracker, regs))
  {
    var after := AfterWriting(held, regs);
    forall tree: Tree
      ensures tree in after <==> FirstWith(MarkStale(tracker, regs), tree).Some?
      ensures tree in after ==> after[tree] == FirstWith(MarkStale(tracker, regs), tree).value.stale
    {
      FirstWithMarked(tracker, regs, tree);
    }
  }

  ghost predicate Below(tracker: Tracker, next: VarId) {
    forall entry <- tracker :: entry.id < next
  }

  /** The emitted code and the walk: the same trees are held, and both see the same stale ones. */
  ghost predicate Mirrors(rewrite: Rewrite, after: Rewrite, walk: Walk) {
    && Describes(walk.held, after.tracker) && Below(after.tracker, after.next) && rewrite.next <= after.next
    && Grown(rewrite.tracker, after.tracker, rewrite.next) && (after.ok <==> rewrite.ok && walk.ok)
  }

  lemma MirrorsTwice(rewrite: Rewrite, middle: Rewrite, after: Rewrite, first: Walk, second: Walk)
    requires Mirrors(rewrite, middle, first) && Mirrors(middle, after, second)
    ensures Mirrors(rewrite, after, Walk(second.held, first.ok && second.ok))
  {
    GrownTwice(rewrite.tracker, middle.tracker, after.tracker, rewrite.next, middle.next);
  }

  lemma {:induction false} RefMirrors(rewrite: Rewrite, held: Held, tree: Tree)
    requires Describes(held, rewrite.tracker) && Below(rewrite.tracker, rewrite.next)
    ensures Mirrors(rewrite, EmitRef(rewrite, tree).rewrite, Need(held, tree))
    decreases tree, 1
  {
    hide Describes;
    GrownNot(rewrite.tracker, rewrite.next);
    assert tree in held <==> FirstWith(rewrite.tracker, tree).Some? by { HeldTree(held, rewrite.tracker, tree); }
    HeldTree(held, rewrite.tracker, tree);
    if !tree.ConstTree? && tree !in held {
      var dst, start := rewrite.next, rewrite.(next := rewrite.next + 1);
      PartsMirror(start, held, dst, tree);
      var code := EmitInto(start, dst, tree);
      NewVariable(rewrite.tracker, code.1.tracker, dst);
      RecordAbsent(code.1.tracker, dst, Known(tree, false));
      DescribesAppended(NeedParts(held, tree).held, code.1.tracker, Entry(dst, tree, false));
      GrownByOne(rewrite.tracker, code.1.tracker, Entry(dst, tree, false), dst);
    }
  }

  lemma HeldTree(held: Held, tracker: Tracker, tree: Tree)
    requires Describes(held, tracker)
    ensures tree in held <==> FirstWith(tracker, tree).Some?
    ensures tree in held ==> held[tree] == FirstWith(tracker, tree).value.stale
  {
  }

  lemma NewVariable(before: Tracker, after: Tracker, dst: VarId)
    requires Grown(before, after, dst + 1) && Below(before, dst)
    ensures Absent(after, dst)
  {
    forall entry <- after ensures entry.id != dst {
      var i :| 0 <= i < |after| && after[i] == entry;
      if i < |before| { assert after[..|before|][i] in before; } else { assert entry in after[|before|..]; }
    }
  }

  lemma GrownByOne(before: Tracker, middle: Tracker, entry: Entry, low: VarId)
    requires Grown(before, middle, low + 1) && entry.id == low
    ensures Grown(before, middle + [entry], low)
  {
    var after := middle + [entry];
    assert after[..|before|] == middle[..|before|];
    assert after[|before|..] == middle[|before|..] + [entry];
  }

  lemma {:induction false} PartsMirror(rewrite: Rewrite, held: Held, dst: VarId, tree: Tree)
    requires Describes(held, rewrite.tracker) && Below(rewrite.tracker, rewrite.next)
    ensures Mirrors(rewrite, EmitInto(rewrite, dst, tree).1, NeedParts(held, tree))
    decreases tree, 0
  {
    hide Describes, Grown, FirstWith;
    GrownNot(rewrite.tracker, rewrite.next);
    match tree
    case ConstTree(_) =>
    case RegTree(_) =>
    case UnaryTree(_, a) => RefMirrors(rewrite, held, a);
    case BinaryTree(_, a, b) =>
      var x := EmitRef(rewrite, a).rewrite;
      RefMirrors(rewrite, held, a);
      RefMirrors(x, Need(held, a).held, b);
      MirrorsTwice(rewrite, x, EmitRef(x, b).rewrite, Need(held, a), Need(Need(held, a).held, b));
  }

  lemma {:induction false} RefsMirror(rewrite: Rewrite, held: Held, list: Materialization)
    requires Describes(held, rewrite.tracker) && Below(rewrite.tracker, rewrite.next)
    ensures Mirrors(rewrite, EmitRefs(rewrite, list).2, NeedAll(held, list))
    decreases list
  {
    hide Describes, Grown, EmitRef, Need;
    GrownNot(rewrite.tracker, rewrite.next);
    if list != [] {
      if list[0].tree == RegTree(list[0].reg) {
        RefsMirror(rewrite, held, list[1..]);
      } else {
        var here, walk := EmitRef(rewrite, list[0].tree).rewrite, Need(held, list[0].tree);
        RefMirrors(rewrite, held, list[0].tree);
        RefsMirror(here, walk.held, list[1..]);
        MirrorsTwice(rewrite, here, EmitRefs(here, list[1..]).2, walk, NeedAll(walk.held, list[1..]));
      }
    }
  }

  // ---------- the two trackers of the pass ----------

  predicate SameKnown(first: Tracker, second: Tracker, id: VarId) {
    ValueFor(first, Var(id)) == ValueFor(second, Var(id))
  }

  /** Analysis and rewrite know the same about the block's own variables, and the walk holds the rewrite's trees. */
  ghost predicate InStep(tracker: Tracker, rewrite: Rewrite, held: Held, defined: set<VarId>, base: VarId) {
    && Describes(held, rewrite.tracker) && Below(rewrite.tracker, rewrite.next) && base <= rewrite.next
    && (forall id <- defined :: id < base && SameKnown(tracker, rewrite.tracker, id))
    && (forall id: VarId :: id !in defined && id < base ==> Absent(tracker, id) && Absent(rewrite.tracker, id))
  }

  lemma StillAbsent(before: Tracker, after: Tracker, low: VarId, id: VarId)
    requires Grown(before, after, low) && Absent(before, id) && id < low
    ensures Absent(after, id)
  {
    forall entry <- after ensures entry.id != id {
      var i :| 0 <= i < |after| && after[i] == entry;
      if i < |before| { assert after[..|before|][i] in before; } else { assert entry in after[|before|..]; }
    }
  }

  /** Emitted value code keeps the two in step. */
  lemma InStepMirrored(
      tracker: Tracker, rewrite: Rewrite, held: Held, defined: set<VarId>, base: VarId, after: Rewrite, walk: Walk)
    requires InStep(tracker, rewrite, held, defined, base) && Mirrors(rewrite, after, walk)
    ensures InStep(tracker, after, walk.held, defined, base)
  {
    hide Describes;
    forall id <- defined ensures SameKnown(tracker, after.tracker, id) {
      LookupGrown(rewrite.tracker, after.tracker, rewrite.next, id);
      assert SameKnown(tracker, rewrite.tracker, id);
    }
    forall id: VarId | id !in defined && id < base ensures Absent(tracker, id) && Absent(after.tracker, id) {
      StillAbsent(rewrite.tracker, after.tracker, rewrite.next, id);
    }
  }

  lemma AbsentMarked(tracker: Tracker, regs: set<Reg>, id: VarId)
    requires Absent(tracker, id)
    ensures Absent(MarkStale(tracker, regs), id)
  {
    var marked := MarkStale(tracker, regs);
    forall entry <- marked ensures entry.id != id {
      var i :| 0 <= i < |marked| && marked[i] == entry;
      assert tracker[i] in tracker;
    }
  }

  lemma BelowMarked(tracker: Tracker, regs: set<Reg>, next: VarId)
    requires Below(tracker, next)
    ensures Below(MarkStale(tracker, regs), next)
  {
    var marked := MarkStale(tracker, regs);
    forall entry <- marked ensures entry.id < next {
      var i :| 0 <= i < |marked| && marked[i] == entry;
      assert tracker[i] in tracker;
    }
  }

  /** Writing registers keeps the two in step. */
  lemma InStepWritten(
      tracker: Tracker, rewrite: Rewrite, held: Held, defined: set<VarId>, base: VarId, regs: set<Reg>)
    requires InStep(tracker, rewrite, held, defined, base)
    ensures InStep(MarkStale(tracker, regs), rewrite.(tracker := MarkStale(rewrite.tracker, regs)),
                   AfterWriting(held, regs), defined, base)
  {
    hide Describes, MarkStale, Below;
    DescribesMarked(held, rewrite.tracker, regs);
    BelowMarked(rewrite.tracker, regs, rewrite.next);
    forall id <- defined ensures SameKnown(MarkStale(tracker, regs), MarkStale(rewrite.tracker, regs), id) {
      assert SameKnown(tracker, rewrite.tracker, id);
      LookupMarked(tracker, regs, id);
      LookupMarked(rewrite.tracker, regs, id);
    }
    forall id: VarId | id !in defined && id < base
      ensures Absent(MarkStale(tracker, regs), id) && Absent(MarkStale(rewrite.tracker, regs), id)
    {
      AbsentMarked(tracker, regs, id);
      AbsentMarked(rewrite.tracker, regs, id);
    }
  }

  function Hold(held: Held, known: Known): Held {
    if known.Known? then Holding(held, known.tree, known.stale) else held
  }

  /** Recording a newly defined variable on both sides, with the same tree, keeps them in step. */
  lemma InStepRecorded(
      tracker: Tracker, rewrite: Rewrite, held: Held, defined: set<VarId>, base: VarId, dst: VarId, known: Known)
    requires InStep(tracker, rewrite, held, defined, base) && dst !in defined && dst < base
    ensures InStep(Record(tracker, dst, known), rewrite.(tracker := Record(rewrite.tracker, dst, known)),
                   Hold(held, known), defined + {dst}, base)
  {
    hide Describes;
    RecordAbsent(tracker, dst, known);
    RecordAbsent(rewrite.tracker, dst, known);
    ForgetAbsent(tracker, dst);
    ForgetAbsent(rewrite.tracker, dst);
    if known.Known? {
      var entry := Entry(dst, known.tree, known.stale);
      DescribesAppended(held, rewrite.tracker, entry);
      forall id <- defined + {dst} ensures SameKnown(tracker + [entry], rewrite.tracker + [entry], id) {
        LookupAppended(tracker, entry, id);
        LookupAppended(rewrite.tracker, entry, id);
        if id != dst { assert SameKnown(tracker, rewrite.tracker, id); }
      }
    } else {
      assert SameKnown(tracker, rewrite.tracker, dst);
    }
  }

  // ---------- write-backs ----------

  /** One write-back moves both trackers and the walk in step. */
  lemma WriteBackInStep(
      tracker: Tracker, rewrite: Rewrite, held: Held, defined: set<VarId>, base: VarId, list: Materialization)
    requires InStep(tracker, rewrite, held, defined, base)
    ensures
      var code, walk := EmitMaterialization(rewrite, list).1, WriteBack(held, list);
      && InStep(MarkStale(tracker, Written(list)), code, walk.held, defined, base)
      && (code.ok <==> rewrite.ok && walk.ok)
  {
    hide MarkStale, EmitRefs, NeedAll, AfterWriting, Describes, Grown;
    RefsMirror(rewrite, held, list) by { InStepParts(tracker, rewrite, held, defined, base); }
    var refs, all := EmitRefs(rewrite, list), NeedAll(held, list);
    InStepMirrored(tracker, rewrite, held, defined, base, refs.2, all);
    InStepWritten(tracker, refs.2, all.held, defined, base, Written(list));
  }

  lemma InStepParts(tracker: Tracker, rewrite: Rewrite, held: Held, defined: set<VarId>, base: VarId)
    requires InStep(tracker, rewrite, held, defined, base)
    ensures Describes(held, rewrite.tracker) && Below(rewrite.tracker, rewrite.next) && base <= rewrite.next
  {
  }

  lemma WriteBackNothing(held: Held)
    ensures AfterWriting(held, {}) == held
    ensures WriteBack(held, []) == Walk(held, true) && WriteBackAll(held, []) == Walk(held, true)
  {
    assert Written([]) == {};
  }

  lemma WriteBackOne(held: Held, list: Materialization)
    ensures WriteBackAll(held, [list]) == WriteBack(held, list)
  {
    hide WriteBack;
    assert [list][1..] == [];
  }

  lemma WriteBackTwo(held: Held, first: Materialization, second: Materialization)
    ensures
      var one := WriteBack(held, first);
      var two := WriteBack(one.held, second);
      WriteBackAll(held, [first, second]) == Walk(two.held, one.ok && two.ok)
  {
    hide WriteBack;
    assert [first, second][1..] == [second];
    WriteBackOne(WriteBack(held, first).held, second);
  }

  // ---------- single operations ----------

  function WithDst(defined: set<VarId>, op: Op): set<VarId> {
    if Dst(op).Some? then defined + {Dst(op).value} else defined
  }

  predicate DefinesNew(op: Op, defined: set<VarId>, base: VarId) {
    Uses(op) <= defined && (Dst(op).Some? ==> Dst(op).value !in defined && Dst(op).value < base)
  }

  lemma KnownAgrees(first: Tracker, second: Tracker, defined: set<VarId>, value: Value)
    requires forall id <- defined :: SameKnown(first, second, id)
    requires Vars(value) <= defined
    ensures ValueFor(first, value) == ValueFor(second, value)
  {
    if value.Var? { assert SameKnown(first, second, value.id); }
  }

  lemma TreeAgrees(
      tracker: Tracker, rewrite: Rewrite, held: Held, defined: set<VarId>, base: VarId, op: Op, context: Context,
      values: Values)
    requires InStep(tracker, rewrite, held, defined, base) && Uses(op) <= defined
    ensures TreeOf(tracker, op, context, values) == TreeOf(rewrite.tracker, op, context, values)
  {
    hide Describes, ValueForAddress, ValueForGet, ValueFor;
    if op.ValueBinary? {
      KnownAgrees(tracker, rewrite.tracker, defined, op.a);
      KnownAgrees(tracker, rewrite.tracker, defined, op.b);
    } else if op.ValueUnary? {
      KnownAgrees(tracker, rewrite.tracker, defined, op.a);
    }
  }

  lemma RecordOpRecords(tracker: Tracker, op: Op, context: Context, values: Values)
    requires Dst(op).Some? ==> Absent(tracker, Dst(op).value)
    ensures RecordOp(tracker, op, context, values) ==
            if Dst(op).Some? then Record(tracker, Dst(op).value, TreeOf(tracker, op, context, values)) else tracker
  {
    hide ValueForAddress, ValueForGet, ValueFor;
    if Dst(op).Some? { ForgetAbsent(tracker, Dst(op).value); }
  }

  lemma AbsentBelow(tracker: Tracker, rewrite: Rewrite, held: Held, defined: set<VarId>, base: VarId, id: VarId)
    requires InStep(tracker, rewrite, held, defined, base) && id !in defined && id < base
    ensures Absent(tracker, id) && Absent(rewrite.tracker, id)
  {
  }

  /** A copied operation. */
  lemma CopyInStep(
      tracker: Tracker, rewrite: Rewrite, held: Held, defined: set<VarId>, base: VarId, op: Op, context: Context,
      values: Values)
    requires InStep(tracker, rewrite, held, defined, base) && DefinesNew(op, defined, base)
    requires TreeOf(tracker, op, context, values) == TreeOf(tracker, op, context, map[])
    ensures
      var code := EmitAction(rewrite, Copy, op, context).1;
      var walk := Carry(held, Copy, op, context, TreeOf(tracker, op, context, values));
      && InStep(MarkStale(RecordOp(tracker, op, context, values), Writes(op, context)), code, walk.held,
                WithDst(defined, op), base)
      && (code.ok <==> rewrite.ok && walk.ok)
  {
    hide InStep, TreeOf, RecordOp, MarkStale, Record, AfterWriting, Writes, Uses, Dst;
    TreeAgrees(tracker, rewrite, held, defined, base, op, context, map[]);
    var known := TreeOf(tracker, op, context, values);
    if Dst(op).Some? {
      var dst := Dst(op).value;
      AbsentBelow(tracker, rewrite, held, defined, base, dst);
      RecordOpRecords(tracker, op, context, values);
      RecordOpRecords(rewrite.tracker, op, context, map[]);
      InStepRecorded(tracker, rewrite, held, defined, base, dst, known);
      InStepWritten(Record(tracker, dst, known), rewrite.(tracker := Record(rewrite.tracker, dst, known)),
                    Hold(held, known), defined + {dst}, base, Writes(op, context));
    } else {
      NoTreeWithoutDst(tracker, op, context, values);
      RecordOpRecords(tracker, op, context, values);
      RecordOpRecords(rewrite.tracker, op, context, map[]);
      InStepWritten(tracker, rewrite, held, defined, base, Writes(op, context));
    }
  }

  lemma NoTreeWithoutDst(tracker: Tracker, op: Op, context: Context, values: Values)
    requires Dst(op).None?
    ensures TreeOf(tracker, op, context, values) == Unknown
  {
  }

  /** A read that is replaced by code for its tree. */
  lemma AssignInStep(
      tracker: Tracker, rewrite: Rewrite, held: Held, defined: set<VarId>, base: VarId, op: Op, context: Context,
      tree: Tree)
    requires InStep(tracker, rewrite, held, defined, base) && DefinesNew(op, defined, base) && Dst(op).Some?
    ensures
      var code := EmitAction(rewrite, Assign(tree), op, context).1;
      var walk := Carry(held, Assign(tree), op, context, Unknown);
      && InStep(Record(tracker, Dst(op).value, Known(tree, false)), code, walk.held, WithDst(defined, op), base)
      && (code.ok <==> rewrite.ok && walk.ok)
  {
    hide InStep, Record, Uses, Dst, EmitInto, NeedParts, Describes, Grown;
    InStepParts(tracker, rewrite, held, defined, base);
    var dst := Dst(op).value;
    PartsMirror(rewrite, held, dst, tree);
    var code, parts := EmitInto(rewrite, dst, tree).1, NeedParts(held, tree);
    InStepMirrored(tracker, rewrite, held, defined, base, code, parts);
    InStepRecorded(tracker, code, parts.held, defined, base, dst, Known(tree, false));
  }

  /** What the walk and the pass must agree on after an operation. */
  ghost predicate StaysInStep(
      r: (Decision, Analysis), analysis: Analysis, rewrite: Rewrite, held: Held, defined: set<VarId>, base: VarId,
      op: Op, context: Context)
  {
    var code, walk := EmitOp(rewrite, r.0, op, context).1, CarryOp(held, r.0, op, context, analysis);
    && InStep(r.1.tracker, code, walk.held, WithDst(defined, op), base)
    && (code.ok && r.1.ok <==> rewrite.ok && analysis.ok && walk.ok)
  }

  lemma JustCarries(held: Held, action: Action, op: Op, context: Context, analysis: Analysis)
    requires !IsTerminator(op)
    ensures
      var walk := Carry(held, action, op, context, TreeOf(analysis.tracker, op, context, analysis.values));
      CarryOp(held, Just(action), op, context, analysis) ==
      Walk(walk.held, walk.ok && KeepsCurrentTree(action, op, analysis.tracker))
  {
    hide TreeOf, Carry, KeepsCurrentTree;
    WriteBackNothing(held);
  }

  lemma StopCarries(held: Held, op: Op, context: Context, analysis: Analysis, list: Materialization)
    requires IsTerminator(op)
    ensures CarryOp(held, Decision([list], Copy, []), op, context, analysis) == WriteBack(held, list)
    ensures CarryOp(held, Decision([], Copy, list), op, context, analysis) == WriteBack(held, list)
    ensures CarryOp(held, Just(Copy), op, context, analysis) == Walk(held, true)
  {
    hide TreeOf, WriteBack, WriteBackAll;
    WriteBackNothing(held);
    WriteBackNothing(WriteBack(held, list).held);
    WriteBackOne(held, list);
  }

  lemma TerminatorCopied(rewrite: Rewrite, op: Op, context: Context)
    requires IsTerminator(op)
    ensures EmitAction(rewrite, Copy, op, context).1 == rewrite
    ensures Dst(op).None?
  {
    PropagationProof.MarkNothing(rewrite.tracker);
  }

  lemma FlushInStep(
      r: (Decision, Analysis), analysis: Analysis, rewrite: Rewrite, held: Held, defined: set<VarId>, base: VarId,
      op: Op, context: Context)
    requires InStep(analysis.tracker, rewrite, held, defined, base) && IsTerminator(op) && r.1 == Flushed(analysis)
    requires r.0 == Decision([All(analysis)], Copy, []) || r.0 == Decision([], Copy, All(analysis))
    ensures StaysInStep(r, analysis, rewrite, held, defined, base, op, context)
  {
    hide InStep, EmitOp, CarryOp, EmitMaterialization, WriteBack, ListOf, MarkStale, EmitAction;
    var list := All(analysis);
    PropagationProof.TerminatorEmits(rewrite, list, op, context);
    TerminatorCopied(EmitMaterialization(rewrite, list).1, op, context);
    StopCarries(held, op, context, analysis, list);
    WriteBackInStep(analysis.tracker, rewrite, held, defined, base, list);
  }

  lemma PlainInStep(
      analysis: Analysis, rewrite: Rewrite, held: Held, defined: set<VarId>, base: VarId, op: Op, context: Context)
    requires InStep(analysis.tracker, rewrite, held, defined, base) && DefinesNew(op, defined, base)
    requires TreeOf(analysis.tracker, op, context, analysis.values) == TreeOf(analysis.tracker, op, context, map[])
    requires Writes(op, context) == {}
    ensures
      var after := analysis.(tracker := RecordOp(analysis.tracker, op, context, analysis.values));
      StaysInStep((Just(Copy), after), analysis, rewrite, held, defined, base, op, context)
  {
    hide InStep, EmitOp, CarryOp, TreeOf, RecordOp, EmitAction, Uses, Carry, Writes, Dst;
    PropagationProof.JustEmits(rewrite, Copy, op, context);
    PropagationProof.MarkNothing(RecordOp(analysis.tracker, op, context, analysis.values));
    if IsTerminator(op) {
      TerminatorCopied(rewrite, op, context);
      StopCarries(held, op, context, analysis, []);
      PropagationProof.RecordsNothing(op, context, analysis.tracker, analysis.values);
    } else {
      JustCarries(held, Copy, op, context, analysis);
      CopyInStep(analysis.tracker, rewrite, held, defined, base, op, context, analysis.values);
    }
  }

  lemma AssignedInStep(
      analysis: Analysis, rewrite: Rewrite, held: Held, defined: set<VarId>, base: VarId, op: Op, context: Context,
      tree: Tree)
    requires InStep(analysis.tracker, rewrite, held, defined, base) && DefinesNew(op, defined, base) && Dst(op).Some?
    requires RecordOp(analysis.tracker, op, context, analysis.values) ==
             Record(analysis.tracker, Dst(op).value, Known(tree, false))
    ensures
      var after := analysis.(tracker := RecordOp(analysis.tracker, op, context, analysis.values));
      StaysInStep((Just(Assign(tree)), after), analysis, rewrite, held, defined, base, op, context)
  {
    hide InStep, EmitOp, CarryOp, TreeOf, RecordOp, EmitAction, Uses, Record, NeedParts;
    PropagationProof.JustEmits(rewrite, Assign(tree), op, context);
    JustCarries(held, Assign(tree), op, context, analysis);
    AssignInStep(analysis.tracker, rewrite, held, defined, base, op, context, tree);
  }

  lemma ReadInStep(
      analysis: Analysis, rewrite: Rewrite, held: Held, defined: set<VarId>, base: VarId, op: Op, context: Context)
    requires op.Get? || op.Address?
    requires InStep(analysis.tracker, rewrite, held, defined, base) && DefinesNew(op, defined, base)
    ensures StaysInStep(AnalyzeRead(analysis, op, context), analysis, rewrite, held, defined, base, op, context)
  {
    hide InStep, EmitOp, CarryOp, RecordOp, EmitAction, Uses, Record, StaysInStep, ValueForAddress, ListOf,
      RegsReadByAddress, AfterMaterializing;
    PropagationProof.WritesNothing(op, context);
    if op.Get? {
      var reg := RegisterOf(op.source, context);
      if reg.Some? && reg.value in analysis.values {
        GetRecords(analysis.tracker, op, reg.value, context, analysis.values);
        AssignedInStep(analysis, rewrite, held, defined, base, op, context, analysis.values[reg.value]);
      } else {
        PlainInStep(analysis, rewrite, held, defined, base, op, context);
      }
    } else {
      var known := ValueForAddress(op.operand, context, analysis.values);
      if known.Known? {
        AddressRecords(analysis.tracker, op, context, analysis.values);
        AssignedInStep(analysis, rewrite, held, defined, base, op, context, known.tree);
      } else {
        ScaledInStep(analysis, rewrite, held, defined, base, op, context);
      }
    }
  }

  lemma GetRecords(tracker: Tracker, op: Op, reg: Reg, context: Context, values: Values)
    requires op.Get? && RegisterOf(op.source, context) == Some(reg) && reg in values
    ensures RecordOp(tracker, op, context, values) == Record(tracker, op.dst, Known(values[reg], false))
  {
    hide Record;
  }

  lemma AddressRecords(tracker: Tracker, op: Op, context: Context, values: Values)
    requires op.Address? && ValueForAddress(op.operand, context, values).Known?
    ensures
      var known := ValueForAddress(op.operand, context, values);
      RecordOp(tracker, op, context, values) == Record(tracker, op.dst, Known(known.tree, false))
  {
    hide Record, Sum, AddressTerms;
  }

  /** One list written back, then the operation copied. */
  lemma OneListInStep(
      analysis: Analysis, after: Analysis, rewrite: Rewrite, held: Held, defined: set<VarId>, base: VarId, op: Op,
      context: Context, list: Materialization, values: Values)
    requires InStep(analysis.tracker, rewrite, held, defined, base) && DefinesNew(op, defined, base)
    requires !IsTerminator(op) && after.ok == analysis.ok
    requires
      var middle := MarkStale(analysis.tracker, Written(list));
      && TreeOf(analysis.tracker, op, context, analysis.values) == TreeOf(middle, op, context, values) ==
         TreeOf(middle, op, context, map[])
      && after.tracker == MarkStale(RecordOp(middle, op, context, values), Writes(op, context))
    ensures StaysInStep((Decision([list], Copy, []), after), analysis, rewrite, held, defined, base, op, context)
  {
    hide InStep, EmitOp, TreeOf, RecordOp, EmitAction, Uses, Carry, Writes, Dst, EmitMaterialization, WriteBack, MarkStale,
      Written, WriteBackAll, WithDst;
    PropagationProof.OneListEmits(rewrite, list, op, context);
    WriteBackOne(held, list);
    WriteBackInStep(analysis.tracker, rewrite, held, defined, base, list);
    var code, walk := EmitMaterialization(rewrite, list).1, WriteBack(held, list);
    CopyInStep(MarkStale(analysis.tracker, Written(list)), code, walk.held, defined, base, op, context, values);
  }

  lemma ScaledInStep(
      analysis: Analysis, rewrite: Rewrite, held: Held, defined: set<VarId>, base: VarId, op: Op, context: Context)
    requires op.Address? && ValueForAddress(op.operand, context, analysis.values).Unknown?
    requires InStep(analysis.tracker, rewrite, held, defined, base) && DefinesNew(op, defined, base)
    ensures StaysInStep(AnalyzeRead(analysis, op, context), analysis, rewrite, held, defined, base, op, context)
  {
    hide InStep, RecordOp, Uses, StaysInStep, ValueForAddress, ListOf, RegsReadByAddress, MarkStale, Written, Writes, DefinesNew;
    var regs := RegsReadByAddress(op.operand, context, analysis.values);
    var list, middle := ListOf(analysis.values, regs), AfterMaterializing(analysis, regs);
    PropagationProof.UnknownAddressStays(op, context, analysis.values, middle.values);
    PropagationProof.UnknownAddressStays(op, context, analysis.values, map[]);
    PropagationProof.WritesNothing(op, context);
    PropagationProof.MarkNothing(RecordOp(middle.tracker, op, context, middle.values));
    OneListInStep(analysis, middle.(tracker := RecordOp(middle.tracker, op, context, middle.values)), rewrite, held,
                  defined, base, op, context, list, middle.values);
  }

  lemma SetInStep(
      analysis: Analysis, rewrite: Rewrite, held: Held, defined: set<VarId>, base: VarId, op: Op, context: Context,
      exitNext: bool)
    requires op.Set? && InStep(analysis.tracker, rewrite, held, defined, base) && DefinesNew(op, defined, base)
    ensures StaysInStep(AnalyzeSet(analysis, op, context, exitNext), analysis, rewrite, held, defined, base, op, context)
  {
    hide InStep, Uses, StaysInStep, ListOf, MarkStale, Written, DefinesNew, Retains, ValueFor, Dependents;
    var reg := RegisterOf(op.target, context);
    if reg.None? {
      PropagationProof.RecordsNothing(op, context, analysis.tracker, analysis.values);
      PlainInStep(analysis, rewrite, held, defined, base, op, context);
    } else {
      var known := ValueFor(analysis.tracker, op.value);
      if Retains(known, reg.value, op.materialization, exitNext) {
        DropInStep(analysis, rewrite, held, defined, base, op, context, reg.value, exitNext);
      } else {
        var dependents := Dependents(analysis.values, reg.value);
        var list, middle := ListOf(analysis.values, dependents), AfterMaterializing(analysis, dependents);
        PropagationProof.WritesTarget(op, reg.value, context);
        PropagationProof.RecordsNothing(op, context, middle.tracker, map[]);
        OneListInStep(analysis, Clobber(middle, reg.value), rewrite, held, defined, base, op, context, list, map[]);
      }
    }
  }

  /** A write that is left out: the trees agree that it is not an old one. */
  lemma DropInStep(
      analysis: Analysis, rewrite: Rewrite, held: Held, defined: set<VarId>, base: VarId, op: Op, context: Context,
      reg: Reg, exitNext: bool)
    requires op.Set? && InStep(analysis.tracker, rewrite, held, defined, base)
    requires RegisterOf(op.target, context) == Some(reg)
    requires Retains(ValueFor(analysis.tracker, op.value), reg, op.materialization, exitNext)
    ensures StaysInStep(AnalyzeSet(analysis, op, context, exitNext), analysis, rewrite, held, defined, base, op, context)
  {
    hide InStep, EmitOp, CarryOp, ValueFor, ListOf, MarkStale;
    PropagationProof.JustEmits(rewrite, Drop, op, context);
    JustCarries(held, Drop, op, context, analysis);
  }

  lemma SetIfInStep(
      analysis: Analysis, rewrite: Rewrite, held: Held, defined: set<VarId>, base: VarId, op: Op, context: Context)
    requires op.SetIf? && InStep(analysis.tracker, rewrite, held, defined, base) && DefinesNew(op, defined, base)
    ensures StaysInStep(AnalyzeSetIf(analysis, op, context), analysis, rewrite, held, defined, base, op, context)
  {
    hide InStep, Uses, EmitOp, ListOf, MarkStale, Written, DefinesNew, Dependents, WriteBack, WriteBackAll, EmitMaterialization,
      EmitAction, Carry;
    var reg := RegisterOf(op.target, context);
    if reg.None? {
      PropagationProof.RecordsNothing(op, context, analysis.tracker, analysis.values);
      PlainInStep(analysis, rewrite, held, defined, base, op, context);
    } else {
      var middle := AfterMaterializing(analysis, {reg.value});
      var dependents := Dependents(middle.values, reg.value);
      var first, second := ListOf(analysis.values, {reg.value}), ListOf(middle.values, dependents);
      var one, two := WriteBack(held, first), WriteBack(WriteBack(held, first).held, second);
      PropagationProof.TwoListsEmit(rewrite, first, second, op, context);
      WriteBackTwo(held, first, second);
      WriteBackInStep(analysis.tracker, rewrite, held, defined, base, first);
      var code := EmitMaterialization(rewrite, first).1;
      WriteBackInStep(middle.tracker, code, one.held, defined, base, second);
      var last := AfterMaterializing(middle, dependents);
      PropagationProof.WritesTarget(op, reg.value, context);
      PropagationProof.RecordsNothing(op, context, last.tracker, map[]);
      CopyInStep(last.tracker, EmitMaterialization(code, second).1, two.held, defined, base, op, context, map[]);
    }
  }

  lemma OpInStep(
      analysis: Analysis, rewrite: Rewrite, held: Held, defined: set<VarId>, base: VarId, op: Op, context: Context,
      exitNext: bool, blockEnd: bool)
    requires InStep(analysis.tracker, rewrite, held, defined, base) && DefinesNew(op, defined, base)
    requires blockEnd ==> IsTerminator(op)
    ensures
      var here := AnalyzeOp(analysis, op, context, exitNext, blockEnd);
      StaysInStep(here, analysis, rewrite, held, defined, base, op, context)
  {
    hide InStep, Uses, StaysInStep, AnalyzeSet, AnalyzeSetIf, AnalyzeRead, All, Flushed, DefinesNew, RecordOp;
    if blockEnd || IsExit(op, context) {
      FlushInStep(AnalyzeOp(analysis, op, context, exitNext, blockEnd), analysis, rewrite, held, defined, base, op, context);
    } else if op.Get? || op.Address? {
      ReadInStep(analysis, rewrite, held, defined, base, op, context);
    } else if op.Set? {
      SetInStep(analysis, rewrite, held, defined, base, op, context, exitNext);
    } else if op.SetIf? {
      SetIfInStep(analysis, rewrite, held, defined, base, op, context);
    } else {
      PropagationProof.WritesNothing(op, context);
      PlainInStep(analysis, rewrite, held, defined, base, op, context);
    }
  }

  // ---------- instructions and blocks ----------

  lemma {:induction false} OpsInStep(
      ops: seq<Op>, context: Context, last: bool, analysis: Analysis, rewrite: Rewrite, held: Held,
      defined: set<VarId>, base: VarId)
    requires InStep(analysis.tracker, rewrite, held, defined, base)
    requires AssignsOnce(ops, defined) && DefinesBeforeUse(ops, defined) && PropagationProof.AssignsBelow(ops, base)
    ensures
      var analyzed := AnalyzeOps(ops, context, last, analysis);
      var code := EmitOps(rewrite, analyzed.0, ops, context).1;
      code.ok && analyzed.1.ok <==>
      rewrite.ok && analysis.ok && ReusesNothingStaleFrom(ops, context, last, analysis, held)
    decreases ops
  {
    hide InStep, AnalyzeOp, EmitOp, CarryOp, Uses, Dst;
    if ops != [] {
      var here := DecisionFor(ops, context, last, analysis);
      var code, walk := EmitOp(rewrite, here.0, ops[0], context).1, CarryOp(held, here.0, ops[0], context, analysis);
      assert ops[0] in ops;
      assert forall op <- ops[1..] :: op in ops;
      OpInStep(analysis, rewrite, held, defined, base, ops[0], context, ExitNext(ops, context),
               BlockEnd(ops, last) && !IsExit(ops[0], context));
      OpsInStep(ops[1..], context, last, here.1, code, walk.held, WithDst(defined, ops[0]), base);
      var later := AnalyzeOps(ops[1..], context, last, here.1);
      assert ([here.0] + later.0)[1..] == later.0;
    }
  }

  lemma NothingInStep(base: VarId)
    ensures InStep([], Rewrite([], base, true), map[], {}, base)
  {
  }

  /** What validation promises about variables. */
  predicate WellScoped(instruction: Instruction) {
    AssignsOnce(instruction.ops, {}) && DefinesBeforeUse(instruction.ops, {})
  }

  lemma EntryInStep(instruction: Instruction, values: Values)
    ensures
      var next, list := NextVarId(instruction.ops), EntryWriteBack(instruction, values);
      var code, flush := EmitMaterialization(Rewrite([], next, true), list).1, WriteBack(map[], list);
      && InStep(Entered(instruction, values).tracker, code, flush.held, {}, next) && (code.ok <==> flush.ok)
      && Entered(instruction, values).ok
  {
    hide InStep, ListOf, Written, EmitMaterialization, WriteBack;
    var next, list := NextVarId(instruction.ops), EntryWriteBack(instruction, values);
    NothingInStep(next);
    WriteBackInStep([], Rewrite([], next, true), map[], {}, next, list);
    assert MarkStale([], Written(list)) == [];
    assert Entered(instruction, values).tracker == [];
  }

  lemma InstructionInStep(instruction: Instruction, last: bool, values: Values)
    requires WellScoped(instruction)
    ensures
      var flush := WriteBack(map[], EntryWriteBack(instruction, values));
      PropagateInstruction(instruction, last, values).ok <==>
      flush.ok && ReusesNothingStaleFrom(instruction.ops, instruction.context, last, Entered(instruction, values), flush.held)
  {
    hide InStep, AnalyzeOps, EmitOps, EmitMaterialization, WriteBack, Entered, EntryWriteBack, ReusesNothingStaleFrom;
    var next, list := NextVarId(instruction.ops), EntryWriteBack(instruction, values);
    var code, flush := EmitMaterialization(Rewrite([], next, true), list).1, WriteBack(map[], list);
    EntryInStep(instruction, values);
    PropagationProof.NextVarIdIsAbove(instruction.ops);
    OpsInStep(instruction.ops, instruction.context, last, Entered(instruction, values), code, flush.held, {}, next);
  }

  /** The pass takes no tree from a variable computed before a write exactly when the walk over the block finds none. */
  lemma {:induction false} StaleReuseIsForeseen(block: Block, values: Values)
    requires forall instruction <- block :: WellScoped(instruction)
    ensures PropagateBlock(block, values).1 <==> ReusesNothingStale(block, values)
    decreases block
  {
    hide PropagateInstruction, WellScoped, WriteBack, EntryWriteBack, Entered, ValuesAfter, ReusesNothingStaleFrom;
    if block != [] {
      assert block[0] in block;
      assert forall instruction <- block[1..] :: instruction in block;
      InstructionInStep(block[0], |block| == 1, values);
      PropagationProof.SameValuesAfter(block[0], |block| == 1, values);
      StaleReuseIsForeseen(block[1..], ValuesAfter(block[0], |block| == 1, values));
    }
  }
}
