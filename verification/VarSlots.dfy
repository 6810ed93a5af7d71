/**
 Assigning variables to slots by a linear scan over their lifetimes. Variables that are live together get different
 slots, and no assignment could do with fewer.
 */
module VarSlots {
  import opened X86Types
  import opened Ir
  import opened Expressions

  // Positions count twice per operation: operation i reads at 2i and defines at 2i + 1.
  datatype Lifetime = Lifetime(id: VarId, start: nat, end: nat)

  // ---------- the scan ----------

  function LiveAt(lifetimes: seq<Lifetime>, position: nat): set<nat> {
    set k | 0 <= k < |lifetimes| && lifetimes[k].start <= position <= lifetimes[k].end
  }

  ghost predicate Ordered(lifetimes: seq<Lifetime>) {
    && (forall k | 0 <= k < |lifetimes| :: lifetimes[k].start <= lifetimes[k].end)
    && (forall j, k | 0 <= j < k < |lifetimes| :: lifetimes[j].start < lifetimes[k].start)
  }

  /** Lifetimes that overlap have different slots, all below the count. */
  ghost predicate Separates(lifetimes: seq<Lifetime>, slots: seq<nat>, count: nat) {
    && |slots| <= |lifetimes|
    && (forall k | 0 <= k < |slots| :: slots[k] < count)
    && (forall j, k | 0 <= j < k < |slots| && lifetimes[k].start <= lifetimes[j].end :: slots[j] != slots[k])
  }

  function SlotsOf(indices: set<nat>, slots: seq<nat>): set<nat> {
    set j <- indices | j < |slots| :: slots[j]
  }

  function Below(count: nat): (slots: set<nat>)
    ensures forall s: nat :: s in slots <==> s < count
  {
    if count == 0 then {} else Below(count - 1) + {count - 1}
  }

  lemma {:induction false} BelowSize(count: nat)
    ensures |Below(count)| == count
  {
    if count > 0 { BelowSize(count - 1); }
  }

  lemma {:induction false} ImageIsSmaller(indices: set<nat>, slots: seq<nat>)
    requires forall j <- indices :: j < |slots|
    ensures |SlotsOf(indices, slots)| <= |indices|
    decreases indices
  {
    if indices != {} {
      var j :| j in indices;
      ImageIsSmaller(indices - {j}, slots);
      assert SlotsOf(indices, slots) == SlotsOf(indices - {j}, slots) + {slots[j]};
    } else {
      assert SlotsOf(indices, slots) == {};
    }
  }

  lemma {:induction false} InjectiveImage(indices: set<nat>, slots: seq<nat>)
    requires forall j <- indices :: j < |slots|
    requires forall i <- indices, j <- indices :: i != j ==> slots[i] != slots[j]
    ensures |SlotsOf(indices, slots)| == |indices|
    decreases indices
  {
    if indices != {} {
      var j :| j in indices;
      InjectiveImage(indices - {j}, slots);
      assert SlotsOf(indices, slots) == SlotsOf(indices - {j}, slots) + {slots[j]};
    } else {
      assert SlotsOf(indices, slots) == {};
    }
  }

  lemma {:induction false} Subset(small: set<nat>, big: set<nat>)
    requires small <= big
    ensures |small| <= |big|
    decreases small
  {
    if small != {} {
      var x :| x in small;
      Subset(small - {x}, big - {x});
    }
  }

  /** Whatever the assignment, a slot count is at least the number of variables live together. */
  lemma EnoughSlots(lifetimes: seq<Lifetime>, slots: seq<nat>, count: nat, position: nat)
    requires Ordered(lifetimes) && Separates(lifetimes, slots, count) && |slots| == |lifetimes|
    ensures |LiveAt(lifetimes, position)| <= count
  {
    var live := LiveAt(lifetimes, position);
    forall i <- live, j <- live | i != j ensures slots[i] != slots[j] {
      var a, b := if i < j then i else j, if i < j then j else i;
      assert lifetimes[b].start <= lifetimes[a].end;
    }
    InjectiveImage(live, slots);
    Subset(SlotsOf(live, slots), Below(count));
    BelowSize(count);
  }

  /** What the scan keeps: the used slots are the free ones and those of the active lifetimes, each once. */
  ghost predicate Scanning(lifetimes: seq<Lifetime>, slots: seq<nat>, active: set<nat>, free: set<nat>, count: nat) {
    && (forall j <- active :: j < |slots|) && |slots| <= |lifetimes|
    && (forall i <- active, j <- active :: i != j ==> slots[i] != slots[j])
    && free !! SlotsOf(active, slots) && free + SlotsOf(active, slots) == Below(count)
  }

  /** Lifetimes that have left the active list ended before the position. */
  ghost predicate Expired(lifetimes: seq<Lifetime>, slots: seq<nat>, active: set<nat>, position: nat) {
    |slots| <= |lifetimes| && forall j | 0 <= j < |slots| :: j in active || lifetimes[j].end < position
  }

  ghost predicate Reached(lifetimes: seq<Lifetime>, count: nat) {
    count == 0 || exists k :: 0 <= k < |lifetimes| && |LiveAt(lifetimes, lifetimes[k].start)| >= count
  }

  /** Move the slots of lifetimes that have ended to the free ones. */
  method ExpireSlots(lifetimes: seq<Lifetime>, slots: seq<nat>, active: set<nat>, free: set<nat>, position: nat, ghost count: nat)
    returns (stillActive: set<nat>, freeSlots: set<nat>)
    requires Scanning(lifetimes, slots, active, free, count)
    ensures Scanning(lifetimes, slots, stillActive, freeSlots, count)
    ensures stillActive == set j | j in active && lifetimes[j].end >= position
  {
    stillActive, freeSlots := {}, free;
    var rest := active;
    while rest != {}
      invariant rest <= active && stillActive == set j | j in active && j !in rest && lifetimes[j].end >= position
      invariant Scanning(lifetimes, slots, rest + stillActive, freeSlots, count)
      decreases rest
    {
      var j :| j in rest;
      if lifetimes[j].end < position {
        assert SlotsOf(rest + stillActive, slots) == SlotsOf(rest - {j} + stillActive, slots) + {slots[j]};
        freeSlots := freeSlots + {slots[j]};
        assert slots[j] !in SlotsOf(rest - {j} + stillActive, slots);
      } else {
        assert rest + stillActive == rest - {j} + (stillActive + {j});
        stillActive := stillActive + {j};
      }
      rest := rest - {j};
    }
    assert {} + stillActive == stillActive;
  }

  /** The lowest free slot, if there is one. */
  method Lowest(free: set<nat>) returns (slot: Option<nat>)
    ensures slot.None? <==> free == {}
    ensures slot.Some? ==> slot.value in free && forall s <- free :: slot.value <= s
  {
    slot := None;
    var rest := free;
    while rest != {}
      invariant rest <= free && (slot.None? <==> rest == free)
      invariant slot.Some? ==> slot.value in free && forall s <- free - rest :: slot.value <= s
      decreases rest
    {
      var s :| s in rest;
      assert free - (rest - {s}) == free - rest + {s};
      if slot.None? || s < slot.value {
        slot := Some(s);
      }
      rest := rest - {s};
    }
    assert free - {} == free;
  }

  lemma TakeSlot(
      lifetimes: seq<Lifetime>, slots: seq<nat>, active: set<nat>, free: set<nat>, count: nat, slot: nat, grown: nat)
    requires Scanning(lifetimes, slots, active, free, count) && |slots| < |lifetimes|
    requires (slot in free && grown == count) || (free == {} && slot == count && grown == count + 1)
    ensures Scanning(lifetimes, slots + [slot], active + {|slots|}, free - {slot}, grown)
  {
    hide SlotsOf, Below;
    SlotTaken(active, slots, slot);
    SlotUnused(lifetimes, slots, active, free, count, slot);
    BelowGrows(count);
    assert free - {slot} + (SlotsOf(active, slots) + {slot}) == Below(grown);
  }

  lemma SlotUnused(lifetimes: seq<Lifetime>, slots: seq<nat>, active: set<nat>, free: set<nat>, count: nat, slot: nat)
    requires Scanning(lifetimes, slots, active, free, count) && (slot in free || slot == count)
    ensures slot !in SlotsOf(active, slots) && forall j <- active :: slots[j] != slot
  {
    hide SlotsOf;
    assert count !in Below(count);
    assert slot !in SlotsOf(active, slots);
    OwnSlots(active, slots);
  }

  lemma SlotTaken(active: set<nat>, slots: seq<nat>, slot: nat)
    requires forall j <- active :: j < |slots|
    ensures SlotsOf(active + {|slots|}, slots + [slot]) == SlotsOf(active, slots) + {slot}
  {
  }

  lemma BelowGrows(count: nat)
    ensures Below(count + 1) == Below(count) + {count}
  {
  }

  lemma OwnSlots(active: set<nat>, slots: seq<nat>)
    requires forall j <- active :: j < |slots|
    ensures forall j <- active :: slots[j] in SlotsOf(active, slots)
  {
  }

  lemma StillSeparate(lifetimes: seq<Lifetime>, slots: seq<nat>, active: set<nat>, free: set<nat>, count: nat, slot: nat, grown: nat)
    requires Scanning(lifetimes, slots, active, free, count) && |slots| < |lifetimes|
    requires Separates(lifetimes, slots, count) && Expired(lifetimes, slots, active, lifetimes[|slots|].start)
    requires (slot in free && grown == count) || (free == {} && slot == count && grown == count + 1)
    ensures Separates(lifetimes, slots + [slot], grown)
  {
    var k := |slots|;
    forall j | 0 <= j < k && lifetimes[k].start <= lifetimes[j].end ensures slots[j] != slot {
      assert j in active && slots[j] in SlotsOf(active, slots);
    }
    if slot in free { assert slot in Below(count); }
  }

  /** A new slot is only taken when all earlier ones are occupied by lifetimes that overlap the new one. */
  lemma Crowded(lifetimes: seq<Lifetime>, slots: seq<nat>, active: set<nat>, count: nat)
    requires Ordered(lifetimes) && Scanning(lifetimes, slots, active, {}, count) && |slots| < |lifetimes|
    requires forall j <- active :: lifetimes[j].end >= lifetimes[|slots|].start
    ensures |LiveAt(lifetimes, lifetimes[|slots|].start)| >= count + 1
  {
    var k := |slots|;
    assert SlotsOf(active, slots) == Below(count);
    ImageIsSmaller(active, slots);
    BelowSize(count);
    Subset(active + {k}, LiveAt(lifetimes, lifetimes[k].start));
  }

  method AssignSlots(lifetimes: seq<Lifetime>) returns (slots: seq<nat>, slotCount: nat)
    requires Ordered(lifetimes)
    ensures |slots| == |lifetimes| && Separates(lifetimes, slots, slotCount)
    ensures Reached(lifetimes, slotCount)
  {
    hide Scanning, Separates, Reached, LiveAt, Expired;
    slots, slotCount := [], 0;
    var active: set<nat>, free: set<nat> := {}, {};
    Starts(lifetimes);
    for k := 0 to |lifetimes|
      invariant |slots| == k && Scanning(lifetimes, slots, active, free, slotCount)
      invariant Separates(lifetimes, slots, slotCount) && Reached(lifetimes, slotCount)
      invariant Expired(lifetimes, slots, active, if k == 0 then 0 else lifetimes[k - 1].start)
    {
      ghost var before := active;
      active, free := ExpireSlots(lifetimes, slots, active, free, lifetimes[k].start, slotCount);
      StillExpired(lifetimes, slots, before, active, k);
      var reusable := Lowest(free);
      var slot := if reusable.Some? then reusable.value else slotCount;
      var grown := if reusable.Some? then slotCount else slotCount + 1;
      if reusable.None? {
        Crowded(lifetimes, slots, active, slotCount);
        Grows(lifetimes, k, grown);
      }
      StillSeparate(lifetimes, slots, active, free, slotCount, slot, grown);
      TakeSlot(lifetimes, slots, active, free, slotCount, slot, grown);
      OneMore(lifetimes, slots, active, k, slot);
      slots, active, free, slotCount := slots + [slot], active + {k}, free - {slot}, grown;
    }
  }

  lemma Starts(lifetimes: seq<Lifetime>)
    ensures Scanning(lifetimes, [], {}, {}, 0) && Separates(lifetimes, [], 0) && Reached(lifetimes, 0)
    ensures Expired(lifetimes, [], {}, 0)
  {
    assert SlotsOf({}, []) == {} && Below(0) == {};
  }

  lemma StillExpired(lifetimes: seq<Lifetime>, slots: seq<nat>, before: set<nat>, active: set<nat>, k: nat)
    requires Ordered(lifetimes) && k < |lifetimes| && |slots| == k
    requires Expired(lifetimes, slots, before, if k == 0 then 0 else lifetimes[k - 1].start)
    requires active == set j | j in before && j < |lifetimes| && lifetimes[j].end >= lifetimes[k].start
    ensures Expired(lifetimes, slots, active, lifetimes[k].start)
  {
  }

  lemma Grows(lifetimes: seq<Lifetime>, k: nat, count: nat)
    requires k < |lifetimes| && |LiveAt(lifetimes, lifetimes[k].start)| >= count
    ensures Reached(lifetimes, count)
  {
  }

  lemma OneMore(lifetimes: seq<Lifetime>, slots: seq<nat>, active: set<nat>, k: nat, slot: nat)
    requires k < |lifetimes| && |slots| == k && Expired(lifetimes, slots, active, lifetimes[k].start)
    ensures Expired(lifetimes, slots + [slot], active + {k}, lifetimes[k].start)
  {
  }

  /** The slot count is the largest number of variables that are live at the same position. */
  lemma SlotCountIsOptimal(lifetimes: seq<Lifetime>, slots: seq<nat>, count: nat)
    requires Ordered(lifetimes) && Separates(lifetimes, slots, count) && |slots| == |lifetimes| && Reached(lifetimes, count)
    ensures forall position: nat :: |LiveAt(lifetimes, position)| <= count
    ensures count > 0 ==> exists position: nat :: |LiveAt(lifetimes, position)| == count
    ensures forall other, fewer | |other| == |lifetimes| && Separates(lifetimes, other, fewer) :: count <= fewer
  {
    forall position: nat ensures |LiveAt(lifetimes, position)| <= count {
      EnoughSlots(lifetimes, slots, count, position);
    }
    if count > 0 {
      var k :| 0 <= k < |lifetimes| && |LiveAt(lifetimes, lifetimes[k].start)| >= count;
      assert |LiveAt(lifetimes, lifetimes[k].start)| == count;
      forall other, fewer | |other| == |lifetimes| && Separates(lifetimes, other, fewer) ensures count <= fewer {
        EnoughSlots(lifetimes, other, fewer, lifetimes[k].start);
      }
    }
  }

  // ---------- which variables an operation reads ----------

  function ExprVars(expr: Expr): set<VarId> {
    match expr
    case Ref(value) => Vars(value)
    case Source(MemExpr(address), _, _) => ExprVars(address)
    case Source(_, _, _) => {}
    case ProducerTest(cc, producer, width, inputs) => Uses(ProducerCondition(0, cc, producer, width, inputs))
    case BinaryExpr(_, a, b) => ExprVars(a) + ExprVars(b)
    case UnaryExpr(_, a) => ExprVars(a)
    case _ => {}
  }

  function PlaceVars(storage: StorageExpr): set<VarId> {
    if storage.MemExpr? then ExprVars(storage.address) else {}
  }

  function OpReads(op: ExprOp): set<VarId> {
    match op
    case Let(_, value) => ExprVars(value)
    case SetExpr(target, value, _, _) => PlaceVars(target) + ExprVars(value)
    case SetIfExpr(condition, target, value, _) => ExprVars(condition) + PlaceVars(target) + ExprVars(value)
    case PlainOp(plain) => Uses(plain)
    case JumpExpr(target) => ExprVars(target)
    case ConditionalJumpExpr(condition, taken, notTaken) => ExprVars(condition) + ExprVars(taken) + ExprVars(notTaken)
    case HostTrapExpr(vector) => ExprVars(vector)
  }

  function Defined(op: ExprOp): Option<VarId> {
    if op.Let? then Some(op.dst) else None
  }

  /** Only lets define variables. */
  predicate LetsDefine(ops: seq<ExprOp>) {
    forall op <- ops :: op.PlainOp? ==> Dst(op.op).None?
  }

  lemma {:induction false} SameExpr(expr: Expr, context: Context, m: Machine, vars: map<VarId, Word>)
    requires AgreeOn(m.vars, vars, ExprVars(expr)) && EvalExpr(expr, context, m).Some?
    ensures EvalExpr(expr, context, m.(vars := vars)) == EvalExpr(expr, context, m)
  {
    hide EvalBinary, EvalUnary, PureResult;
    match expr
    case Source(storage, width, signed) => SameSource(expr, context, m, vars);
    case AddressOf(operand) => SamePure(Address(0, operand), context, m, vars);
    case FlagsTest(cc) => SamePure(FlagsCondition(0, cc), context, m, vars);
    case ProducerTest(cc, producer, width, inputs) =>
      SamePure(ProducerCondition(0, cc, producer, width, inputs), context, m, vars);
    case BinaryExpr(_, a, b) =>
      SameExpr(a, context, m, vars);
      SameExpr(b, context, m, vars);
    case UnaryExpr(_, a) => SameExpr(a, context, m, vars);
    case Ref(_) =>
  }

  lemma SameSource(expr: Expr, context: Context, m: Machine, vars: map<VarId, Word>)
    requires expr.Source? && EvalExpr(expr, context, m).Some?
    ensures EvalExpr(expr, context, m.(vars := vars)) == EvalExpr(expr, context, m)
  {
    hide ReadAlias, Mask32, Extended;
  }

  lemma SameResolve(storage: StorageExpr, context: Context, m: Machine, vars: map<VarId, Word>)
    requires AgreeOn(m.vars, vars, PlaceVars(storage)) && Resolve(storage, context, m).Some?
    ensures Resolve(storage, context, m.(vars := vars)) == Resolve(storage, context, m)
    ensures StorageVars(Resolve(storage, context, m).value) == {}
  {
    if storage.MemExpr? { SameExpr(storage.address, context, m, vars); }
  }

  /** The same step seen with other variables; a let gives its variable the same value. */
  ghost predicate SameExprStep(op: ExprOp, step: Outcome, other: Outcome, vars: map<VarId, Word>) {
    match step
    case Running(n) =>
      if op.Let? then op.dst in n.vars && other == Running(n.(vars := vars[op.dst := n.vars[op.dst]]))
      else other == Running(n.(vars := vars))
    case Completed(n) => other == Completed(n.(vars := vars))
    case _ => other == step
  }

  lemma SameLet(op: ExprOp, context: Context, m: Machine, vars: map<VarId, Word>)
    requires op.Let? && AgreeOn(m.vars, vars, OpReads(op)) && StepExpr(op, context, m) != Stuck
    ensures SameExprStep(op, StepExpr(op, context, m), StepExpr(op, context, m.(vars := vars)), vars)
  {
    hide Step, EvalExpr, ExprVars, Resolve;
    match op.value
    case Source(storage, width, signed) =>
      SourceVars(storage, width, signed);
      SameResolve(storage, context, m, vars);
      StepReadsItsUses(Get(op.dst, Resolve(storage, context, m).value, width, signed), context, m, vars);
    case _ => SameExpr(op.value, context, m, vars);
  }

  lemma SourceVars(storage: StorageExpr, width: Width, signed: bool)
    ensures ExprVars(Source(storage, width, signed)) == PlaceVars(storage)
  {
  }

  /** An operation of the expression block depends only on the variables it reads. */
  lemma ExprStepReadsItsVars(op: ExprOp, context: Context, m: Machine, vars: map<VarId, Word>)
    requires AgreeOn(m.vars, vars, OpReads(op)) && StepExpr(op, context, m) != Stuck
    requires op.PlainOp? ==> Dst(op.op).None?
    ensures SameExprStep(op, StepExpr(op, context, m), StepExpr(op, context, m.(vars := vars)), vars)
  {
    hide Step, EvalExpr, ExprVars, Resolve, PlaceVars, StorageVars;
    match op
    case Let(_, _) => SameLet(op, context, m, vars);
    case SetExpr(target, value, width, role) =>
      SameResolve(target, context, m, vars);
      SameExpr(value, context, m, vars);
      StepReadsItsUses(Set(Resolve(target, context, m).value, Const(EvalExpr(value, context, m).value), width, role), context, m, vars);
    case SetIfExpr(condition, target, value, width) =>
      SameResolve(target, context, m, vars);
      SameExpr(condition, context, m, vars);
      SameExpr(value, context, m, vars);
      StepReadsItsUses(SetIf(Const(EvalExpr(condition, context, m).value), Resolve(target, context, m).value,
                             Const(EvalExpr(value, context, m).value), width), context, m, vars);
    case PlainOp(plain) => StepReadsItsUses(plain, context, m, vars);
    case JumpExpr(target) =>
      SameExpr(target, context, m, vars);
      StepReadsItsUses(Jump(Const(EvalExpr(target, context, m).value)), context, m, vars);
    case ConditionalJumpExpr(c, t, f) =>
      SameExpr(c, context, m, vars);
      SameExpr(t, context, m, vars);
      SameExpr(f, context, m, vars);
      StepReadsItsUses(ConditionalJump(Const(EvalExpr(c, context, m).value), Const(EvalExpr(t, context, m).value),
                                       Const(EvalExpr(f, context, m).value)), context, m, vars);
    case HostTrapExpr(vector) =>
      SameExpr(vector, context, m, vars);
      StepReadsItsUses(HostTrap(Const(EvalExpr(vector, context, m).value)), context, m, vars);
  }

  // ---------- lifetimes ----------

  /** Each lifetime belongs to one let, starts there and ends at the last read. */
  ghost predicate LifetimeOf(ops: seq<ExprOp>, count: nat, lifetime: Lifetime)
    requires count <= |ops|
  {
    && (exists i: nat :: i < count && Defined(ops[i]) == Some(lifetime.id) && lifetime.start == 2 * i + 1)
    && lifetime.start <= lifetime.end
    && (lifetime.end == lifetime.start ||
        exists j: nat :: j < count && lifetime.id in OpReads(ops[j]) && lifetime.end == 2 * j)
  }

  ghost predicate HasLifetime(lifetimes: seq<Lifetime>, id: VarId, start: nat) {
    exists k :: 0 <= k < |lifetimes| && lifetimes[k].id == id && lifetimes[k].start == start
  }

  ghost predicate CoversRead(lifetimes: seq<Lifetime>, id: VarId, position: nat) {
    exists k :: 0 <= k < |lifetimes| && lifetimes[k].id == id && lifetimes[k].start < position <= lifetimes[k].end
  }

  ghost predicate UniqueIds(lifetimes: seq<Lifetime>) {
    forall j, k | 0 <= j < k < |lifetimes| :: lifetimes[j].id != lifetimes[k].id
  }

  /** The lifetimes of the first operations. */
  ghost predicate Lifetimes(ops: seq<ExprOp>, count: nat, lifetimes: seq<Lifetime>)
    requires count <= |ops|
  {
    && Ordered(lifetimes) && UniqueIds(lifetimes)
    && (forall k | 0 <= k < |lifetimes| :: LifetimeOf(ops, count, lifetimes[k]))
    && (forall i: nat | i < count && ops[i].Let? :: HasLifetime(lifetimes, ops[i].dst, 2 * i + 1))
    && (forall j: nat | j < count :: forall id <- OpReads(ops[j]) :: CoversRead(lifetimes, id, 2 * j))
  }

  ghost predicate Indexed(lifetimes: seq<Lifetime>, index: map<VarId, nat>) {
    && (forall id <- index :: index[id] < |lifetimes| && lifetimes[index[id]].id == id)
    && (forall k | 0 <= k < |lifetimes| :: lifetimes[k].id in index && index[lifetimes[k].id] == k)
  }

  function Prolonged(lifetime: Lifetime, position: nat): Lifetime {
    lifetime.(end := if position > lifetime.end then position else lifetime.end)
  }

  /** Part-way through the reads of operation j. */
  ghost predicate Reading(ops: seq<ExprOp>, j: nat, lifetimes: seq<Lifetime>, rest: set<VarId>)
    requires j < |ops|
  {
    && Ordered(lifetimes) && UniqueIds(lifetimes)
    && (forall k | 0 <= k < |lifetimes| :: LifetimeOf(ops, j + 1, lifetimes[k]) && lifetimes[k].start < 2 * j)
    && (forall i: nat | i < j && ops[i].Let? :: HasLifetime(lifetimes, ops[i].dst, 2 * i + 1))
    && (forall i: nat | i < j :: forall id <- OpReads(ops[i]) :: CoversRead(lifetimes, id, 2 * i))
    && (forall id <- OpReads(ops[j]) - rest :: CoversRead(lifetimes, id, 2 * j))
  }

  lemma ReadingStarts(ops: seq<ExprOp>, j: nat, lifetimes: seq<Lifetime>)
    requires j < |ops| && Lifetimes(ops, j, lifetimes)
    ensures Reading(ops, j, lifetimes, OpReads(ops[j]))
  {
    hide OpReads;
    forall k | 0 <= k < |lifetimes| ensures LifetimeOf(ops, j + 1, lifetimes[k]) && lifetimes[k].start < 2 * j {
      assert LifetimeOf(ops, j, lifetimes[k]);
    }
  }

  lemma ProlongRead(lifetimes: seq<Lifetime>, k: nat, position: nat, id: VarId, read: nat)
    requires k < |lifetimes| && CoversRead(lifetimes, id, read)
    ensures CoversRead(lifetimes[k := Prolonged(lifetimes[k], position)], id, read)
  {
    var after := lifetimes[k := Prolonged(lifetimes[k], position)];
    var i :| 0 <= i < |lifetimes| && lifetimes[i].id == id && lifetimes[i].start < read <= lifetimes[i].end;
    assert after[i].id == id && after[i].start < read <= after[i].end;
  }

  lemma ProlongHas(lifetimes: seq<Lifetime>, k: nat, position: nat, id: VarId, start: nat)
    requires k < |lifetimes| && HasLifetime(lifetimes, id, start)
    ensures HasLifetime(lifetimes[k := Prolonged(lifetimes[k], position)], id, start)
  {
    var after := lifetimes[k := Prolonged(lifetimes[k], position)];
    var i :| 0 <= i < |lifetimes| && lifetimes[i].id == id && lifetimes[i].start == start;
    assert after[i].id == id && after[i].start == start;
  }

  lemma ReadingMore(ops: seq<ExprOp>, j: nat, lifetimes: seq<Lifetime>, rest: set<VarId>, id: VarId, k: nat)
    requires j < |ops| && Reading(ops, j, lifetimes, rest) && id in rest && rest <= OpReads(ops[j])
    requires k < |lifetimes| && lifetimes[k].id == id
    ensures Reading(ops, j, lifetimes[k := Prolonged(lifetimes[k], 2 * j)], rest - {id})
  {
    hide OpReads, CoversRead, HasLifetime;
    var after := lifetimes[k := Prolonged(lifetimes[k], 2 * j)];
    assert LifetimeOf(ops, j + 1, after[k]) by { assert LifetimeOf(ops, j + 1, lifetimes[k]); assert id in OpReads(ops[j]); }
    forall i: nat | i < j && ops[i].Let? ensures HasLifetime(after, ops[i].dst, 2 * i + 1) {
      ProlongHas(lifetimes, k, 2 * j, ops[i].dst, 2 * i + 1);
    }
    forall i: nat, x | i < j && x in OpReads(ops[i]) ensures CoversRead(after, x, 2 * i) {
      ProlongRead(lifetimes, k, 2 * j, x, 2 * i);
    }
    forall x | x in OpReads(ops[j]) - (rest - {id}) ensures CoversRead(after, x, 2 * j) {
      if x == id { Covered(after, k, 2 * j); } else { ProlongRead(lifetimes, k, 2 * j, x, 2 * j); }
    }
  }

  lemma Covered(lifetimes: seq<Lifetime>, k: nat, position: nat)
    requires k < |lifetimes| && lifetimes[k].start < position <= lifetimes[k].end
    ensures CoversRead(lifetimes, lifetimes[k].id, position)
  {
  }

  lemma ReadingEnds(ops: seq<ExprOp>, j: nat, lifetimes: seq<Lifetime>)
    requires j < |ops| && Reading(ops, j, lifetimes, {})
    ensures !ops[j].Let? ==> Lifetimes(ops, j + 1, lifetimes)
    ensures ops[j].Let? && (forall k | 0 <= k < |lifetimes| :: lifetimes[k].id != ops[j].dst) ==>
              Lifetimes(ops, j + 1, lifetimes + [Lifetime(ops[j].dst, 2 * j + 1, 2 * j + 1)])
  {
    hide OpReads, CoversRead, HasLifetime, LifetimeOf;
    if ops[j].Let? && forall k | 0 <= k < |lifetimes| :: lifetimes[k].id != ops[j].dst {
      var last := Lifetime(ops[j].dst, 2 * j + 1, 2 * j + 1);
      var after := lifetimes + [last];
      NewLifetime(ops, j, last);
      forall k | 0 <= k < |after| ensures LifetimeOf(ops, j + 1, after[k]) {}
      forall i: nat | i < j + 1 && ops[i].Let? ensures HasLifetime(after, ops[i].dst, 2 * i + 1) {
        if i < j { HasMore(lifetimes, last, ops[i].dst, 2 * i + 1); } else { HasLast(lifetimes, last); }
      }
      forall i: nat, x | i < j + 1 && x in OpReads(ops[i]) ensures CoversRead(after, x, 2 * i) {
        if i == j { assert x in OpReads(ops[j]) - {}; }
        CoversMore(lifetimes, last, x, 2 * i);
      }
    } else {
      forall i: nat, x | i < j + 1 && x in OpReads(ops[i]) ensures CoversRead(lifetimes, x, 2 * i) {
        if i == j { assert x in OpReads(ops[j]) - {}; }
      }
    }
  }

  lemma NewLifetime(ops: seq<ExprOp>, j: nat, lifetime: Lifetime)
    requires j < |ops| && ops[j].Let? && lifetime == Lifetime(ops[j].dst, 2 * j + 1, 2 * j + 1)
    ensures LifetimeOf(ops, j + 1, lifetime)
  {
    assert Defined(ops[j]) == Some(lifetime.id);
  }

  lemma HasMore(lifetimes: seq<Lifetime>, last: Lifetime, id: VarId, start: nat)
    requires HasLifetime(lifetimes, id, start)
    ensures HasLifetime(lifetimes + [last], id, start)
  {
    var k :| 0 <= k < |lifetimes| && lifetimes[k].id == id && lifetimes[k].start == start;
    assert (lifetimes + [last])[k] == lifetimes[k];
  }

  lemma HasLast(lifetimes: seq<Lifetime>, last: Lifetime)
    ensures HasLifetime(lifetimes + [last], last.id, last.start)
  {
    assert (lifetimes + [last])[|lifetimes|] == last;
  }

  lemma CoversMore(lifetimes: seq<Lifetime>, last: Lifetime, id: VarId, position: nat)
    requires CoversRead(lifetimes, id, position)
    ensures CoversRead(lifetimes + [last], id, position)
  {
    var k :| 0 <= k < |lifetimes| && lifetimes[k].id == id && lifetimes[k].start < position <= lifetimes[k].end;
    assert (lifetimes + [last])[k] == lifetimes[k];
  }

  /** Prolong the lifetime of every variable an operation reads; a variable read before its definition is an error. */
  method ExtendLifetimes(ops: seq<ExprOp>, j: nat, lifetimes: seq<Lifetime>, index: map<VarId, nat>)
    returns (after: Option<seq<Lifetime>>)
    requires j < |ops| && Lifetimes(ops, j, lifetimes) && Indexed(lifetimes, index)
    ensures after.Some? <==> OpReads(ops[j]) <= index.Keys
    ensures after.Some? ==> Reading(ops, j, after.value, {}) && Indexed(after.value, index)
  {
    hide Reading, OpReads;
    var rest := OpReads(ops[j]);
    var updated := lifetimes;
    ReadingStarts(ops, j, lifetimes);
    while rest != {}
      invariant rest <= OpReads(ops[j]) && OpReads(ops[j]) - rest <= index.Keys
      invariant Reading(ops, j, updated, rest) && Indexed(updated, index)
      decreases rest
    {
      var id :| id in rest;
      if id !in index {
        return None;
      }
      ReadingMore(ops, j, updated, rest, id, index[id]);
      updated := updated[index[id] := Prolonged(updated[index[id]], 2 * j)];
      rest := rest - {id};
    }
    after := Some(updated);
  }

  /** Every read comes after the definition, and nothing is defined twice. */
  ghost predicate DefinedBefore(ops: seq<ExprOp>, count: nat, id: VarId)
    requires count <= |ops|
  {
    exists i: nat :: i < count && Defined(ops[i]) == Some(id)
  }

  ghost predicate WellScoped(ops: seq<ExprOp>, count: nat)
    requires count <= |ops|
  {
    forall j: nat | j < count ::
      && (forall id <- OpReads(ops[j]) :: DefinedBefore(ops, j, id))
      && (ops[j].Let? ==> !DefinedBefore(ops, j, ops[j].dst))
  }

  lemma IndexIsDefined(ops: seq<ExprOp>, count: nat, lifetimes: seq<Lifetime>, index: map<VarId, nat>, id: VarId)
    requires count <= |ops| && Lifetimes(ops, count, lifetimes) && Indexed(lifetimes, index)
    ensures id in index <==> DefinedBefore(ops, count, id)
  {
    hide OpReads;
    if id in index {
      assert LifetimeOf(ops, count, lifetimes[index[id]]);
    }
    if DefinedBefore(ops, count, id) {
      var i: nat :| i < count && Defined(ops[i]) == Some(id);
      assert ops[i].Let? && HasLifetime(lifetimes, ops[i].dst, 2 * i + 1);
    }
  }

  method CollectVarLifetimes(ops: seq<ExprOp>) returns (result: Option<seq<Lifetime>>)
    ensures result.Some? <==> WellScoped(ops, |ops|)
    ensures result.Some? ==> Lifetimes(ops, |ops|, result.value)
  {
    hide Lifetimes, OpReads, Reading;
    var lifetimes: seq<Lifetime>, index: map<VarId, nat> := [], map[];
    NoLifetimes(ops);
    for j := 0 to |ops|
      invariant Lifetimes(ops, j, lifetimes) && Indexed(lifetimes, index)
      invariant WellScoped(ops, j)
    {
      forall id ensures id in index <==> DefinedBefore(ops, j, id) { IndexIsDefined(ops, j, lifetimes, index, id); }
      var extended := ExtendLifetimes(ops, j, lifetimes, index);
      if extended.None? {
        return None;
      }
      lifetimes := extended.value;
      ReadingEnds(ops, j, lifetimes);
      if ops[j].Let? {
        if ops[j].dst in index {
          return None;
        }
        index := index[ops[j].dst := |lifetimes|];
        lifetimes := lifetimes + [Lifetime(ops[j].dst, 2 * j + 1, 2 * j + 1)];
      }
    }
    result := Some(lifetimes);
  }

  lemma NoLifetimes(ops: seq<ExprOp>)
    ensures Lifetimes(ops, 0, [])
  {
  }

  // ---------- running with slots ----------

  /** The variables as the slots show them. */
  function ViewVars(slotOf: map<VarId, nat>, values: map<nat, Word>): map<VarId, Word> {
    map id <- slotOf | slotOf[id] in values :: values[slotOf[id]]
  }

  function RunInSlots(ops: seq<ExprOp>, context: Context, slotOf: map<VarId, nat>, m: Machine, values: map<nat, Word>)
    : (outcome: Outcome)
    ensures !outcome.Running?
    decreases ops
  {
    if ops == [] then Stuck
    else
      var step := StepExpr(ops[0], context, m.(vars := ViewVars(slotOf, values)));
      if !step.Running? then step
      else if ops[0].Let? && ops[0].dst in step.m.vars && ops[0].dst in slotOf then
        RunInSlots(ops[1..], context, slotOf, step.m, values[slotOf[ops[0].dst] := step.m.vars[ops[0].dst]])
      else RunInSlots(ops[1..], context, slotOf, step.m, values)
  }

  function SlotOf(lifetimes: seq<Lifetime>, slots: seq<nat>): map<VarId, nat>
    requires |slots| == |lifetimes|
  {
    if lifetimes == [] then map[]
    else SlotOf(lifetimes[1..], slots[1..])[lifetimes[0].id := slots[0]]
  }

  lemma {:induction false} SlotOfAt(lifetimes: seq<Lifetime>, slots: seq<nat>, k: nat)
    requires |slots| == |lifetimes| && UniqueIds(lifetimes) && k < |lifetimes|
    ensures lifetimes[k].id in SlotOf(lifetimes, slots) && SlotOf(lifetimes, slots)[lifetimes[k].id] == slots[k]
  {
    if k > 0 {
      var rest := lifetimes[1..];
      forall i, j | 0 <= i < j < |rest| ensures rest[i].id != rest[j].id {
        assert rest[i] == lifetimes[i + 1] && rest[j] == lifetimes[j + 1];
      }
      assert lifetimes[0].id != lifetimes[k].id;
      SlotOfAt(lifetimes[1..], slots[1..], k - 1);
    }
  }

  /** An assignment whose slots keep variables apart while they are live. */
  ghost predicate Assigned(ops: seq<ExprOp>, lifetimes: seq<Lifetime>, slots: seq<nat>, count: nat) {
    Lifetimes(ops, |ops|, lifetimes) && |slots| == |lifetimes| && Separates(lifetimes, slots, count)
  }

  lemma OneSlotEach(ops: seq<ExprOp>, lifetimes: seq<Lifetime>, slots: seq<nat>, count: nat)
    requires Assigned(ops, lifetimes, slots, count)
    ensures |slots| == |lifetimes|
  {
  }

  ghost predicate ReadLater(ops: seq<ExprOp>, j: nat, id: VarId)
    requires j <= |ops|
  {
    exists i: nat :: j <= i < |ops| && id in OpReads(ops[i])
  }

  /** Variables defined so far and still to be read sit in their slots. */
  ghost predicate SlotsHold(
      ops: seq<ExprOp>, j: nat, slotOf: map<VarId, nat>, vars: map<VarId, Word>, values: map<nat, Word>)
    requires j <= |ops|
  {
    forall id <- vars :: ReadLater(ops, j, id) ==>
      id in slotOf && slotOf[id] in values && values[slotOf[id]] == vars[id]
  }

  ghost predicate OnlyDefined(ops: seq<ExprOp>, j: nat, vars: map<VarId, Word>)
    requires j <= |ops|
  {
    forall id <- vars :: DefinedBefore(ops, j, id)
  }

  /** A variable still to be read does not share its slot with the one being defined. */
  lemma KeepsApart(
      ops: seq<ExprOp>, lifetimes: seq<Lifetime>, slots: seq<nat>, count: nat, j: nat, id: VarId)
    requires Assigned(ops, lifetimes, slots, count) && j < |ops| && ops[j].Let?
    requires DefinedBefore(ops, j, id) && ReadLater(ops, j + 1, id)
    ensures
      var slotOf := SlotOf(lifetimes, slots);
      id in slotOf && ops[j].dst in slotOf && slotOf[id] != slotOf[ops[j].dst]
  {
    hide OpReads, SlotOf, Assigned;
    var i: nat :| i < j && Defined(ops[i]) == Some(id);
    var a := LetLifetime(ops, lifetimes, slots, count, i);
    var b := LetLifetime(ops, lifetimes, slots, count, j);
    var r: nat :| j + 1 <= r < |ops| && id in OpReads(ops[r]);
    var c := ReadLifetime(ops, lifetimes, slots, count, r, id);
    LifetimesApart(ops, lifetimes, slots, count, a, b, c);
    SlotOfAt(lifetimes, slots, a);
    SlotOfAt(lifetimes, slots, b);
  }

  lemma LetLifetime(ops: seq<ExprOp>, lifetimes: seq<Lifetime>, slots: seq<nat>, count: nat, i: nat) returns (k: nat)
    requires Assigned(ops, lifetimes, slots, count) && i < |ops| && ops[i].Let?
    ensures UniqueIds(lifetimes) && |slots| == |lifetimes|
    ensures k < |lifetimes| && lifetimes[k].id == ops[i].dst && lifetimes[k].start == 2 * i + 1
  {
    hide OpReads, LifetimeOf, CoversRead;
    assert HasLifetime(lifetimes, ops[i].dst, 2 * i + 1);
    k :| 0 <= k < |lifetimes| && lifetimes[k].id == ops[i].dst && lifetimes[k].start == 2 * i + 1;
  }

  lemma ReadLifetime(
      ops: seq<ExprOp>, lifetimes: seq<Lifetime>, slots: seq<nat>, count: nat, r: nat, id: VarId) returns (k: nat)
    requires Assigned(ops, lifetimes, slots, count) && r < |ops| && id in OpReads(ops[r])
    ensures k < |lifetimes| && lifetimes[k].id == id && lifetimes[k].start < 2 * r <= lifetimes[k].end
  {
    hide OpReads, LifetimeOf, HasLifetime;
    assert CoversRead(lifetimes, id, 2 * r);
    k :| 0 <= k < |lifetimes| && lifetimes[k].id == id && lifetimes[k].start < 2 * r <= lifetimes[k].end;
  }

  /** A lifetime that starts before another and ends after its start has another slot. */
  lemma LifetimesApart(
      ops: seq<ExprOp>, lifetimes: seq<Lifetime>, slots: seq<nat>, count: nat, a: nat, b: nat, c: nat)
    requires Assigned(ops, lifetimes, slots, count) && a < |lifetimes| && b < |lifetimes| && c < |lifetimes|
    requires lifetimes[a].id == lifetimes[c].id && lifetimes[a].start < lifetimes[b].start < lifetimes[c].end
    ensures |slots| == |lifetimes| && slots[a] != slots[b]
  {
    hide OpReads, LifetimeOf, HasLifetime, CoversRead;
  }

  lemma DefinedHasSlot(ops: seq<ExprOp>, lifetimes: seq<Lifetime>, slots: seq<nat>, count: nat, j: nat)
    requires Assigned(ops, lifetimes, slots, count) && j < |ops| && ops[j].Let?
    ensures ops[j].dst in SlotOf(lifetimes, slots)
  {
    hide OpReads, SlotOf;
    assert HasLifetime(lifetimes, ops[j].dst, 2 * j + 1);
    var b :| 0 <= b < |lifetimes| && lifetimes[b].id == ops[j].dst && lifetimes[b].start == 2 * j + 1;
    SlotOfAt(lifetimes, slots, b);
  }

  lemma ViewAgrees(
      ops: seq<ExprOp>, j: nat, slotOf: map<VarId, nat>, vars: map<VarId, Word>, values: map<nat, Word>)
    requires j < |ops| && SlotsHold(ops, j, slotOf, vars, values)
    ensures AgreeOn(vars, ViewVars(slotOf, values), OpReads(ops[j]))
  {
    hide OpReads;
    forall id <- OpReads(ops[j]) | id in vars
      ensures id in ViewVars(slotOf, values) && ViewVars(slotOf, values)[id] == vars[id]
    {
      assert ReadLater(ops, j, id);
    }
  }

  lemma HoldsNext(
      ops: seq<ExprOp>, lifetimes: seq<Lifetime>, slots: seq<nat>, count: nat, j: nat, vars: map<VarId, Word>,
      values: map<nat, Word>, value: Word)
    requires Assigned(ops, lifetimes, slots, count) && j < |ops| && OnlyDefined(ops, j, vars)
    requires SlotsHold(ops, j, SlotOf(lifetimes, slots), vars, values)
    ensures !ops[j].Let? ==> SlotsHold(ops, j + 1, SlotOf(lifetimes, slots), vars, values) && OnlyDefined(ops, j + 1, vars)
    ensures ops[j].Let? ==>
              ops[j].dst in SlotOf(lifetimes, slots) &&
              SlotsHold(ops, j + 1, SlotOf(lifetimes, slots), vars[ops[j].dst := value],
                        values[SlotOf(lifetimes, slots)[ops[j].dst] := value]) &&
              OnlyDefined(ops, j + 1, vars[ops[j].dst := value])
  {
    hide OpReads, SlotOf, Assigned;
    OneSlotEach(ops, lifetimes, slots, count);
    var slotOf := SlotOf(lifetimes, slots);
    forall id | ReadLater(ops, j + 1, id) ensures ReadLater(ops, j, id) {
      var i: nat :| j + 1 <= i < |ops| && id in OpReads(ops[i]);
    }
    if ops[j].Let? {
      DefinedHasSlot(ops, lifetimes, slots, count, j);
      forall id <- vars | id != ops[j].dst && ReadLater(ops, j + 1, id) ensures slotOf[id] != slotOf[ops[j].dst] {
        KeepsApart(ops, lifetimes, slots, count, j, id);
      }
      DefinesItsVar(ops, j);
    }
    forall id <- vars ensures DefinedBefore(ops, j + 1, id) { assert DefinedBefore(ops, j, id); }
  }

  lemma DefinesItsVar(ops: seq<ExprOp>, j: nat)
    requires j < |ops| && ops[j].Let?
    ensures DefinedBefore(ops, j + 1, ops[j].dst)
  {
    assert Defined(ops[j]) == Some(ops[j].dst);
  }

  lemma {:induction false} SlotsSimulate(
      ops: seq<ExprOp>, j: nat, context: Context, lifetimes: seq<Lifetime>, slots: seq<nat>, count: nat, m: Machine,
      other: map<VarId, Word>, values: map<nat, Word>)
    requires Assigned(ops, lifetimes, slots, count) && LetsDefine(ops) && j <= |ops| && OnlyDefined(ops, j, m.vars)
    requires SlotsHold(ops, j, SlotOf(lifetimes, slots), m.vars, values)
    requires RunExprs(ops[j..], context, m) != Stuck
    ensures SameOutcome(RunExprs(ops[j..], context, m),
                        RunInSlots(ops[j..], context, SlotOf(lifetimes, slots), m.(vars := other), values))
    decreases |ops| - j
  {
    hide StepExpr, SlotsHold, OnlyDefined, Assigned, SlotOf, ViewVars, OpReads;
    OneSlotEach(ops, lifetimes, slots, count);
    var slotOf, op := SlotOf(lifetimes, slots), ops[j];
    assert ops[j..][0] == op && ops[j..][1..] == ops[j + 1..] && op in ops;
    var view := ViewVars(slotOf, values);
    ViewAgrees(ops, j, slotOf, m.vars, values);
    ExprStepReadsItsVars(op, context, m, view);
    assert m.(vars := other).(vars := view) == m.(vars := view);
    var step := StepExpr(op, context, m);
    if step.Running? {
      var next := StepExpr(op, context, m.(vars := view)).m;
      LetDefines(op, context, m);
      if op.Let? {
        var value := step.m.vars[op.dst];
        HoldsNext(ops, lifetimes, slots, count, j, m.vars, values, value);
        SlotsSimulate(ops, j + 1, context, lifetimes, slots, count, step.m, next.vars, values[slotOf[op.dst] := value]);
      } else {
        HoldsNext(ops, lifetimes, slots, count, j, m.vars, values, 0);
        SlotsSimulate(ops, j + 1, context, lifetimes, slots, count, step.m, next.vars, values);
      }
    }
  }

  lemma LetDefines(op: ExprOp, context: Context, m: Machine)
    requires StepExpr(op, context, m).Running? && (op.PlainOp? ==> Dst(op.op).None?)
    ensures
      var n := StepExpr(op, context, m).m;
      if op.Let? then op.dst in n.vars && n.vars == m.vars[op.dst := n.vars[op.dst]] else n.vars == m.vars
  {
    hide Step, EvalExpr, Resolve;
    match op
    case Let(dst, Source(storage, width, signed)) =>
      StepDefinesItsDst(Get(dst, Resolve(storage, context, m).value, width, signed), context, m);
    case Let(_, _) =>
    case SetExpr(target, value, width, role) =>
      StepDefinesItsDst(Set(Resolve(target, context, m).value, Const(EvalExpr(value, context, m).value), width, role), context, m);
    case SetIfExpr(c, target, value, width) =>
      StepDefinesItsDst(SetIf(Const(EvalExpr(c, context, m).value), Resolve(target, context, m).value,
                              Const(EvalExpr(value, context, m).value), width), context, m);
    case PlainOp(plain) => StepDefinesItsDst(plain, context, m);
    case JumpExpr(target) => StepDefinesItsDst(Jump(Const(EvalExpr(target, context, m).value)), context, m);
    case ConditionalJumpExpr(c, t, f) =>
      StepDefinesItsDst(ConditionalJump(Const(EvalExpr(c, context, m).value), Const(EvalExpr(t, context, m).value),
                                        Const(EvalExpr(f, context, m).value)), context, m);
    case HostTrapExpr(vector) => StepDefinesItsDst(HostTrap(Const(EvalExpr(vector, context, m).value)), context, m);
  }

  /** Collect the lifetimes and assign the slots; fails exactly on badly scoped blocks. */
  method AssignIrExprVarSlots(ops: seq<ExprOp>) returns (slotByVar: Option<map<VarId, nat>>, slotCount: nat)
    ensures slotByVar.Some? <==> WellScoped(ops, |ops|)
    ensures slotByVar.Some? ==>
              exists lifetimes, slots: seq<nat> ::
                Assigned(ops, lifetimes, slots, slotCount) && Reached(lifetimes, slotCount) &&
                slotByVar.value == SlotOf(lifetimes, slots)
  {
    hide Reached;
    var collected := CollectVarLifetimes(ops);
    if collected.None? {
      return None, 0;
    }
    var slots;
    slots, slotCount := AssignSlots(collected.value);
    slotByVar := Some(SlotOf(collected.value, slots));
  }

  /** Every read finds in its slot what one variable per id would have held. */
  lemma SlotsPreserveRuns(
      ops: seq<ExprOp>, context: Context, lifetimes: seq<Lifetime>, slots: seq<nat>, count: nat, m: Machine)
    requires Assigned(ops, lifetimes, slots, count) && LetsDefine(ops) && m.vars == map[]
    requires RunExprs(ops, context, m) != Stuck
    ensures SameOutcome(RunExprs(ops, context, m), RunInSlots(ops, context, SlotOf(lifetimes, slots), m, map[]))
  {
    assert ops[0..] == ops;
    assert m.(vars := map[]) == m;
    SlotsSimulate(ops, 0, context, lifetimes, slots, count, m, map[], map[]);
  }
}
