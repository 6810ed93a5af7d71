/**
 Planning where lazy flags must be published. An analysis walks the block once, recording every exit with the
 registers and flags that are not yet in state memory; boundaries are then inserted before the exits; the resulting
 block is finally run on the lazy flag state.
 */
module FlagPlanning {
  import opened X86Types
  import opened Flags
  import opened Conditions
  import opened FlagState

  datatype Op =
    | FlagsSet(producer: Producer, width: Width, values: Inputs)
    | FlagsMaterialize(mask: Mask)
    | FlagsBoundary(mask: Mask)
    | FlagsCondition(cc: Cc)
    | MemoryAccess
    | RegisterSet(reg: Reg, materialization: bool)
    | OtherOp

  // An instruction ends with one terminator, which leaves the block through `exits` control exits (none for `next`
  // in continue mode, two for a conditional jump).
  datatype Instruction = Instruction(body: seq<Op>, exits: nat)

  type Block = seq<Instruction>

  /** Operands of every flag producer are as the instruction templates guarantee. */
  ghost predicate ConsistentBody(body: seq<Op>) {
    forall op <- body :: op.FlagsSet? ==> Consistent(op.producer, op.width, op.values)
  }

  /** Only the last instruction may leave the block. */
  ghost predicate WellFormed(block: Block) {
    && (forall instruction <- block :: ConsistentBody(instruction.body))
    && (forall i | 0 <= i < |block| - 1 :: block[i].exits == 0)
  }

  // ---------- what the exits must expose ----------

  datatype Event = FaultExit(flags: Mask) | ControlExit(flags: Mask) | Decided(value: bool)

  function FlagsStep(flags: Mask, op: Op): Mask {
    if op.FlagsSet? then SetFlags(flags, op.producer, op.width, op.values) else flags
  }

  /** The flags after the first j operations, every producer writing its flags at once. */
  function FlagsAfter(body: seq<Op>, entry: Mask, j: nat): Mask
    requires j <= |body|
  {
    if j == 0 then entry else FlagsStep(FlagsAfter(body, entry, j - 1), body[j - 1])
  }

  function EventOf(op: Op, entry: Mask, flags: Mask): seq<Event> {
    match op
    case MemoryAccess => [FaultExit(entry)]
    case FlagsCondition(cc) => [Decided(Condition(cc, flags))]
    case _ => []
  }

  /** A fault exposes the flags at entry of its instruction; a condition is decided on the current flags. */
  function BodyEvents(body: seq<Op>, entry: Mask, j: nat): seq<Event>
    requires j <= |body|
  {
    if j == 0 then []
    else BodyEvents(body, entry, j - 1) + EventOf(body[j - 1], entry, FlagsAfter(body, entry, j - 1))
  }

  function Exits(flags: Mask, count: nat): (events: seq<Event>)
    ensures |events| == count && forall event <- events :: event == ControlExit(flags)
  {
    seq(count, _ => ControlExit(flags))
  }

  function InstructionEvents(instruction: Instruction, entry: Mask): seq<Event> {
    var n := |instruction.body|;
    BodyEvents(instruction.body, entry, n) + Exits(FlagsAfter(instruction.body, entry, n), instruction.exits)
  }

  function FlagsAt(block: Block, incoming: Mask, i: nat): Mask
    requires i <= |block|
  {
    if i == 0 then incoming
    else FlagsAfter(block[i - 1].body, FlagsAt(block, incoming, i - 1), |block[i - 1].body|)
  }

  /** Everything the first i instructions expose when no flag is lazy. */
  function Events(block: Block, incoming: Mask, i: nat): seq<Event>
    requires i <= |block|
  {
    if i == 0 then []
    else Events(block, incoming, i - 1) + InstructionEvents(block[i - 1], FlagsAt(block, incoming, i - 1))
  }

  // ---------- tracking committed and speculative state ----------

  datatype Track = Track(committed: set<Reg>, speculative: set<Reg>, flags: Mask, delta: nat)

  function Record(track: Track, op: Op): Track {
    match op
    case RegisterSet(reg, true) => track.(committed := track.committed + {reg})
    case RegisterSet(reg, false) => track.(speculative := track.speculative + {reg})
    case FlagsSet(producer, _, _) => track.(flags := track.flags + (WrittenMask(producer) + UndefMask(producer)))
    case FlagsBoundary(mask) => track.(flags := track.flags - mask)
    case _ => track
  }

  function TrackIn(body: seq<Op>, track: Track, j: nat): Track
    requires j <= |body|
  {
    if j == 0 then track else Record(TrackIn(body, track, j - 1), body[j - 1])
  }

  function Committed(track: Track): Track {
    Track(track.committed + track.speculative, {}, track.flags, track.delta + 1)
  }

  function TrackAt(block: Block, i: nat): Track
    requires i <= |block|
  {
    if i == 0 then Track({}, {}, {}, 0)
    else Committed(TrackIn(block[i - 1].body, TrackAt(block, i - 1), |block[i - 1].body|))
  }

  datatype SnapshotKind = PreInstruction | PostInstruction

  datatype Snapshot = Snapshot(
    kind: SnapshotKind, delta: nat, committedRegs: set<Reg>, speculativeRegs: set<Reg>,
    committedFlags: Mask, speculativeFlags: Mask)

  datatype ExitPoint = ExitPoint(instruction: nat, op: nat, snapshot: Snapshot)

  datatype InstructionState = InstructionState(entry: Snapshot, preExits: nat)

  datatype Plan = Plan(states: seq<InstructionState>, exitPoints: seq<ExitPoint>)

  class JitBlockStateTracker {
    var committedRegs: set<Reg>
    var speculativeRegs: set<Reg>
    var committedFlagsMask: Mask
    var speculativeFlagsMask: Mask
    var instructionCountDelta: nat

    ghost function Contents(): Track
      reads this
    {
      Track(committedRegs, speculativeRegs, speculativeFlagsMask, instructionCountDelta)
    }

    /** A flag is either committed or speculative. */
    ghost predicate Valid()
      reads this
    {
      committedFlagsMask == ALL_FLAGS - speculativeFlagsMask
    }

    constructor ()
      ensures Valid() && Contents() == Track({}, {}, {}, 0)
    {
      committedRegs, speculativeRegs := {}, {};
      committedFlagsMask, speculativeFlagsMask, instructionCountDelta := ALL_FLAGS, {}, 0;
    }

    function TakeSnapshot(): (snapshot: Snapshot)
      reads this
      requires Valid()
      ensures snapshot == EntrySnapshot(Contents())
    {
      Snapshot(PreInstruction, instructionCountDelta, committedRegs, speculativeRegs, committedFlagsMask,
               speculativeFlagsMask)
    }

    function SnapshotPostInstruction(): (snapshot: Snapshot)
      reads this
      requires Valid()
      ensures snapshot == PostSnapshot(Contents())
    {
      Snapshot(PostInstruction, instructionCountDelta + 1, committedRegs + speculativeRegs, {}, committedFlagsMask,
               speculativeFlagsMask)
    }

    method RecordOp(op: Op)
      requires Valid()
      modifies this
      ensures Valid() && Contents() == Record(old(Contents()), op)
    {
      match op
      case RegisterSet(reg, materialization) =>
        if materialization {
          committedRegs := committedRegs + {reg};
        } else {
          speculativeRegs := speculativeRegs + {reg};
        }
      case FlagsSet(producer, _, _) =>
        var mask := WrittenMask(producer) + UndefMask(producer);
        speculativeFlagsMask := speculativeFlagsMask + mask;
        committedFlagsMask := committedFlagsMask - mask;
      case FlagsBoundary(mask) =>
        var committed := mask * speculativeFlagsMask;
        speculativeFlagsMask := speculativeFlagsMask - mask;
        committedFlagsMask := committedFlagsMask + committed;
        EveryFlagListed(committed);
      case _ =>
    }

    method CommitInstruction()
      requires Valid()
      modifies this
      ensures Valid() && Contents() == Committed(old(Contents()))
    {
      committedRegs := committedRegs + speculativeRegs;
      speculativeRegs := {};
      instructionCountDelta := instructionCountDelta + 1;
    }
  }

  function EntrySnapshot(track: Track): Snapshot {
    Snapshot(PreInstruction, track.delta, track.committed, track.speculative, ALL_FLAGS - track.flags, track.flags)
  }

  function PostSnapshot(track: Track): Snapshot {
    Snapshot(PostInstruction, track.delta + 1, track.committed + track.speculative, {}, ALL_FLAGS - track.flags,
             track.flags)
  }

  /** A fault exposes the instruction's entry state, plus whatever has been committed since. */
  function FaultSnapshot(entry: Snapshot, current: Snapshot): Snapshot {
    entry.(committedRegs := current.committedRegs, committedFlags := current.committedFlags)
  }

  function FaultPoints(i: nat, body: seq<Op>, entry: Track, j: nat): seq<ExitPoint>
    requires j <= |body|
  {
    if j == 0 then []
    else
      FaultPoints(i, body, entry, j - 1) +
      (if body[j - 1].MemoryAccess?
       then [ExitPoint(i, j - 1, FaultSnapshot(EntrySnapshot(entry), EntrySnapshot(TrackIn(body, entry, j - 1))))]
       else [])
  }

  function ControlPoints(i: nat, instruction: Instruction, entry: Track): seq<ExitPoint> {
    var n := |instruction.body|;
    seq(instruction.exits, _ => ExitPoint(i, n, PostSnapshot(TrackIn(instruction.body, entry, n))))
  }

  function StateOf(block: Block, i: nat): InstructionState
    requires i < |block|
  {
    InstructionState(EntrySnapshot(TrackAt(block, i)),
                     |FaultPoints(i, block[i].body, TrackAt(block, i), |block[i].body|)|)
  }

  function StatesTo(block: Block, i: nat): seq<InstructionState>
    requires i <= |block|
  {
    if i == 0 then [] else StatesTo(block, i - 1) + [StateOf(block, i - 1)]
  }

  function ExitPointsTo(block: Block, i: nat): seq<ExitPoint>
    requires i <= |block|
  {
    if i == 0 then []
    else
      ExitPointsTo(block, i - 1) +
      FaultPoints(i - 1, block[i - 1].body, TrackAt(block, i - 1), |block[i - 1].body|) +
      ControlPoints(i - 1, block[i - 1], TrackAt(block, i - 1))
  }

  /** Walk one instruction, recording its exits. */
  method AnalyzeInstruction(state: JitBlockStateTracker, i: nat, instruction: Instruction)
    returns (entry: Snapshot, faults: seq<ExitPoint>, controls: seq<ExitPoint>)
    requires state.Valid()
    modifies state
    ensures state.Valid()
    ensures state.Contents() ==
            var after := TrackIn(instruction.body, old(state.Contents()), |instruction.body|);
            if instruction.exits == 0 then Committed(after) else after
    ensures entry == EntrySnapshot(old(state.Contents()))
    ensures faults == FaultPoints(i, instruction.body, old(state.Contents()), |instruction.body|)
    ensures controls == ControlPoints(i, instruction, old(state.Contents()))
  {
    ghost var before := state.Contents();
    entry := state.TakeSnapshot();
    faults := [];
    for j := 0 to |instruction.body|
      invariant state.Valid() && state.Contents() == TrackIn(instruction.body, before, j)
      invariant faults == FaultPoints(i, instruction.body, before, j)
    {
      if instruction.body[j].MemoryAccess? {
        faults := faults + [ExitPoint(i, j, FaultSnapshot(entry, state.TakeSnapshot()))];
      }
      state.RecordOp(instruction.body[j]);
    }
    controls := [];
    var post := state.SnapshotPostInstruction();
    for k := 0 to instruction.exits
      invariant controls == seq(k, _ => ExitPoint(i, |instruction.body|, post))
    {
      controls := controls + [ExitPoint(i, |instruction.body|, post)];
    }
    if instruction.exits == 0 {
      state.CommitInstruction();
    }
  }

  method AnalyzeJitCodegenState(block: Block) returns (plan: Plan)
    requires WellFormed(block)
    ensures plan == Plan(StatesTo(block, |block|), ExitPointsTo(block, |block|))
  {
    hide ConsistentBody, FaultPoints, ControlPoints, EntrySnapshot, TrackIn, Committed;
    var state := new JitBlockStateTracker();
    var states: seq<InstructionState>, exitPoints: seq<ExitPoint> := [], [];
    for i := 0 to |block|
      invariant state.Valid() && (i < |block| ==> state.Contents() == TrackAt(block, i))
      invariant states == StatesTo(block, i) && exitPoints == ExitPointsTo(block, i)
    {
      var entry, faults, controls := AnalyzeInstruction(state, i, block[i]);
      states := states + [InstructionState(entry, |faults|)];
      exitPoints := exitPoints + faults + controls;
    }
    plan := Plan(states, exitPoints);
  }

  // ---------- inserting the boundaries ----------

  type Masks = map<nat, map<nat, Mask>>

  function MaskAt(masks: Masks, i: nat, j: nat): Mask {
    if i in masks && j in masks[i] then masks[i][j] else {}
  }

  predicate NoEmptyMasks(masks: Masks) {
    forall i <- masks, j :: j in masks[i] ==> masks[i][j] != {}
  }

  function AddBoundaryMask(masks: Masks, i: nat, j: nat, mask: Mask): (after: Masks)
    requires NoEmptyMasks(masks)
    ensures NoEmptyMasks(after)
    ensures forall a, b :: MaskAt(after, a, b) == MaskAt(masks, a, b) + (if a == i && b == j then mask else {})
  {
    if mask == {} then masks
    else
      var inner := if i in masks then masks[i] else map[];
      masks[i := inner[j := (if j in inner then inner[j] else {}) + mask]]
  }

  /** What the instruction entries demand: publish everything before the first operation that can fault. */
  function EntryDemand(states: seq<InstructionState>, count: nat, i: nat, j: nat): Mask
    requires count <= |states|
  {
    if i < count && j == 0 && states[i].preExits != 0 then states[i].entry.speculativeFlags else {}
  }

  /** What the control exits demand. */
  function ExitDemand(points: seq<ExitPoint>, count: nat, i: nat, j: nat): Mask
    requires count <= |points|
  {
    if count == 0 then {}
    else
      var point := points[count - 1];
      ExitDemand(points, count - 1, i, j) +
      (if point.snapshot.kind.PostInstruction? && point.instruction == i && point.op == j
       then point.snapshot.speculativeFlags else {})
  }

  function Demand(plan: Plan, i: nat, j: nat): Mask {
    EntryDemand(plan.states, |plan.states|, i, j) + ExitDemand(plan.exitPoints, |plan.exitPoints|, i, j)
  }

  function DemandAt(plan: Plan, i: nat): nat -> Mask {
    (j: nat) => Demand(plan, i, j)
  }

  method JitFlagBoundaryMasks(plan: Plan) returns (masks: Masks)
    ensures NoEmptyMasks(masks)
    ensures forall i, j :: MaskAt(masks, i, j) == Demand(plan, i, j)
  {
    masks := map[];
    for k := 0 to |plan.states|
      invariant NoEmptyMasks(masks)
      invariant forall i, j :: MaskAt(masks, i, j) == EntryDemand(plan.states, k, i, j)
    {
      if plan.states[k].preExits != 0 {
        masks := AddBoundaryMask(masks, k, 0, plan.states[k].entry.speculativeFlags);
      }
    }
    for k := 0 to |plan.exitPoints|
      invariant NoEmptyMasks(masks)
      invariant forall i, j :: MaskAt(masks, i, j) ==
                  EntryDemand(plan.states, |plan.states|, i, j) + ExitDemand(plan.exitPoints, k, i, j)
    {
      var exit := plan.exitPoints[k];
      if exit.snapshot.kind.PostInstruction? {
        masks := AddBoundaryMask(masks, exit.instruction, exit.op, exit.snapshot.speculativeFlags);
      }
    }
  }

  function BoundaryOps(mask: Mask): seq<Op> {
    if mask == {} then [] else [FlagsBoundary(mask)]
  }

  /** The first j operations, each after its boundary. */
  function Inserted(body: seq<Op>, demand: nat -> Mask, j: nat): seq<Op>
    requires j <= |body|
  {
    if j == 0 then [] else Inserted(body, demand, j - 1) + BoundaryOps(demand(j - 1)) + [body[j - 1]]
  }

  function WithBoundaries(instruction: Instruction, demand: nat -> Mask): Instruction {
    var n := |instruction.body|;
    Instruction(Inserted(instruction.body, demand, n) + BoundaryOps(demand(n)), instruction.exits)
  }

  method InsertInstructionFlagBoundaries(instruction: Instruction, masks: map<nat, Mask>) returns (after: Instruction)
    requires forall j <- masks :: masks[j] != {}
    ensures after == WithBoundaries(instruction, j => if j in masks then masks[j] else {})
  {
    ghost var demand := j => if j in masks then masks[j] else {};
    var ops: seq<Op> := [];
    for j := 0 to |instruction.body|
      invariant ops == Inserted(instruction.body, demand, j)
    {
      if j in masks {
        ops := ops + [FlagsBoundary(masks[j])];
      }
      ops := ops + [instruction.body[j]];
    }
    if |instruction.body| in masks {
      ops := ops + [FlagsBoundary(masks[|instruction.body|])];
    }
    after := Instruction(ops, instruction.exits);
  }

  method InsertJitFlagBoundaries(block: Block, plan: Plan) returns (code: Block)
    ensures |code| == |block|
    ensures forall i: nat | i < |block| :: code[i] == WithBoundaries(block[i], DemandAt(plan, i))
  {
    var masks := JitFlagBoundaryMasks(plan);
    code := [];
    for i := 0 to |block|
      invariant |code| == i
      invariant forall k: nat | k < i :: code[k] == WithBoundaries(block[k], DemandAt(plan, k))
    {
      var inner := if i in masks then masks[i] else map[];
      var after := InsertInstructionFlagBoundaries(block[i], inner);
      SameDemand(block[i], j => if j in inner then inner[j] else {}, DemandAt(plan, i)) by {
        assert forall j :: MaskAt(masks, i, j) == Demand(plan, i, j);
      }
      code := code + [after];
    }
  }

  lemma {:induction false} SameInserted(body: seq<Op>, first: nat -> Mask, second: nat -> Mask, j: nat)
    requires j <= |body| && forall k :: first(k) == second(k)
    ensures Inserted(body, first, j) == Inserted(body, second, j)
  {
    if j > 0 { SameInserted(body, first, second, j - 1); }
  }

  lemma SameDemand(instruction: Instruction, first: nat -> Mask, second: nat -> Mask)
    requires forall k :: first(k) == second(k)
    ensures WithBoundaries(instruction, first) == WithBoundaries(instruction, second)
  {
    SameInserted(instruction.body, first, second, |instruction.body|);
  }

  // ---------- what is known while the planned code runs ----------

  /**
   A bound on the flags still pending, whether no flag was set since the instruction began, and whether state
   memory holds the instruction's entry flags or the current flags.
   */
  datatype Known = Known(pending: Mask, untouched: bool, entryStored: bool, stored: bool)

  function Learn(known: Known, op: Op): Known {
    match op
    case FlagsSet(producer, _, _) =>
      Known(known.pending + WrittenMask(producer), false, known.entryStored, false)
    case FlagsBoundary(mask) =>
      var rest := known.pending - mask;
      Known(rest, known.untouched, known.untouched && (known.entryStored || rest == {}), known.stored || rest == {})
    case _ => known
  }

  function Enter(known: Known): Known {
    Known(known.pending, true, known.stored, known.stored)
  }

  function KnownAfter(body: seq<Op>, known: Known, j: nat): Known
    requires j <= |body|
  {
    if j == 0 then known else Learn(KnownAfter(body, known, j - 1), body[j - 1])
  }

  /** No operation that can fault runs while state memory may differ from the entry flags. */
  ghost predicate FaultSafe(body: seq<Op>, known: Known, j: nat)
    requires j <= |body|
  {
    forall k: nat | k < j :: body[k].MemoryAccess? ==> KnownAfter(body, known, k).entryStored
  }

  ghost predicate Agrees(known: Known, entry: Mask, eager: Mask, pending: Mask, stored: Mask) {
    && pending <= known.pending
    && (known.untouched ==> eager == entry)
    && (known.entryStored ==> stored == entry)
    && (known.stored ==> stored == eager)
  }

  /** Any supply of a producer's inputs that the surrounding code can offer. */
  type Supplier = (seq<Word>, Inputs) -> (InputName -> Supply)

  ghost predicate GoodSupplier(supplier: Supplier) {
    forall locals, values :: SuppliesOk(locals, values, supplier(locals, values))
  }

  /** Any code of other components: given the locals and the reserved ones, what it leaves in the locals. */
  type OtherCode = (seq<Word>, set<nat>) -> seq<Word>

  ghost predicate GoodOtherCode(other: OtherCode) {
    forall locals, reserved :: KeepsReserved(locals, reserved, other(locals, reserved))
  }

  /** Run one operation of the planned code on the lazy flag state. */
  method RunOp(flags: JitFlagState, op: Op, supplier: Supplier, ghost entry: Mask, ghost known: Known)
    returns (events: seq<Event>)
    requires flags.Valid() && GoodSupplier(supplier) && ConsistentBody([op])
    requires Agrees(known, entry, flags.eager, flags.PendingMask(), flags.stateAluFlags)
    requires op.MemoryAccess? ==> known.entryStored
    modifies flags
    ensures flags.Valid() && flags.eager == FlagsStep(old(flags.eager), op)
    ensures Agrees(Learn(known, op), entry, flags.eager, flags.PendingMask(), flags.stateAluFlags)
    ensures events == EventOf(op, entry, old(flags.eager))
  {
    hide JitFlagState.Valid, JitFlagState.PendingMask, Condition, SetFlags, Consistent, SuppliesOk;
    assert op == [op][0];
    events := [];
    match op
    case FlagsSet(producer, width, values) =>
      flags.EmitSet(producer, width, values, supplier(flags.locals, values));
    case FlagsMaterialize(mask) =>
      flags.EmitMaterialize(mask);
    case FlagsBoundary(mask) =>
      flags.EmitBoundary(mask);
    case FlagsCondition(cc) =>
      var value := flags.EmitAluFlagsCondition(cc);
      events := [Decided(value)];
    case MemoryAccess =>
      events := [FaultExit(flags.stateAluFlags)];
    case _ =>
  }

  method RunBody(flags: JitFlagState, body: seq<Op>, supplier: Supplier, other: OtherCode, ghost known: Known)
    returns (events: seq<Event>)
    requires flags.Valid() && GoodSupplier(supplier) && GoodOtherCode(other) && ConsistentBody(body)
    requires FaultSafe(body, known, |body|)
    requires Agrees(known, flags.eager, flags.eager, flags.PendingMask(), flags.stateAluFlags)
    modifies flags
    ensures flags.Valid() && flags.eager == FlagsAfter(body, old(flags.eager), |body|)
    ensures Agrees(KnownAfter(body, known, |body|), old(flags.eager), flags.eager, flags.PendingMask(), flags.stateAluFlags)
    ensures events == BodyEvents(body, old(flags.eager), |body|)
  {
    hide JitFlagState.Valid, JitFlagState.PendingMask, Agrees, Learn, FlagsStep, EventOf, GoodSupplier, KeepsReserved;
    ghost var entry := flags.eager;
    events := [];
    for j := 0 to |body|
      invariant flags.Valid() && flags.eager == FlagsAfter(body, entry, j)
      invariant Agrees(KnownAfter(body, known, j), entry, flags.eager, flags.PendingMask(), flags.stateAluFlags)
      invariant events == BodyEvents(body, entry, j)
    {
      flags.RunOtherCode(other(flags.locals, flags.Reserved()));
      var more := RunOp(flags, body[j], supplier, entry, KnownAfter(body, known, j));
      events := events + more;
    }
  }

  /** Leave through the control exits; each one insists that no flag is still pending. */
  method RunExits(flags: JitFlagState, exits: nat) returns (ok: bool, events: seq<Event>)
    requires flags.Valid()
    ensures flags.PendingMask() == {} && flags.stateAluFlags == flags.eager ==> ok && events == Exits(flags.eager, exits)
    ensures exits == 0 ==> ok && events == []
  {
    hide JitFlagState.Valid, JitFlagState.PendingMask;
    ok, events := true, [];
    for k := 0 to exits
      invariant |events| == k && forall event <- events :: event == ControlExit(flags.stateAluFlags)
      invariant flags.PendingMask() == {} ==> ok
      invariant k == 0 ==> ok
    {
      var clear := flags.AssertNoPending();
      ok := ok && clear;
      events := events + [ControlExit(flags.stateAluFlags)];
    }
    assert forall k | 0 <= k < exits :: events[k] in events;
  }

  // ---------- the planned boundaries suffice ----------

  lemma {:induction false} Prefix(ops: seq<Op>, more: seq<Op>, known: Known, entry: Mask, j: nat)
    requires j <= |ops|
    ensures KnownAfter(ops + more, known, j) == KnownAfter(ops, known, j)
    ensures FlagsAfter(ops + more, entry, j) == FlagsAfter(ops, entry, j)
    ensures BodyEvents(ops + more, entry, j) == BodyEvents(ops, entry, j)
  {
    hide SetFlags;
    if j > 0 {
      Prefix(ops, more, known, entry, j - 1);
      assert (ops + more)[j - 1] == ops[j - 1];
    }
  }

  /** What is known, exposed and fault-safe for a whole list of operations. */
  function KnownAll(ops: seq<Op>, known: Known): Known {
    KnownAfter(ops, known, |ops|)
  }

  ghost predicate SafeAll(ops: seq<Op>, known: Known) {
    FaultSafe(ops, known, |ops|)
  }

  /** Two lists of operations expose the same events and leave the same flags. */
  ghost predicate SameMeaning(ops: seq<Op>, body: seq<Op>, j: nat, entry: Mask)
    requires j <= |body|
  {
    && FlagsAfter(ops, entry, |ops|) == FlagsAfter(body, entry, j)
    && BodyEvents(ops, entry, |ops|) == BodyEvents(body, entry, j)
  }

  lemma Append(ops: seq<Op>, op: Op, known: Known, entry: Mask)
    ensures KnownAll(ops + [op], known) == Learn(KnownAll(ops, known), op)
    ensures FlagsAfter(ops + [op], entry, |ops| + 1) == FlagsStep(FlagsAfter(ops, entry, |ops|), op)
    ensures BodyEvents(ops + [op], entry, |ops| + 1) ==
            BodyEvents(ops, entry, |ops|) + EventOf(op, entry, FlagsAfter(ops, entry, |ops|))
    ensures SafeAll(ops, known) && (op.MemoryAccess? ==> KnownAll(ops, known).entryStored) ==> SafeAll(ops + [op], known)
  {
    Prefix(ops, [op], known, entry, |ops|);
    forall k: nat | k < |ops| ensures KnownAfter(ops + [op], known, k) == KnownAfter(ops, known, k) {
      Prefix(ops, [op], known, entry, k);
    }
  }

  predicate SetsFlags(body: seq<Op>, j: nat)
    requires j <= |body|
  {
    exists k: nat :: k < j && body[k].FlagsSet?
  }

  /** A boundary of the block's own that comes after a flag producer. */
  predicate BoundaryAfterSet(body: seq<Op>, j: nat)
    requires j <= |body|
  {
    exists k: nat :: k < j && body[k].FlagsBoundary? && SetsFlags(body, k)
  }

  /** Nothing that can fault follows, in its own instruction, such a boundary. */
  ghost predicate NoLateBoundary(body: seq<Op>) {
    forall k: nat | k < |body| :: body[k].MemoryAccess? ==> !BoundaryAfterSet(body, k)
  }

  predicate CanFault(body: seq<Op>) {
    exists k: nat :: k < |body| && body[k].MemoryAccess?
  }

  /** How the knowledge about the emitted code relates to the planner's speculative mask. */
  ghost predicate Follows(known: Known, flags: Mask) {
    known.pending <= flags && (flags == {} ==> known.stored)
  }

  ghost predicate Entered(known: Known, flags: Mask) {
    Follows(known, flags) && known.untouched && known.entryStored == known.stored
  }

  ghost predicate BodyDemand(demand: nat -> Mask, body: seq<Op>, flags: Mask) {
    && (CanFault(body) ==> demand(0) == flags)
    && (forall k: nat | 0 < k < |body| :: demand(k) == {})
  }

  ghost predicate Tracks(known: Known, body: seq<Op>, track: Track, j: nat)
    requires j <= |body|
  {
    && Follows(known, TrackIn(body, track, j).flags)
    && (known.untouched <==> !SetsFlags(body, j))
    && (j > 0 && CanFault(body) ==> known.entryStored || BoundaryAfterSet(body, j))
  }

  /** A planned boundary changes no flag, exposes nothing and keeps the code fault-safe. */
  lemma AppendBoundary(ops: seq<Op>, mask: Mask, known: Known, entry: Mask, flags: Mask)
    requires SafeAll(ops, known) && Follows(KnownAll(ops, known), flags)
    ensures
      var after := ops + BoundaryOps(mask);
      && SafeAll(after, known) && Follows(KnownAll(after, known), flags)
      && FlagsAfter(after, entry, |after|) == FlagsAfter(ops, entry, |ops|)
      && BodyEvents(after, entry, |after|) == BodyEvents(ops, entry, |ops|)
      && KnownAll(after, known).untouched == KnownAll(ops, known).untouched
      && (mask == {} ==> after == ops)
      && (flags <= mask ==> KnownAll(after, known).pending == {} && KnownAll(after, known).stored)
      && (KnownAll(ops, known).untouched && (KnownAll(ops, known).entryStored || flags <= mask != {}) ==>
          KnownAll(after, known).entryStored)
  {
    if mask == {} {
      assert ops + BoundaryOps(mask) == ops;
    } else {
      Append(ops, FlagsBoundary(mask), known, entry);
    }
  }

  lemma TracksOp(known: Known, body: seq<Op>, track: Track, j: nat)
    requires j < |body| && Follows(known, TrackIn(body, track, j).flags)
    requires known.untouched <==> !SetsFlags(body, j)
    requires CanFault(body) ==> known.entryStored || BoundaryAfterSet(body, j)
    ensures Tracks(Learn(known, body[j]), body, track, j + 1)
  {
    var after := Learn(known, body[j]);
    assert SetsFlags(body, j + 1) <==> SetsFlags(body, j) || body[j].FlagsSet?;
    assert BoundaryAfterSet(body, j) ==> BoundaryAfterSet(body, j + 1);
    if body[j].FlagsBoundary? && SetsFlags(body, j) {
      assert BoundaryAfterSet(body, j + 1);
    }
    if body[j].FlagsSet? {
      assert PF in TrackIn(body, track, j + 1).flags;
    }
  }

  lemma {:induction false} PlannedPrefix(
      body: seq<Op>, demand: nat -> Mask, known: Known, track: Track, entry: Mask, j: nat)
    requires j <= |body| && NoLateBoundary(body) && BodyDemand(demand, body, track.flags) && Entered(known, track.flags)
    ensures
      var ops := Inserted(body, demand, j);
      SafeAll(ops, known) && SameMeaning(ops, body, j, entry) && Tracks(KnownAll(ops, known), body, track, j)
  {
    hide Learn, FlagsStep, EventOf, Record;
    if j > 0 {
      PlannedPrefix(body, demand, known, track, entry, j - 1);
      var before := Inserted(body, demand, j - 1);
      var ops := before + BoundaryOps(demand(j - 1));
      AppendBoundary(before, demand(j - 1), known, entry, TrackIn(body, track, j - 1).flags);
      Append(ops, body[j - 1], known, entry);
      TracksOp(KnownAll(ops, known), body, track, j - 1);
    }
  }

  lemma {:induction false} PlannedInstruction(
      instruction: Instruction, demand: nat -> Mask, known: Known, track: Track, entry: Mask)
    requires NoLateBoundary(instruction.body) && BodyDemand(demand, instruction.body, track.flags)
    requires Entered(known, track.flags)
    requires instruction.exits > 0 ==>
               TrackIn(instruction.body, track, |instruction.body|).flags <= demand(|instruction.body|)
    ensures
      var n, code := |instruction.body|, WithBoundaries(instruction, demand).body;
      && SafeAll(code, known) && SameMeaning(code, instruction.body, n, entry)
      && Follows(KnownAll(code, known), TrackIn(instruction.body, track, n).flags)
      && (instruction.exits > 0 ==> KnownAll(code, known).pending == {} && KnownAll(code, known).stored)
  {
    hide Learn, FlagsStep, EventOf, Record, BodyDemand;
    var n := |instruction.body|;
    PlannedPrefix(instruction.body, demand, known, track, entry, n);
    AppendBoundary(Inserted(instruction.body, demand, n), demand(n), known, entry,
                   TrackIn(instruction.body, track, n).flags);
  }

  lemma {:induction false} ExitDemandConcat(first: seq<ExitPoint>, second: seq<ExitPoint>, i: nat, j: nat, count: nat)
    requires count <= |second|
    ensures ExitDemand(first + second, |first| + count, i, j) ==
            ExitDemand(first, |first|, i, j) + ExitDemand(second, count, i, j)
  {
    if count > 0 {
      ExitDemandConcat(first, second, i, j, count - 1);
      assert (first + second)[|first| + count - 1] == second[count - 1];
    } else {
      ExitDemandPrefix(first, second, i, j, |first|);
    }
  }

  lemma {:induction false} ExitDemandPrefix(first: seq<ExitPoint>, second: seq<ExitPoint>, i: nat, j: nat, count: nat)
    requires count <= |first|
    ensures ExitDemand(first + second, count, i, j) == ExitDemand(first, count, i, j)
  {
    if count > 0 { ExitDemandPrefix(first, second, i, j, count - 1); }
  }

  lemma {:induction false} FaultsDemandNothing(n: nat, body: seq<Op>, track: Track, count: nat, i: nat, j: nat)
    requires count <= |body|
    ensures
      var points := FaultPoints(n, body, track, count);
      && ExitDemand(points, |points|, i, j) == {}
      && (|points| != 0 <==> exists k: nat :: k < count && body[k].MemoryAccess?)
  {
    if count > 0 {
      FaultsDemandNothing(n, body, track, count - 1, i, j);
      var before := FaultPoints(n, body, track, count - 1);
      var points := FaultPoints(n, body, track, count);
      if body[count - 1].MemoryAccess? {
        var last := [points[|before|]];
        assert points == before + last;
        ExitDemandConcat(before, last, i, j, 1);
        assert ExitDemand(last, 0, i, j) == {};
      } else {
        assert points == before;
      }
    }
  }

  lemma {:induction false} ControlsDemand(n: nat, instruction: Instruction, track: Track, count: nat, i: nat, j: nat)
    requires count <= instruction.exits
    ensures ExitDemand(ControlPoints(n, instruction, track), count, i, j) ==
            if count > 0 && n == i && j == |instruction.body|
            then TrackIn(instruction.body, track, |instruction.body|).flags else {}
  {
    if count > 0 { ControlsDemand(n, instruction, track, count - 1, i, j); }
  }

  lemma {:induction false} ExitsDemand(block: Block, n: nat, i: nat, j: nat)
    requires n <= |block| && i < |block|
    ensures
      var points := ExitPointsTo(block, n);
      ExitDemand(points, |points|, i, j) ==
      if i < n && j == |block[i].body| && block[i].exits > 0
      then TrackIn(block[i].body, TrackAt(block, i), j).flags else {}
  {
    hide FaultPoints, ControlPoints, TrackIn;
    if n > 0 {
      ExitsDemand(block, n - 1, i, j);
      var track, instruction := TrackAt(block, n - 1), block[n - 1];
      var before := ExitPointsTo(block, n - 1);
      var faults := FaultPoints(n - 1, instruction.body, track, |instruction.body|);
      var controls := ControlPoints(n - 1, instruction, track);
      FaultsDemandNothing(n - 1, instruction.body, track, |instruction.body|, i, j);
      ControlCount(n - 1, instruction, track);
      ControlsDemand(n - 1, instruction, track, instruction.exits, i, j);
      ExitDemandConcat(before, faults, i, j, |faults|);
      ExitDemandConcat(before + faults, controls, i, j, |controls|);
    }
  }

  lemma ControlCount(n: nat, instruction: Instruction, track: Track)
    ensures |ControlPoints(n, instruction, track)| == instruction.exits
  {
  }

  lemma {:induction false} StatesLength(block: Block, n: nat, i: nat)
    requires n <= |block|
    ensures |StatesTo(block, n)| == n && (i < n ==> StatesTo(block, n)[i] == StateOf(block, i))
  {
    if n > 0 { StatesLength(block, n - 1, i); }
  }

  /** The planner's masks are what each instruction needs. */
  lemma PlanDemand(block: Block, plan: Plan, i: nat)
    requires i < |block| && plan == Plan(StatesTo(block, |block|), ExitPointsTo(block, |block|))
    ensures BodyDemand(DemandAt(plan, i), block[i].body, TrackAt(block, i).flags)
    ensures block[i].exits > 0 ==>
              TrackIn(block[i].body, TrackAt(block, i), |block[i].body|).flags <= DemandAt(plan, i)(|block[i].body|)
  {
    hide TrackAt, ExitPointsTo, StatesTo, ExitDemand, FaultPoints, TrackIn;
    var body, track := block[i].body, TrackAt(block, i);
    StatesLength(block, |block|, i);
    FaultsDemandNothing(i, body, track, |body|, i, 0);
    forall j: nat | j <= |body|
      ensures DemandAt(plan, i)(j) ==
              (if j == 0 && CanFault(body) then track.flags else {}) +
              (if j == |body| && block[i].exits > 0 then TrackIn(body, track, j).flags else {})
    {
      ExitsDemand(block, |block|, i, j);
    }
  }

  lemma {:induction false} InsertedConsistent(body: seq<Op>, demand: nat -> Mask, j: nat)
    requires j <= |body| && ConsistentBody(body)
    ensures ConsistentBody(Inserted(body, demand, j))
  {
    if j > 0 { InsertedConsistent(body, demand, j - 1); }
  }

  /** What is known on entry of each instruction of the planned code. */
  ghost predicate Ready(known: Known, block: Block, i: nat, eager: Mask, pending: Mask, stored: Mask)
    requires i <= |block|
  {
    && Entered(known, TrackAt(block, i).flags)
    && Agrees(known, eager, eager, pending, stored)
  }

  lemma Reenter(known: Known, block: Block, i: nat, entry: Mask, eager: Mask, pending: Mask, stored: Mask)
    requires i < |block| && Follows(known, TrackIn(block[i].body, TrackAt(block, i), |block[i].body|).flags)
    requires Agrees(known, entry, eager, pending, stored)
    ensures Ready(Enter(known), block, i + 1, eager, pending, stored)
  {
  }

  /** Run one planned instruction: it exposes what the eager instruction exposes. */
  method RunInstruction(
      flags: JitFlagState, code: Instruction, supplier: Supplier, other: OtherCode, ghost block: Block, ghost plan: Plan, ghost i: nat,
      ghost known: Known)
    returns (ok: bool, events: seq<Event>, ghost after: Known)
    requires flags.Valid() && GoodSupplier(supplier) && GoodOtherCode(other) && WellFormed(block) && i < |block|
    requires NoLateBoundary(block[i].body)
    requires plan == Plan(StatesTo(block, |block|), ExitPointsTo(block, |block|))
    requires code == WithBoundaries(block[i], DemandAt(plan, i))
    requires Ready(known, block, i, flags.eager, flags.PendingMask(), flags.stateAluFlags)
    modifies flags
    ensures flags.Valid() && ok
    ensures flags.eager == FlagsAfter(block[i].body, old(flags.eager), |block[i].body|)
    ensures events == InstructionEvents(block[i], old(flags.eager))
    ensures Ready(after, block, i + 1, flags.eager, flags.PendingMask(), flags.stateAluFlags)
    ensures block[i].exits > 0 ==> flags.stateAluFlags == flags.eager
  {
    hide JitFlagState.Valid, JitFlagState.PendingMask, NoLateBoundary, Follows, StatesTo, ExitPointsTo, TrackIn, TrackAt,
      ConsistentBody, FaultSafe, BodyEvents, FlagsAfter, KnownAfter, GoodSupplier, GoodOtherCode, Inserted;
    ghost var track, entry, body := TrackAt(block, i), flags.eager, block[i].body;
    PlanDemand(block, plan, i);
    PlannedInstruction(block[i], DemandAt(plan, i), known, track, entry);
    CodeConsistent(block, i, DemandAt(plan, i));
    events := RunBody(flags, code.body, supplier, other, known);
    ghost var end := KnownAll(code.body, known);
    Reenter(end, block, i, entry, flags.eager, flags.PendingMask(), flags.stateAluFlags);
    after := Enter(end);
    var more;
    ok, more := RunExits(flags, code.exits);
    events := events + more;
  }

  lemma CodeConsistent(block: Block, i: nat, demand: nat -> Mask)
    requires WellFormed(block) && i < |block|
    ensures ConsistentBody(WithBoundaries(block[i], demand).body)
  {
    assert block[i] in block;
    InsertedConsistent(block[i].body, demand, |block[i].body|);
  }

  /**
   Plan a block, insert its boundaries and run it, with code of other components before every operation. The
   no-pending check holds at every control exit, each exit exposes the eager flags, each fault exposes the eager flags
   at entry of its instruction, and every condition is decided as on the eager flags.
   */
  method RunPlanned(block: Block, incoming: Mask, supplier: Supplier, other: OtherCode)
    returns (ok: bool, events: seq<Event>)
    requires WellFormed(block) && GoodSupplier(supplier) && GoodOtherCode(other)
    requires forall i: nat | i < |block| :: NoLateBoundary(block[i].body)
    ensures ok
    ensures events == Events(block, incoming, |block|)
  {
    hide JitFlagState.Valid, JitFlagState.PendingMask, NoLateBoundary, WellFormed, GoodSupplier, GoodOtherCode, StatesTo, ExitPointsTo,
      WithBoundaries, DemandAt, InstructionEvents, FlagsAfter, Ready;
    var plan := AnalyzeJitCodegenState(block);
    var code := InsertJitFlagBoundaries(block, plan);
    var flags := new JitFlagState(incoming);
    ok, events := true, [];
    ghost var known := Known({}, true, true, true);
    ReadyAtStart(block, incoming);
    for i := 0 to |block|
      invariant flags.Valid() && flags.eager == FlagsAt(block, incoming, i)
      invariant ok && events == Events(block, incoming, i)
      invariant Ready(known, block, i, flags.eager, flags.PendingMask(), flags.stateAluFlags)
      invariant fresh(flags)
    {
      var stepOk, more;
      stepOk, more, known := RunInstruction(flags, code[i], supplier, other, block, plan, i, known);
      ok := ok && stepOk;
      events := events + more;
    }
  }

  lemma ReadyAtStart(block: Block, incoming: Mask)
    ensures Ready(Known({}, true, true, true), block, 0, incoming, {}, incoming)
  {
  }

  // ---------- registers the exits must store ----------

  predicate SetIn(body: seq<Op>, reg: Reg, j: nat)
    requires j <= |body|
  {
    exists k: nat :: k < j && body[k].RegisterSet? && body[k].reg == reg
  }

  predicate MaterializedIn(body: seq<Op>, reg: Reg, j: nat)
    requires j <= |body|
  {
    exists k: nat :: k < j && body[k].RegisterSet? && body[k].reg == reg && body[k].materialization
  }

  predicate SetBefore(block: Block, reg: Reg, i: nat)
    requires i <= |block|
  {
    exists k: nat :: k < i && SetIn(block[k].body, reg, |block[k].body|)
  }

  lemma {:induction false} TrackedRegisters(body: seq<Op>, track: Track, j: nat, reg: Reg)
    requires j <= |body|
    ensures reg in TrackIn(body, track, j).committed <==> reg in track.committed || MaterializedIn(body, reg, j)
    ensures reg in TrackIn(body, track, j).committed + TrackIn(body, track, j).speculative <==>
            reg in track.committed + track.speculative || SetIn(body, reg, j)
    ensures TrackIn(body, track, j).delta == track.delta
  {
    if j > 0 {
      TrackedRegisters(body, track, j - 1, reg);
      var op := body[j - 1];
      if op.RegisterSet? && op.reg == reg {
        assert SetIn(body, reg, j);
        assert op.materialization ==> MaterializedIn(body, reg, j);
      }
    }
  }

  lemma {:induction false} CommittedRegisters(block: Block, i: nat, reg: Reg)
    requires i <= |block|
    ensures reg in TrackAt(block, i).committed <==> SetBefore(block, reg, i)
    ensures TrackAt(block, i).speculative == {} && TrackAt(block, i).delta == i
  {
    if i > 0 {
      CommittedRegisters(block, i - 1, reg);
      TrackedRegisters(block[i - 1].body, TrackAt(block, i - 1), |block[i - 1].body|, reg);
      assert SetBefore(block, reg, i) <==>
             SetBefore(block, reg, i - 1) || SetIn(block[i - 1].body, reg, |block[i - 1].body|);
    }
  }

  /**
   The registers an exit stores are exactly those that may differ from state memory: at a control exit, every
   register written so far; at a fault, those written by earlier instructions or already materialized in this one.
   */
  ghost predicate StoresChangedRegisters(block: Block, point: ExitPoint, reg: Reg) {
    && point.instruction < |block| && point.op <= |block[point.instruction].body|
    && (reg in point.snapshot.committedRegs <==>
        match point.snapshot.kind
        case PostInstruction => SetBefore(block, reg, point.instruction + 1)
        case PreInstruction =>
          SetBefore(block, reg, point.instruction) ||
          MaterializedIn(block[point.instruction].body, reg, point.op))
    && point.snapshot.delta == point.instruction + (if point.snapshot.kind.PostInstruction? then 1 else 0)
  }

  lemma {:induction false} FaultsStore(block: Block, i: nat, j: nat, reg: Reg)
    requires i < |block| && j <= |block[i].body|
    ensures forall point <- FaultPoints(i, block[i].body, TrackAt(block, i), j) :: StoresChangedRegisters(block, point, reg)
  {
    hide TrackAt, TrackIn, SetBefore, MaterializedIn;
    if j > 0 {
      FaultsStore(block, i, j - 1, reg);
      CommittedRegisters(block, i, reg);
      TrackedRegisters(block[i].body, TrackAt(block, i), j - 1, reg);
    }
  }

  lemma {:induction false} ExitsStoreChangedRegisters(block: Block, i: nat, reg: Reg)
    requires i <= |block|
    ensures forall point <- ExitPointsTo(block, i) :: StoresChangedRegisters(block, point, reg)
  {
    hide TrackAt, TrackIn, FaultPoints;
    if i > 0 {
      var instruction, n := block[i - 1], |block[i - 1].body|;
      ExitsStoreChangedRegisters(block, i - 1, reg);
      FaultsStore(block, i - 1, n, reg);
      CommittedRegisters(block, i - 1, reg);
      TrackedRegisters(instruction.body, TrackAt(block, i - 1), n, reg);
      assert SetBefore(block, reg, i) <==> SetBefore(block, reg, i - 1) || SetIn(instruction.body, reg, n);
    }
  }

  /**
   Why NoLateBoundary is asked for: a boundary of the block's own, after a producer of the same instruction, stores
   flags that a later fault of that instruction must not expose.
   */
  method LateBoundaryExposesNewFlags() returns (entry: Mask, exposed: Mask)
    ensures !NoLateBoundary([FlagsSet(Logic, W32, Inputs(0, 0, 0)), FlagsBoundary(ALL_FLAGS), MemoryAccess])
    ensures exposed != entry
  {
    hide JitFlagState.Valid;
    ghost var body := [FlagsSet(Logic, W32, Inputs(0, 0, 0)), FlagsBoundary(ALL_FLAGS), MemoryAccess];
    assert body[0].FlagsSet? && SetsFlags(body, 1);
    assert body[1].FlagsBoundary? && BoundaryAfterSet(body, 2);
    assert body[2].MemoryAccess?;
    entry := {};
    var flags := new JitFlagState(entry);
    flags.EmitSet(Logic, W32, Inputs(0, 0, 0), _ => FromFreshLocal);
    flags.EmitBoundary(ALL_FLAGS);
    exposed := flags.stateAluFlags;
    EveryFlagListed(flags.PendingMask());
    ZeroResultSetsZeroFlag();
    assert ZF in exposed;
  }

  lemma ZeroResultSetsZeroFlag()
    ensures ZF in SetFlags({}, Logic, W32, Inputs(0, 0, 0))
  {
    assert Define(Logic, W32, ZF) == Some(Eqz(InputValue(Result)));
    assert Produces(Logic, W32, Inputs(0, 0, 0), ZF);
  }
}
