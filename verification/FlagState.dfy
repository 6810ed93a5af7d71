/**
 The emit-time state machine that keeps the arithmetic flags lazy. Each flag comes from the word in state
 memory, from the cached local, or from a pending producer whose inputs were captured when it ran.
 Emitting an instruction is modelled as executing it.
 */
module FlagState {
  import opened X86Types
  import opened Flags
  import opened Conditions
  import opened DirectConditions

  /** Where a pending producer finds one of its inputs again. */
  datatype PendingInput =
    | Direct(value: Word)
    | Local(local: nat, handle: Option<nat>)

  // The id stands for the identity of the descriptor object.
  datatype PendingFlags = PendingFlags(
    id: nat, producer: Producer, width: Width, inputs: map<InputName, PendingInput>)

  datatype FlagSource = Incoming | Cached | Pending(pending: PendingFlags)

  /** How the surrounding code supplies an input: a constant, a value the value cache owns, or neither. */
  datatype Supply = FromConst | FromCache(local: nat) | FromFreshLocal

  function HandlesOf(pending: PendingFlags): set<nat> {
    set name <- pending.inputs | pending.inputs[name].Local? && pending.inputs[name].handle.Some? ::
      pending.inputs[name].handle.value
  }

  /** No two inputs of a producer share a handle. */
  ghost predicate HandlesDiffer(inputs: map<InputName, PendingInput>) {
    forall n <- inputs, m <- inputs ::
      n != m && inputs[n].Local? && inputs[m].Local? && inputs[n].handle.Some? ==> inputs[n].handle != inputs[m].handle
  }

  ghost predicate HandlesDistinct(pending: PendingFlags) {
    HandlesDiffer(pending.inputs)
  }

  function ReadInput(input: PendingInput, locals: seq<Word>): Word {
    match input
    case Direct(value) => value
    case Local(local, _) => if local < |locals| then locals[local] else 0
  }

  function NamedInput(pending: PendingFlags, name: InputName, locals: seq<Word>): Word {
    if name in pending.inputs then ReadInput(pending.inputs[name], locals) else 0
  }

  function InputsOf(pending: PendingFlags, locals: seq<Word>): Inputs {
    Inputs(NamedInput(pending, Left, locals), NamedInput(pending, Right, locals), NamedInput(pending, Result, locals))
  }

  /**
   Who owns what: the producers captured and not yet released, every handle captured for one of them, the value
   cache's live handles with the local each one keeps, and the locals that only this state writes.
   */
  datatype Ownership = Ownership(
    held: set<PendingFlags>, owned: set<nat>, live: map<nat, nat>, released: set<nat>,
    locals: seq<Word>, privateLocals: set<nat>, nextId: nat, nextHandle: nat)
  {
    ghost predicate InputHeld(input: PendingInput) {
      match input
      case Direct(_) => true
      case Local(local, None) => local < |locals| && local in privateLocals
      case Local(local, Some(handle)) =>
        local < |locals| && handle in live && live[handle] == local && handle < nextHandle
    }

    ghost predicate PendingHeld(pending: PendingFlags) {
      && pending.id < nextId && pending.id !in released && HandlesDistinct(pending)
      && pending.inputs.Keys == (set name | name in InputNames(pending.producer))
      && (forall name <- pending.inputs :: InputHeld(pending.inputs[name]))
      && Consistent(pending.producer, pending.width, InputsOf(pending, locals))
    }

    ghost predicate HeldSeparate() {
      && (forall p <- held, q <- held :: p.id == q.id ==> p == q)
      && (forall p <- held, q <- held :: p != q ==> HandlesOf(p) !! HandlesOf(q))
    }

    ghost predicate Needed(handle: nat) {
      exists p <- held :: handle in HandlesOf(p)
    }

    /** A handle captured here is live exactly while some held producer needs it. */
    ghost predicate HandlesTracked() {
      && (forall p <- held :: HandlesOf(p) <= owned)
      && (forall h <- live :: h < nextHandle)
      && (forall h <- owned :: h < nextHandle && (h in live <==> Needed(h)))
    }

    ghost predicate Ok() {
      && (forall p <- held :: PendingHeld(p)) && HeldSeparate() && HandlesTracked()
      && (forall id <- released :: id < nextId)
    }

    /** Locals that other code must not write. */
    function Reserved(): set<nat> {
      privateLocals + live.Values
    }

    /** Forget one producer and give back its handles. */
    function Drop(pending: PendingFlags): Ownership {
      this.(held := held - {pending}, live := live - HandlesOf(pending), released := released + {pending.id})
    }

    /** Start holding a producer whose inputs have just been captured. */
    function Add(pending: PendingFlags): Ownership {
      this.(held := held + {pending}, owned := owned + HandlesOf(pending))
    }

    lemma DropOk(pending: PendingFlags)
      requires Ok() && pending in held
      ensures Drop(pending).Ok()
    {
      var after := Drop(pending);
      forall p <- after.held ensures after.PendingHeld(p) {
        assert PendingHeld(p);
        assert HandlesOf(p) !! HandlesOf(pending);
        forall name <- p.inputs ensures after.InputHeld(p.inputs[name]) {
          assert InputHeld(p.inputs[name]);
          if p.inputs[name].Local? && p.inputs[name].handle.Some? {
            assert p.inputs[name].handle.value in HandlesOf(p);
          }
        }
      }
      forall h <- after.owned ensures h < nextHandle && (h in after.live <==> after.Needed(h)) {
        if h in after.live {
          var p :| p in held && h in HandlesOf(p);
          assert p in after.held;
        }
      }
    }

    /** Inputs freshly captured for a new producer: readable, and kept by handles nobody else knows. */
    ghost predicate Capturable(pending: PendingFlags) {
      && pending.id < nextId && pending.id !in released && HandlesDistinct(pending)
      && (forall p <- held :: p.id != pending.id)
      && pending.inputs.Keys == (set name | name in InputNames(pending.producer))
      && HandlesOf(pending) !! owned
      && (forall name <- pending.inputs :: InputHeld(pending.inputs[name]))
      && Consistent(pending.producer, pending.width, InputsOf(pending, locals))
    }

    lemma AddTracked(pending: PendingFlags, h: nat)
      requires Ok() && Capturable(pending) && h in owned + HandlesOf(pending)
      ensures h < nextHandle && (h in live <==> Add(pending).Needed(h))
    {
      var after := Add(pending);
      if h in HandlesOf(pending) {
        assert pending in after.held;
        var name :| name in pending.inputs && pending.inputs[name].Local? && pending.inputs[name].handle == Some(h);
        assert InputHeld(pending.inputs[name]);
      } else {
        assert h in live <==> Needed(h);
        if Needed(h) {
          var p :| p in held && h in HandlesOf(p);
          assert p in after.held;
        }
      }
    }

    lemma AddSeparate(pending: PendingFlags)
      requires Ok() && Capturable(pending)
      ensures Add(pending).HeldSeparate()
    {
      assert forall p <- held :: HandlesOf(p) <= owned;
    }

    lemma AddOk(pending: PendingFlags)
      requires Ok() && Capturable(pending)
      ensures Add(pending).Ok()
    {
      var after := Add(pending);
      forall p <- after.held ensures after.PendingHeld(p) {
        assert p != pending ==> PendingHeld(p);
        forall name <- p.inputs ensures after.InputHeld(p.inputs[name]) {
          assert InputHeld(p.inputs[name]);
        }
      }
      AddSeparate(pending);
      forall h <- after.owned ensures h < nextHandle && (h in after.live <==> after.Needed(h)) {
        AddTracked(pending, h);
      }
    }

    lemma ReadUnchanged(pending: PendingFlags, after: seq<Word>)
      requires PendingHeld(pending) && |locals| <= |after|
      requires forall i <- Reserved() :: i < |locals| ==> after[i] == locals[i]
      ensures InputsOf(pending, after) == InputsOf(pending, locals)
    {
      forall name <- pending.inputs
        ensures ReadInput(pending.inputs[name], after) == ReadInput(pending.inputs[name], locals)
      {
        assert InputHeld(pending.inputs[name]);
        if pending.inputs[name].Local? && pending.inputs[name].handle.Some? {
          assert live[pending.inputs[name].handle.value] in live.Values;
        }
      }
    }

    /** Locals nobody here relies on may be overwritten. */
    lemma OtherCodeOk(after: seq<Word>)
      requires Ok() && |locals| <= |after|
      requires forall i <- Reserved() :: i < |locals| ==> after[i] == locals[i]
      ensures this.(locals := after).Ok()
      ensures forall p <- held :: InputsOf(p, after) == InputsOf(p, locals)
    {
      var own := this.(locals := after);
      forall p <- held ensures own.PendingHeld(p) && InputsOf(p, after) == InputsOf(p, locals) {
        assert PendingHeld(p);
        ReadUnchanged(p, after);
        forall name <- p.inputs ensures own.InputHeld(p.inputs[name]) {
          assert InputHeld(p.inputs[name]);
        }
      }
      forall h <- owned ensures h in own.live <==> own.Needed(h) {
        assert h in live <==> Needed(h);
      }
    }

    /** More handles, locals and private locals never hurt. */
    ghost predicate Extends(before: Ownership) {
      && held == before.held && owned == before.owned && released == before.released
      && before.live.Keys <= live.Keys && (forall h <- before.live :: live[h] == before.live[h])
      && (forall h <- live.Keys - before.live.Keys :: before.nextHandle <= h)
      && before.locals <= locals && before.privateLocals <= privateLocals
      && before.nextId <= nextId && before.nextHandle <= nextHandle
      && (forall h <- live :: h < nextHandle)
    }

    lemma ExtendsTrans(between: Ownership, before: Ownership)
      requires between.Extends(before) && Extends(between)
      ensures Extends(before)
    {
      forall h <- live.Keys - before.live.Keys ensures before.nextHandle <= h {
        assert h in between.live ==> h in between.live.Keys - before.live.Keys;
        assert h !in between.live ==> h in live.Keys - between.live.Keys;
      }
    }

    lemma NextIdExtends(before: Ownership, previous: nat)
      requires this.(nextId := previous).Extends(before) && previous <= nextId
      ensures Extends(before)
      ensures forall inputs, names: seq<InputName>, values, low ::
                this.(nextId := previous).Captured(inputs, names, values, low) ==> Captured(inputs, names, values, low)
    {
    }

    lemma ExtendsHeld(before: Ownership)
      requires Extends(before)
      ensures held == before.held
    {
    }

    lemma SuppliesStay(before: Ownership, values: Inputs, supplies: InputName -> Supply, name: InputName)
      requires Extends(before) && SuppliesOk(before.locals, values, supplies)
      ensures supplies(name).FromCache? ==>
                supplies(name).local < |locals| && locals[supplies(name).local] == Input(values, name)
      ensures forall h <- live :: h < nextHandle
      ensures before.nextHandle <= nextHandle
    {
    }

    ghost predicate CapturedInput(input: PendingInput, value: Word, low: nat) {
      && InputHeld(input) && ReadInput(input, locals) == value
      && (input.Local? && input.handle.Some? ==> low <= input.handle.value)
    }

    /** The named inputs have all been captured, by handles that are new and distinct. */
    ghost predicate Captured(inputs: map<InputName, PendingInput>, names: seq<InputName>, values: Inputs, low: nat) {
      && inputs.Keys == (set name | name in names)
      && (forall name <- inputs :: CapturedInput(inputs[name], Input(values, name), low))
      && HandlesDiffer(inputs)
    }

    lemma NothingCaptured(values: Inputs, names: seq<InputName>)
      requires Ok()
      ensures Captured(map[], names[..0], values, nextHandle) && Extends(this)
    {
    }

    lemma StillCaptured(between: Ownership, input: PendingInput, value: Word, low: nat)
      requires Extends(between) && between.CapturedInput(input, value, low)
      ensures CapturedInput(input, value, low)
    {
    }

    lemma CapturedMore(
        between: Ownership, inputs: map<InputName, PendingInput>, names: seq<InputName>, i: nat, values: Inputs,
        low: nat, input: PendingInput)
      requires Extends(between) && i < |names| && names[i] !in names[..i] && low <= between.nextHandle
      requires between.Captured(inputs, names[..i], values, low)
      requires CapturedInput(input, Input(values, names[i]), between.nextHandle)
      ensures Captured(inputs[names[i] := input], names[..i + 1], values, low)
    {
      forall name <- inputs ensures CapturedInput(inputs[name], Input(values, name), low) {
        StillCaptured(between, inputs[name], Input(values, name), low);
      }
      assert names[..i + 1] == names[..i] + [names[i]];
      assert forall name <- inputs :: between.InputHeld(inputs[name]);
    }

    lemma CapturedIsCapturable(before: Ownership, pending: PendingFlags, values: Inputs)
      requires before.Ok() && Extends(before) && before.nextId == pending.id < nextId
      requires Captured(pending.inputs, InputNames(pending.producer), values, before.nextHandle)
      requires Consistent(pending.producer, pending.width, values)
      ensures Capturable(pending)
      ensures forall on: Mask :: SetFlags(on, pending.producer, pending.width, InputsOf(pending, locals)) ==
                                 SetFlags(on, pending.producer, pending.width, values)
    {
      hide Produces, SetFlags, Consistent;
      forall name <- InputNames(pending.producer) ensures Input(InputsOf(pending, locals), name) == Input(values, name) {
        assert CapturedInput(pending.inputs[name], Input(values, name), before.nextHandle);
      }
      NamedInputsMatter(pending.producer, pending.width, InputsOf(pending, locals), values);
      assert forall p <- held :: before.PendingHeld(p);
    }

    lemma ExtendOk(after: Ownership)
      requires Ok() && after.Extends(this)
      ensures after.Ok()
      ensures forall p <- held :: InputsOf(p, after.locals) == InputsOf(p, locals)
    {
      forall p <- held ensures after.PendingHeld(p) && InputsOf(p, after.locals) == InputsOf(p, locals) {
        assert PendingHeld(p);
        forall name <- p.inputs ensures after.InputHeld(p.inputs[name]) &&
                                        ReadInput(p.inputs[name], after.locals) == ReadInput(p.inputs[name], locals) {
          assert InputHeld(p.inputs[name]);
        }
      }
      forall h <- owned ensures h < after.nextHandle && (h in after.live <==> after.Needed(h)) {
        assert h < nextHandle && (h in live <==> Needed(h));
        if Needed(h) {
          var p :| p in held && h in HandlesOf(p);
          assert p in after.held;
        }
        assert h in after.live.Keys - live.Keys <==> h in after.live && h !in live;
      }
    }
  }

  ghost predicate SuppliesOk(locals: seq<Word>, values: Inputs, supplies: InputName -> Supply) {
    forall name: InputName :: supplies(name).FromCache? ==>
      supplies(name).local < |locals| && locals[supplies(name).local] == Input(values, name)
  }

  /** Only the inputs a producer names matter to it. */
  lemma NamedInputsMatter(producer: Producer, width: Width, a: Inputs, b: Inputs)
    requires forall name <- InputNames(producer) :: Input(a, name) == Input(b, name)
    ensures Consistent(producer, width, a) == Consistent(producer, width, b)
    ensures forall flag: Flag :: Produces(producer, width, a, flag) == Produces(producer, width, b, flag)
    ensures forall on: Mask :: SetFlags(on, producer, width, a) == SetFlags(on, producer, width, b)
  {
    assert Result in InputNames(producer) && a.result == Input(a, Result) && b.result == Input(b, Result);
    assert !producer.Logic? ==> Left in InputNames(producer) && a.left == Input(a, Left) && b.left == Input(b, Left);
    assert producer.Add? || producer.Sub? ==>
        Right in InputNames(producer) && a.right == Input(a, Right) && b.right == Input(b, Right);
    forall flag: Flag ensures Produces(producer, width, a, flag) == Produces(producer, width, b, flag) {
      NamedInputsMatterForFlag(producer, width, a, b, flag);
    }
  }

  /** How an expression may mention the inputs of a producer. */
  predicate Mentions(expr: ValueExpr, names: seq<InputName>) {
    match expr
    case InputValue(name) => name in names
    case ConstValue(_) => true
    case And(a, b) => Mentions(a, names) && Mentions(b, names)
    case Xor(a, b) => Mentions(a, names) && Mentions(b, names)
  }

  lemma {:induction false} SameValue(expr: ValueExpr, names: seq<InputName>, a: Inputs, b: Inputs)
    requires Mentions(expr, names) && forall name <- names :: Input(a, name) == Input(b, name)
    ensures EvalValue(expr, a) == EvalValue(expr, b)
  {
    match expr
    case InputValue(_) =>
    case ConstValue(_) =>
    case And(x, y) => SameValue(x, names, a, b); SameValue(y, names, a, b);
    case Xor(x, y) => SameValue(x, names, a, b); SameValue(y, names, a, b);
  }

  predicate FlagMentions(expr: FlagExpr, names: seq<InputName>) {
    match expr
    case ConstFlag(_) => true
    case UndefFlag => true
    case Eqz(value) => Mentions(value, names)
    case Ne0(value) => Mentions(value, names)
    case ULt(a, b) => Mentions(a, names) && Mentions(b, names)
    case ValueBit(value, _) => Mentions(value, names)
    case Parity8(value) => Mentions(value, names)
    case SignBit(value, _) => Mentions(value, names)
  }

  lemma DefinitionMentions(producer: Producer, width: Width, flag: Flag)
    requires Define(producer, width, flag).Some?
    ensures FlagMentions(Define(producer, width, flag).value, InputNames(producer))
  {
    var names := InputNames(producer);
    var l, r, t := InputValue(Left), RightExpr(producer), ResultExpr(width);
    assert Mentions(t, names);
    if !producer.Logic? {
      assert Mentions(l, names) && Mentions(r, names);
      assert Mentions(Xor(l, r), names) && Mentions(Xor(l, t), names) && Mentions(Xor(r, t), names);
      assert Mentions(And(Xor(l, t), Xor(r, t)), names) && Mentions(And(Xor(l, r), Xor(l, t)), names);
    }
  }

  lemma NamedInputsMatterForFlag(producer: Producer, width: Width, a: Inputs, b: Inputs, flag: Flag)
    requires forall name <- InputNames(producer) :: Input(a, name) == Input(b, name)
    ensures Produces(producer, width, a, flag) == Produces(producer, width, b, flag)
  {
    hide EvalValue, Bits.EvenParity, Mentions, Define, Input, InputNames;
    var names, definition := InputNames(producer), Define(producer, width, flag);
    if definition.Some? {
      DefinitionMentions(producer, width, flag);
      match definition.value
      case ConstFlag(_) =>
      case UndefFlag =>
      case Eqz(value) => SameValue(value, names, a, b);
      case Ne0(value) => SameValue(value, names, a, b);
      case ULt(x, y) => SameValue(x, names, a, b); SameValue(y, names, a, b);
      case ValueBit(value, _) => SameValue(value, names, a, b);
      case Parity8(value) => SameValue(value, names, a, b);
      case SignBit(value, _) => SameValue(value, names, a, b);
    }
  }

  lemma EveryFlagIsListed()
    ensures forall flag: Flag :: flag in ALL_FLAGS
  {
    forall flag: Flag ensures flag in ALL_FLAGS { EveryFlagListed({flag}); }
  }

  lemma EveryFlagListed(mask: Mask)
    ensures mask <= ALL_FLAGS
  {
    forall flag <- mask ensures flag in ALL_FLAGS {
      match flag case CF => case PF => case AF => case ZF => case SF => case OF =>
    }
  }

  /** The flags among the first entries of the scan order. */
  ghost function Scanned(count: nat): Mask
    requires count <= |FLAG_ORDER|
  {
    set j | 0 <= j < count :: FLAG_ORDER[j]
  }

  lemma ScanStep(count: nat)
    requires count < |FLAG_ORDER|
    ensures Scanned(count + 1) == Scanned(count) + {FLAG_ORDER[count]}
    ensures FLAG_ORDER[count] !in Scanned(count)
  {
  }

  lemma ScanComplete()
    ensures Scanned(0) == {} && forall flag: Flag :: flag in Scanned(|FLAG_ORDER|)
  {
    assert FLAG_ORDER[0] == CF && FLAG_ORDER[1] == PF && FLAG_ORDER[2] == AF;
    assert FLAG_ORDER[3] == ZF && FLAG_ORDER[4] == SF && FLAG_ORDER[5] == OF;
    forall flag: Flag ensures flag in Scanned(|FLAG_ORDER|) {
      EveryFlagListed({flag});
      assert flag in ALL_FLAGS;
    }
  }

  /** The source of every flag; no flag is ever missing from the map. */
  type Sources = sources: map<Flag, FlagSource> | forall flag: Flag :: flag in sources
    witness NothingWritten()

  function NothingWritten(): (sources: map<Flag, FlagSource>)
    ensures forall flag: Flag :: flag in sources && sources[flag] == Incoming
  {
    EveryFlagIsListed();
    map flag <- ALL_FLAGS :: Incoming
  }

  /** The sources after the masked flags have been pointed elsewhere. */
  function Redirect(sources: Sources, mask: Mask, source: FlagSource): Sources {
    map flag <- sources :: if flag in mask then source else sources[flag]
  }

  ghost function PendingIn(sources: Sources): Mask {
    set flag <- sources | sources[flag].Pending?
  }

  /** The masked flags that wait for one producer. */
  ghost function WaitingFor(sources: Sources, mask: Mask, pending: PendingFlags): Mask {
    set flag <- mask | sources[flag] == Pending(pending)
  }

  ghost predicate AllHeld(sources: Sources, held: set<PendingFlags>) {
    forall flag: Flag :: sources[flag].Pending? ==> sources[flag].pending in held
  }

  ghost predicate Refers(sources: Sources, pending: PendingFlags) {
    exists flag: Flag :: sources[flag] == Pending(pending)
  }

  ghost predicate AllReferred(sources: Sources, held: set<PendingFlags>) {
    forall p <- held :: Refers(sources, p)
  }

  /** The masked flags that wait for one of several producers. */
  ghost function Waiting(sources: Sources, mask: Mask, producers: set<PendingFlags>): Mask {
    set flag <- mask | sources[flag].Pending? && sources[flag].pending in producers
  }

  /** The producers that lose a flag when the masked flags are pointed elsewhere. */
  ghost function Losing(sources: Sources, mask: Mask, source: FlagSource): set<PendingFlags> {
    set flag <- mask | sources[flag].Pending? && sources[flag] != source :: sources[flag].pending
  }

  lemma RedirectStep(sources: Sources, mask: Mask, source: FlagSource, i: nat, held: set<PendingFlags>)
    requires i < |FLAG_ORDER| && AllHeld(sources, held)
    ensures
      var before, flag := Redirect(sources, mask * Scanned(i), source), FLAG_ORDER[i];
      var losing := Losing(sources, mask * Scanned(i), source);
      && before[flag] == sources[flag]
      && (flag !in mask ==> Redirect(sources, mask * Scanned(i + 1), source) == before &&
                            Losing(sources, mask * Scanned(i + 1), source) == losing)
      && (flag in mask ==> Redirect(sources, mask * Scanned(i + 1), source) == before[flag := source] &&
                           Losing(sources, mask * Scanned(i + 1), source) == losing +
                             (if before[flag].Pending? && before[flag] != source then {before[flag].pending} else {}))
      && (before[flag].Pending? ==> before[flag].pending in held)
  {
    ScanStep(i);
    var flag := FLAG_ORDER[i];
    if flag !in mask {
      assert mask * Scanned(i + 1) == mask * Scanned(i);
    } else {
      assert mask * Scanned(i + 1) == mask * Scanned(i) + {flag};
    }
  }

  lemma RedirectNothing(sources: Sources, mask: Mask, source: FlagSource)
    requires mask == {}
    ensures Redirect(sources, mask, source) == sources
  {
  }

  lemma WaitingGrows(sources: Sources, mask: Mask, producers: set<PendingFlags>, pending: PendingFlags)
    requires pending !in producers
    ensures Waiting(sources, mask, producers + {pending}) ==
            Waiting(sources, mask, producers) + WaitingFor(sources, mask, pending)
    ensures forall flag <- WaitingFor(sources, mask, pending) ::
              Redirect(sources, Waiting(sources, mask, producers), Cached)[flag] == Pending(pending)
  {
  }

  lemma UnreferencedStaysHeld(sources: Sources, held: set<PendingFlags>, pending: PendingFlags)
    requires AllHeld(sources, held)
    ensures Refers(sources, pending) || AllHeld(sources, held - {pending})
  {
  }

  /** Only producers that lost a flag, and not to themselves, can have become unreferenced. */
  lemma RedirectRefers(sources: Sources, mask: Mask, source: FlagSource, held: set<PendingFlags>, replaced: set<PendingFlags>)
    requires AllHeld(sources, held) && (source.Pending? ==> source.pending in held) && mask != {}
    requires AllReferred(sources, held - (if source.Pending? then {source.pending} else {}))
    requires Losing(sources, mask, source) <= replaced
    ensures AllHeld(Redirect(sources, mask, source), held)
    ensures AllReferred(Redirect(sources, mask, source), held - replaced)
  {
    var after := Redirect(sources, mask, source);
    forall p <- held - replaced ensures Refers(after, p) {
      if source == Pending(p) {
        var flag :| flag in mask;
        assert after[flag] == source;
      } else {
        assert Refers(sources, p);
        var flag: Flag :| sources[flag] == Pending(p);
        assert p !in Losing(sources, mask, source);
        assert after[flag] == Pending(p);
      }
    }
  }

  /** The flag words and sources, with what the flags would be had every producer written them at once. */
  datatype FlagView = FlagView(
    sources: Sources, local: Mask, state: Mask, dirty: bool, materialized: Mask, eager: Mask,
    locals: seq<Word>)
  {
    /** Where a flag's architectural value can be found. */
    ghost predicate Found(flag: Flag) {
      match sources[flag]
      case Incoming => flag in state <==> flag in eager
      case Cached => (flag in local <==> flag in eager) && (dirty || (flag in state <==> flag in eager))
      case Pending(p) =>
        && flag in WrittenMask(p.producer)
        && (Produces(p.producer, p.width, InputsOf(p, locals), flag) <==> flag in eager)
    }

    ghost predicate Ok() {
      && (forall flag: Flag :: flag in materialized <==> sources[flag].Cached?)
      && (forall flag: Flag :: Found(flag))
    }

    lemma PendingWritten(mask: Mask, pending: PendingFlags)
      requires Ok()
      requires forall flag <- mask :: sources[flag] == Pending(pending)
      ensures mask <= WrittenMask(pending.producer)
    {
      assert forall flag <- mask :: Found(flag);
    }

    /** Move some flags into the local. */
    function Cache(mask: Mask, word: Mask, nowDirty: bool): FlagView {
      this.(sources := Redirect(sources, mask, Cached), local := word, dirty := nowDirty, materialized := materialized + mask)
    }

    /** The masked flags now sit in the local; every flag kept its value and state memory was left alone. */
    ghost predicate Moved(before: FlagView, mask: Mask, nowDirty: bool) {
      && sources == Redirect(before.sources, mask, Cached) && materialized == before.materialized + mask
      && dirty == nowDirty && state == before.state && eager == before.eager && locals == before.locals
    }

    lemma MovedNothing(mask: Mask)
      requires mask == {}
      ensures Moved(this, mask, dirty)
    {
    }

    lemma MovedMore(between: FlagView, before: FlagView, first: Mask, second: Mask, wasDirty: bool)
      requires between.Moved(before, first, wasDirty) && Moved(between, second, dirty)
      ensures Moved(before, first + second, dirty)
    {
    }

    lemma MovedSources(before: FlagView, mask: Mask, nowDirty: bool)
      requires Moved(before, mask, nowDirty)
      ensures sources == Redirect(before.sources, mask, Cached) && dirty == nowDirty
      ensures PendingIn(sources) == PendingIn(before.sources) - mask && locals == before.locals
      ensures materialized == before.materialized + mask && state == before.state && eager == before.eager
    {
    }

    /** The flags of some producers have been published, the rest is as before. */
    ghost predicate Progress(before: FlagView, whole: Mask, done: set<PendingFlags>) {
      Moved(before, Waiting(before.sources, whole, done), before.dirty || done != {})
    }

    lemma NoProgress(whole: Mask)
      ensures Progress(this, whole, {})
    {
      MovedNothing(Waiting(sources, whole, {}));
    }

    lemma ProgressWaits(before: FlagView, whole: Mask, done: set<PendingFlags>, pending: PendingFlags)
      requires Progress(before, whole, done) && pending !in done
      ensures forall flag <- WaitingFor(before.sources, whole, pending) :: sources[flag] == Pending(pending)
    {
      WaitingGrows(before.sources, whole, done, pending);
    }

    lemma ProgressStep(between: FlagView, before: FlagView, whole: Mask, done: set<PendingFlags>, pending: PendingFlags)
      requires between.Progress(before, whole, done) && pending !in done
      requires Moved(between, WaitingFor(before.sources, whole, pending), true)
      ensures Progress(before, whole, done + {pending})
    {
      WaitingGrows(before.sources, whole, done, pending);
      MovedMore(between, before, Waiting(before.sources, whole, done), WaitingFor(before.sources, whole, pending), between.dirty);
    }

    lemma PendingIsNotMaterialized()
      requires Ok()
      ensures PendingIn(sources) !! materialized
    {
    }

    /** A flag not in the local is either still incoming or pending. */
    lemma UnmaterializedMask(mask: Mask, incoming: Mask)
      requires Ok() && mask !! materialized && incoming == (set flag <- mask | sources[flag] == Incoming)
      ensures mask == incoming + mask * PendingIn(sources) && incoming !! PendingIn(sources)
    {
    }

    lemma CachePendingOk(mask: Mask, word: Mask, pending: PendingFlags)
      requires Ok()
      requires forall flag <- mask :: sources[flag] == Pending(pending)
      requires word == (local - mask) +
                 (set flag <- mask | Produces(pending.producer, pending.width, InputsOf(pending, locals), flag))
      ensures Cache(mask, word, true).Ok()
    {
      var after := Cache(mask, word, true);
      forall flag: Flag ensures after.Found(flag) {
        assert Found(flag);
      }
    }

    lemma CacheIncomingOk(mask: Mask, word: Mask)
      requires Ok()
      requires forall flag <- mask :: sources[flag] == Incoming
      requires (materialized == {} && word == state) || word == local * (ALL_FLAGS - mask) + state * mask
      ensures Cache(mask, word, dirty).Ok()
    {
      EveryFlagListed(local + state);
      var after := Cache(mask, word, dirty);
      forall flag: Flag ensures after.Found(flag) {
        assert Found(flag);
      }
    }

    /** Storing a complete local publishes every flag. */
    lemma StoreOk()
      requires Ok() && materialized == ALL_FLAGS
      ensures local == eager
      ensures this.(state := local, dirty := false).Ok()
    {
      EveryFlagListed(local + eager + state);
      var after := this.(state := local, dirty := false);
      forall flag: Flag ensures after.Found(flag) && (flag in local <==> flag in eager) {
        assert Found(flag);
      }
    }

    /** With nothing pending and nothing dirty, the stored word is already the eager one. */
    lemma CleanStateIsEager()
      requires Ok() && PendingIn(sources) == {} && !dirty
      ensures state == eager
    {
      forall flag: Flag ensures flag in state <==> flag in eager {
        assert Found(flag);
        assert flag !in PendingIn(sources);
      }
    }

    /** Run a new producer: eagerly it sets its flags, lazily those flags only change source. */
    function Set(pending: PendingFlags): FlagView {
      var mask := WrittenMask(pending.producer);
      this.(sources := Redirect(sources, mask, Pending(pending)), materialized := materialized - mask,
      eager := SetFlags(eager, pending.producer, pending.width, InputsOf(pending, locals)))
    }

    lemma SetDefinition(pending: PendingFlags)
      ensures Set(pending) == this.(
              sources := Redirect(sources, WrittenMask(pending.producer), Pending(pending)),
              materialized := materialized - WrittenMask(pending.producer),
              eager := SetFlags(eager, pending.producer, pending.width, InputsOf(pending, locals)))
    {
    }

    lemma SetOk(pending: PendingFlags)
      requires Ok()
      ensures Set(pending).Ok()
    {
      var after := Set(pending);
      forall flag: Flag ensures after.Found(flag) {
        assert Found(flag);
      }
    }

    /** Different locals that read the same for every pending producer. */
    lemma LocalsOk(after: seq<Word>)
      requires Ok()
      requires forall flag: Flag :: sources[flag].Pending? ==>
                 InputsOf(sources[flag].pending, after) == InputsOf(sources[flag].pending, locals)
      ensures this.(locals := after).Ok()
    {
      forall flag: Flag ensures this.(locals := after).Found(flag) {
        assert Found(flag);
      }
    }

    lemma HeldLocalsOk(own: Ownership, after: seq<Word>)
      requires Ok() && AllHeld(sources, own.held) && own.locals == locals
      requires forall p <- own.held :: InputsOf(p, after) == InputsOf(p, locals)
      ensures this.(locals := after).Ok()
    {
      LocalsOk(after);
    }

    lemma SetPending(pending: PendingFlags)
      ensures PendingIn(Set(pending).sources) == PendingIn(sources) + WrittenMask(pending.producer)
      ensures Set(pending).eager == SetFlags(eager, pending.producer, pending.width, InputsOf(pending, locals))
    {
    }

    /** Flags whose values all sit in the local are read off the local. */
    lemma LocalDecides(cc: Cc)
      requires Ok() && ConditionReads(cc) <= materialized
      ensures Condition(cc, local) == Condition(cc, eager)
    {
      assert forall flag <- ConditionReads(cc) :: Found(flag);
      ReadsSuffice(cc, local, eager);
    }

    /** Flags that all wait for one producer are decided by that producer. */
    lemma ProducerDecides(cc: Cc, pending: PendingFlags)
      requires Ok() && Consistent(pending.producer, pending.width, InputsOf(pending, locals))
      requires forall flag <- ConditionReads(cc) :: sources[flag] == Pending(pending)
      requires ConditionKind(pending.producer, cc, false).Some?
      ensures Decide(ConditionKind(pending.producer, cc, false).value, pending.width, InputsOf(pending, locals))
           == Condition(cc, eager)
    {
      assert forall flag <- ConditionReads(cc) :: Found(flag);
      DirectComparisonCorrect(pending.producer, pending.width, InputsOf(pending, locals), cc, false, eager);
    }
  }

  /** More locals, and the reserved ones as they were. */
  predicate KeepsReserved(locals: seq<Word>, reserved: set<nat>, after: seq<Word>) {
    |locals| <= |after| && forall i <- reserved :: i < |locals| ==> after[i] == locals[i]
  }

  class JitFlagState {
    // Wasm locals holding captured values, the value cache's live handles with the local each one keeps, and the locals
    // the flag state has allocated for itself.
    var locals: seq<Word>
    var live: map<nat, nat>
    var privateLocals: set<nat>
    // The compact flag word in its cached local and in state memory.
    var aluFlagsLocal: Mask
    var stateAluFlags: Mask

    var flagSources: Sources
    var released: set<nat>
    var aluFlagsLocalDirty: bool
    var materializedMask: Mask
    var nextId: nat
    var nextHandle: nat

    // What the flags would be had every producer written them at once.
    ghost var eager: Mask
    ghost var held: set<PendingFlags>
    ghost var owned: set<nat>

    ghost function Own(): Ownership
      reads this
    {
      Ownership(held, owned, live, released, locals, privateLocals, nextId, nextHandle)
    }

    ghost function View(): FlagView
      reads this
    {
      FlagView(flagSources, aluFlagsLocal, stateAluFlags, aluFlagsLocalDirty, materializedMask, eager, locals)
    }

    ghost predicate Valid()
      reads this
    {
      Own().Ok() && AllHeld(flagSources, held) && AllReferred(flagSources, held) && View().Ok()
    }

    ghost function PendingMask(): Mask
      reads this
    {
      PendingIn(flagSources)
    }

    constructor (incoming: Mask)
      ensures Valid()
      ensures eager == incoming && stateAluFlags == incoming
      ensures PendingMask() == {}
    {
      locals, live := [], map[];
      aluFlagsLocal, stateAluFlags := {}, incoming;
      flagSources := NothingWritten();
      released, aluFlagsLocalDirty, materializedMask, nextId, nextHandle := {}, false, {}, 0, 0;
      eager, held, owned, privateLocals := incoming, {}, {}, {};
    }

    // ---------- sources ----------

    /** Give back every captured input of a producer. */
    method ReleaseInputs(pending: PendingFlags)
      requires HandlesDistinct(pending)
      requires forall name <- pending.inputs :: Own().InputHeld(pending.inputs[name])
      modifies `live
      ensures live == old(live) - HandlesOf(pending)
    {
      var names := pending.inputs.Keys;
      ghost var done: set<InputName> := {};
      while names != {}
        invariant names + done == pending.inputs.Keys && names !! done
        invariant live == old(live) - (set name <- done | pending.inputs[name].Local? && pending.inputs[name].handle.Some? ::
                                        pending.inputs[name].handle.value)
        decreases names
      {
        var name :| name in names;
        if pending.inputs[name].Local? && pending.inputs[name].handle.Some? {
          assert old(Own().InputHeld(pending.inputs[name]));
          // A handle can be given back only while it is live.
          assert pending.inputs[name].handle.value in live;
          live := live - {pending.inputs[name].handle.value};
        }
        names := names - {name};
        done := done + {name};
      }
    }

    method IsReferenced(pending: PendingFlags) returns (referenced: bool)
      ensures referenced <==> Refers(flagSources, pending)
    {
      referenced := false;
      for i := 0 to |FLAG_ORDER|
        invariant forall flag <- Scanned(i) :: flagSources[flag] != Pending(pending)
      {
        ScanStep(i);
        if flagSources[FLAG_ORDER[i]] == Pending(pending) {
          return true;
        }
      }
      ScanComplete();
    }

    method ReleaseIfUnreferenced(pending: PendingFlags)
      requires Own().Ok() && pending in held
      modifies `live, `released, `held
      ensures Own() == if Refers(flagSources, pending) then old(Own()) else old(Own()).Drop(pending)
    {
      assert Own().PendingHeld(pending);
      if pending.id in released {
        return;
      }
      var referenced := IsReferenced(pending);
      if !referenced {
        released := released + {pending.id};
        ReleaseInputs(pending);
        held := held - {pending};
      }
    }

    method ReleaseReplaced(replaced: set<PendingFlags>)
      requires Own().Ok() && AllHeld(flagSources, held) && replaced <= held
      requires AllReferred(flagSources, held - replaced)
      modifies `live, `released, `held
      ensures Own().Ok() && AllHeld(flagSources, held) && AllReferred(flagSources, held)
    {
      var rest := replaced;
      while rest != {}
        invariant Own().Ok() && AllHeld(flagSources, held)
        invariant rest <= held && AllReferred(flagSources, held - rest)
        decreases rest
      {
        hide Ownership.Ok, AllHeld;
        var pending :| pending in rest;
        Own().DropOk(pending);
        UnreferencedStaysHeld(flagSources, held, pending);
        ReleaseIfUnreferenced(pending);
        rest := rest - {pending};
      }
    }

    /** Point the masked flags at a new source, collecting the producers that lose a flag. */
    method RedirectFlags(mask: Mask, source: FlagSource) returns (replaced: set<PendingFlags>)
      requires AllHeld(flagSources, held)
      modifies `flagSources
      ensures flagSources == Redirect(old(flagSources), mask, source)
      ensures Losing(old(flagSources), mask, source) <= replaced <= held
    {
      replaced := {};
      RedirectNothing(flagSources, mask * Scanned(0), source);
      for i := 0 to |FLAG_ORDER|
        invariant flagSources == Redirect(old(flagSources), mask * Scanned(i), source)
        invariant Losing(old(flagSources), mask * Scanned(i), source) <= replaced <= held
      {
        hide Redirect, Losing, AllHeld;
        RedirectStep(old(flagSources), mask, source, i, held);
        var flag := FLAG_ORDER[i];
        if flag in mask {
          var previous := flagSources[flag];
          if previous.Pending? && previous != source {
            replaced := replaced + {previous.pending};
          }
          flagSources := flagSources[flag := source];
        }
      }
      ScanComplete();
    }

    /** Point the masked flags at a new source and release every producer that thereby loses its last flag. */
    method SetSource(mask: Mask, source: FlagSource)
      requires Own().Ok() && AllHeld(flagSources, held) && mask != {}
      requires source.Pending? ==> source.pending in held
      requires AllReferred(flagSources, held - (if source.Pending? then {source.pending} else {}))
      modifies `flagSources, `live, `released, `held
      ensures Own().Ok() && AllHeld(flagSources, held) && AllReferred(flagSources, held)
      ensures flagSources == Redirect(old(flagSources), mask, source)
    {
      hide Ownership.Ok;
      var replaced := RedirectFlags(mask, source);
      RedirectRefers(old(flagSources), mask, source, held, replaced);
      ReleaseReplaced(replaced);
    }

    // ---------- publishing flags ----------

    /** Compute the masked flags of a pending producer, one bit at a time. */
    method EmitWrittenFlags(pending: PendingFlags, mask: Mask) returns (bits: Mask)
      ensures bits == set flag <- mask | Produces(pending.producer, pending.width, InputsOf(pending, locals), flag)
    {
      bits := {};
      var inputs := InputsOf(pending, locals);
      for i := 0 to |FLAG_ORDER|
        invariant bits == set flag <- mask * Scanned(i) | Produces(pending.producer, pending.width, inputs, flag)
      {
        ScanStep(i);
        var flag := FLAG_ORDER[i];
        if flag in mask {
          var bit: Mask := if Produces(pending.producer, pending.width, inputs, flag) then {flag} else {};
          bits := bits + bit;
        }
      }
      ScanComplete();
    }

    method EmitPendingFlags(pending: PendingFlags, mask: Mask)
      requires mask <= WrittenMask(pending.producer)
      modifies `aluFlagsLocal
      ensures aluFlagsLocal == (old(aluFlagsLocal) - mask) +
                (set flag <- mask | Produces(pending.producer, pending.width, InputsOf(pending, locals), flag))
    {
      var writeMask := WrittenMask(pending.producer) * mask;
      assert writeMask == mask;
      if writeMask == {} {
        assert (set flag <- mask | Produces(pending.producer, pending.width, InputsOf(pending, locals), flag)) == {};
        return;
      }
      var bits := EmitWrittenFlags(pending, writeMask);
      EveryFlagListed(aluFlagsLocal);
      aluFlagsLocal := aluFlagsLocal * (ALL_FLAGS - writeMask) + bits;
    }

    /** Group the masked pending flags by producer. */
    method PendingMasks(mask: Mask) returns (groups: map<PendingFlags, Mask>)
      ensures forall p <- groups :: groups[p] != {} && groups[p] == WaitingFor(flagSources, mask, p)
      ensures forall flag <- mask :: flagSources[flag].Pending? ==> flagSources[flag].pending in groups
    {
      hide Scanned;
      groups := map[];
      ScanComplete();
      for i := 0 to |FLAG_ORDER|
        invariant forall p <- groups :: groups[p] != {} && groups[p] == WaitingFor(flagSources, mask * Scanned(i), p)
        invariant forall flag <- mask * Scanned(i) :: flagSources[flag].Pending? ==> flagSources[flag].pending in groups
      {
        ScanStep(i);
        var flag := FLAG_ORDER[i];
        ghost var scanned, next := mask * Scanned(i), mask * Scanned(i + 1);
        assert next == if flag in mask then scanned + {flag} else scanned;
        if flag in mask && flagSources[flag].Pending? {
          var p := flagSources[flag].pending;
          var soFar := if p in groups then groups[p] else {};
          assert p !in groups ==> WaitingFor(flagSources, mask * Scanned(i), p) == {};
          groups := groups[p := soFar + {flag}];
        }
      }
      ScanComplete();
    }

    /** Publish some flags of one producer into the cached local. */
    method MaterializeProducer(pending: PendingFlags, mask: Mask)
      requires Valid() && mask != {}
      requires forall flag <- mask :: flagSources[flag] == Pending(pending)
      modifies `aluFlagsLocal, `flagSources, `live, `released, `held, `materializedMask, `aluFlagsLocalDirty
      ensures Valid()
      ensures View().Moved(old(View()), mask, true)
    {
      hide FlagView.Ok, Ownership.Ok, AllHeld, AllReferred, WrittenMask, Produces;
      ghost var before := View();
      before.PendingWritten(mask, pending);
      EmitPendingFlags(pending, mask);
      before.CachePendingOk(mask, aluFlagsLocal, pending);
      assert held - {} == held;
      SetSource(mask, Cached);
      materializedMask := materializedMask + mask;
      aluFlagsLocalDirty := true;
      assert View() == before.Cache(mask, aluFlagsLocal, true);
    }

    /** Publish the group of one more producer, after the groups of the producers already done. */
    method MaterializeGroup(
        pending: PendingFlags, mask: Mask, ghost before: FlagView, ghost whole: Mask, ghost done: set<PendingFlags>)
      requires Valid() && mask != {} && pending !in done && mask == WaitingFor(before.sources, whole, pending)
      requires View().Progress(before, whole, done)
      modifies `aluFlagsLocal, `flagSources, `live, `released, `held, `materializedMask, `aluFlagsLocalDirty
      ensures Valid()
      ensures View().Progress(before, whole, done + {pending})
    {
      hide Ownership.Ok, FlagView.Ok, AllHeld, AllReferred, FlagView.Progress, Waiting, WaitingFor;
      ghost var between := View();
      between.ProgressWaits(before, whole, done, pending);
      MaterializeProducer(pending, mask);
      View().ProgressStep(between, before, whole, done, pending);
    }

    method MaterializeGroups(groups: map<PendingFlags, Mask>, ghost mask: Mask)
      requires Valid()
      requires forall p <- groups :: groups[p] != {} && groups[p] == WaitingFor(flagSources, mask, p)
      modifies `aluFlagsLocal, `flagSources, `live, `released, `held, `materializedMask, `aluFlagsLocalDirty
      ensures Valid()
      ensures View().Progress(old(View()), mask, groups.Keys)
    {
      hide Ownership.Ok, FlagView.Ok, AllHeld, AllReferred, FlagView.Progress, Waiting, WaitingFor, Redirect, PendingIn, FlagView.Moved;
      var rest := groups.Keys;
      ghost var before, done := View(), {};
      before.NoProgress(mask);
      while rest != {}
        invariant Valid() && done + rest == groups.Keys && done !! rest
        invariant View().Progress(before, mask, done)
        decreases rest
      {
        var pending :| pending in rest;
        MaterializeGroup(pending, groups[pending], before, mask, done);
        rest := rest - {pending};
        done := done + {pending};
      }
    }

    method MaterializePendingFlags(mask: Mask)
      requires Valid()
      modifies `aluFlagsLocal, `flagSources, `live, `released, `held, `materializedMask, `aluFlagsLocalDirty
      ensures Valid()
      ensures View().Moved(old(View()), mask * old(PendingMask()), old(aluFlagsLocalDirty) || mask * old(PendingMask()) != {})
    {
      hide Ownership.Ok, FlagView.Ok, AllHeld, AllReferred, FlagView.Moved;
      var groups := PendingMasks(mask);
      assert mask * PendingMask() == Waiting(flagSources, mask, groups.Keys);
      assert groups != map[] ==> Waiting(flagSources, mask, groups.Keys) != {} by {
        if groups != map[] {
          var p :| p in groups;
          var flag :| flag in groups[p];
          assert flag in Waiting(flagSources, mask, groups.Keys);
        }
      }
      MaterializeGroups(groups, mask);
    }

    /** Pull incoming flags from state memory without disturbing flags already in the local. */
    method MaterializeIncoming(mask: Mask)
      requires Valid() && mask != {}
      requires forall flag <- mask :: flagSources[flag] == Incoming
      modifies `aluFlagsLocal, `flagSources, `live, `released, `held, `materializedMask
      ensures Valid()
      ensures View().Moved(old(View()), mask, old(aluFlagsLocalDirty))
    {
      hide FlagView.Ok, Ownership.Ok, AllHeld, AllReferred;
      ghost var before := View();
      if materializedMask == {} {
        aluFlagsLocal := stateAluFlags;
      } else {
        aluFlagsLocal := aluFlagsLocal * (ALL_FLAGS - mask) + stateAluFlags * mask;
      }
      before.CacheIncomingOk(mask, aluFlagsLocal);
      assert held - {} == held;
      SetSource(mask, Cached);
      materializedMask := materializedMask + mask;
      assert View() == before.Cache(mask, aluFlagsLocal, aluFlagsLocalDirty);
    }

    /** The masked flags whose value is still the incoming one. */
    method SourceMask(mask: Mask) returns (found: Mask)
      ensures found == set flag <- mask | flagSources[flag] == Incoming
    {
      found := {};
      for i := 0 to |FLAG_ORDER|
        invariant found == set flag <- mask * Scanned(i) | flagSources[flag] == Incoming
      {
        ScanStep(i);
        if FLAG_ORDER[i] in mask && flagSources[FLAG_ORDER[i]].Incoming? {
          found := found + {FLAG_ORDER[i]};
        }
      }
      ScanComplete();
    }

    /** Bring flags that are not yet in the local into it: incoming ones first, then pending ones. */
    method MaterializeFlags(mask: Mask)
      requires Valid() && mask !! materializedMask
      modifies `aluFlagsLocal, `flagSources, `live, `released, `held, `materializedMask, `aluFlagsLocalDirty
      ensures Valid()
      ensures View().Moved(old(View()), mask, old(aluFlagsLocalDirty) || mask * old(PendingMask()) != {})
    {
      hide Ownership.Ok, FlagView.Ok, AllHeld, AllReferred, FlagView.Moved, PendingIn;
      ghost var before := View();
      if mask == {} {
        before.MovedNothing(mask);
        return;
      }
      var incoming := SourceMask(mask);
      assert forall flag <- incoming :: flagSources[flag] == Incoming;
      if incoming != {} {
        MaterializeIncoming(incoming);
      } else {
        before.MovedNothing(incoming);
      }
      ghost var between := View();
      before.UnmaterializedMask(mask, incoming);
      between.MovedSources(before, incoming, before.dirty);
      assert mask * PendingIn(between.sources) == mask * PendingIn(before.sources);
      MaterializePendingFlags(mask);
      View().MovedSources(between, mask * PendingIn(between.sources), before.dirty || mask * PendingIn(between.sources) != {});
      View().MovedMore(between, before, incoming, mask * PendingIn(between.sources), between.dirty);
    }

    // ---------- the operations of the flag state ----------

    method EmitMaterialize(mask: Mask)
      requires Valid()
      modifies `aluFlagsLocal, `flagSources, `live, `released, `held, `materializedMask, `aluFlagsLocalDirty
      ensures Valid() && PendingMask() == old(PendingMask()) - mask
    {
      hide Ownership.Ok, FlagView.Ok, AllHeld, AllReferred, FlagView.Moved, PendingIn;
      ghost var before := View();
      before.PendingIsNotMaterialized();
      var missing := mask - materializedMask;
      if missing == {} {
        assert forall flag <- mask :: flag !in missing;
        assert PendingMask() - mask == PendingMask();
        return;
      }
      MaterializeFlags(missing);
      View().MovedSources(before, missing, before.dirty || missing * PendingIn(before.sources) != {});
    }

    /** Store the complete local when it holds anything that state memory does not. */
    method StoreIfDirty()
      requires Valid()
      modifies `aluFlagsLocal, `flagSources, `live, `released, `held, `materializedMask, `aluFlagsLocalDirty, `stateAluFlags
      ensures Valid() && eager == old(eager) && !aluFlagsLocalDirty && locals == old(locals)
      ensures if old(aluFlagsLocalDirty) then PendingMask() == {} && stateAluFlags == eager
              else View() == old(View())
    {
      hide Ownership.Ok, FlagView.Ok, AllHeld, AllReferred, FlagView.Moved, PendingIn;
      if !aluFlagsLocalDirty {
        return;
      }
      ghost var before := View();
      before.PendingIsNotMaterialized();
      MaterializeFlags(ALL_FLAGS - materializedMask);
      View().MovedSources(before, ALL_FLAGS - before.materialized, true);
      EveryFlagListed(before.materialized + PendingIn(before.sources));
      View().StoreOk();
      stateAluFlags := aluFlagsLocal;
      aluFlagsLocalDirty := false;
    }

    /**
     Publish the masked pending flags, and then, if any are still unpublished, the complete word. When nothing else
     was pending, state memory now holds exactly the eager flags.
     */
    method EmitBoundary(mask: Mask)
      requires Valid()
      modifies `aluFlagsLocal, `flagSources, `live, `released, `held, `materializedMask, `aluFlagsLocalDirty, `stateAluFlags
      ensures Valid() && eager == old(eager) && !aluFlagsLocalDirty
      ensures PendingMask() <= old(PendingMask()) - mask
      ensures PendingMask() == {} ==> stateAluFlags == eager
      ensures stateAluFlags == eager || stateAluFlags == old(stateAluFlags)
    {
      hide Ownership.Ok, FlagView.Ok, AllHeld, AllReferred, FlagView.Moved, PendingIn;
      ghost var before := View();
      before.PendingIsNotMaterialized();
      ghost var moved := (mask - materializedMask) * PendingMask();
      MaterializePendingFlags(mask - materializedMask);
      View().MovedSources(before, moved, before.dirty || moved != {});
      StoreIfDirty();
      if PendingMask() == {} {
        View().CleanStateIsEager();
      }
    }

    /** The one pending producer that decides a condition, when every flag it reads waits for that producer. */
    method PendingFlagConditionSource(cc: Cc) returns (source: Option<PendingFlags>)
      ensures source.Some? ==>
                && (forall flag <- ConditionReads(cc) :: flagSources[flag] == Pending(source.value))
                && ConditionReads(cc) != {} && ConditionKind(source.value.producer, cc, false).Some?
      ensures source.None? ==> forall p: PendingFlags ::
                (exists flag <- ConditionReads(cc) :: flagSources[flag] != Pending(p)) ||
                ConditionKind(p.producer, cc, false).None?
    {
      source := None;
      for i := 0 to |FLAG_ORDER|
        invariant source.None? <==> ConditionReads(cc) * Scanned(i) == {}
        invariant source.Some? ==> forall flag <- ConditionReads(cc) * Scanned(i) :: flagSources[flag] == Pending(source.value)
      {
        ScanStep(i);
        var flag := FLAG_ORDER[i];
        if flag in ConditionReads(cc) {
          assert flag in ConditionReads(cc) * Scanned(i + 1);
          if !flagSources[flag].Pending? {
            return None;
          }
          if source.None? {
            source := Some(flagSources[flag].pending);
          } else if source.value != flagSources[flag].pending {
            assert exists g :: g in ConditionReads(cc) * Scanned(i);
            return None;
          }
        }
      }
      ScanComplete();
      assert ConditionReads(cc) * Scanned(|FLAG_ORDER|) == ConditionReads(cc);
      if source.Some? && ConditionKind(source.value.producer, cc, false).None? {
        assert exists flag :: flag in ConditionReads(cc);
        return None;
      }
    }

    /** The emitted condition always decides as the condition code does on the eager flags. */
    method EmitAluFlagsCondition(cc: Cc) returns (value: bool)
      requires Valid()
      modifies `aluFlagsLocal, `flagSources, `live, `released, `held, `materializedMask, `aluFlagsLocalDirty
      ensures Valid() && PendingMask() <= old(PendingMask())
      ensures value == Condition(cc, eager)
    {
      var source := PendingFlagConditionSource(cc);
      hide Ownership.Ok, FlagView.Ok, AllHeld, AllReferred, FlagView.Moved, PendingIn, Condition, Consistent, ConditionReads, ConditionKind, Decide;
      ghost var before := View();
      if source.Some? {
        var pending := source.value;
        PendingHolds(flagSources, Own(), cc, pending);
        before.ProducerDecides(cc, pending);
        value := Decide(ConditionKind(pending.producer, cc, false).value, pending.width, InputsOf(pending, locals));
      } else {
        var missing := ConditionReads(cc) - materializedMask;
        MaterializeFlags(missing);
        View().MovedSources(before, missing, before.dirty || missing * PendingIn(before.sources) != {});
        View().LocalDecides(cc);
        value := Condition(cc, aluFlagsLocal);
      }
    }

    /** The check that no lazy flag is left behind; it holds exactly when the mask of pending flags is empty. */
    method AssertNoPending() returns (ok: bool)
      ensures ok <==> PendingMask() == {}
    {
      ok := true;
      for i := 0 to |FLAG_ORDER|
        invariant ok <==> PendingMask() * Scanned(i) == {}
      {
        ScanStep(i);
        if flagSources[FLAG_ORDER[i]].Pending? {
          assert FLAG_ORDER[i] in PendingMask() * Scanned(i + 1);
          ok := false;
        }
      }
      ScanComplete();
      assert PendingMask() * Scanned(|FLAG_ORDER|) == PendingMask();
    }

    /**
     Keep one input of a producer readable: a constant directly, a value the value cache owns through a handle that
     retains its local, anything else in a fresh local.
     */
    method CaptureInput(value: Word, supply: Supply) returns (input: PendingInput)
      requires supply.FromCache? ==> supply.local < |locals| && locals[supply.local] == value
      requires forall h <- live :: h < nextHandle
      modifies `locals, `live, `nextHandle, `privateLocals
      ensures Own().Extends(old(Own()))
      ensures Own().CapturedInput(input, value, old(nextHandle))
    {
      match supply
      case FromConst =>
        input := Direct(value);
      case FromCache(local) =>
        input := Local(local, Some(nextHandle));
        live := live[nextHandle := local];
        nextHandle := nextHandle + 1;
      case FromFreshLocal =>
        input := Local(|locals|, None);
        privateLocals := privateLocals + {|locals|};
        locals := locals + [value];
    }

    /** Capture the inputs of a producer in order. */
    method CaptureInputs(producer: Producer, values: Inputs, supplies: InputName -> Supply)
      returns (inputs: map<InputName, PendingInput>)
      requires Own().Ok() && SuppliesOk(locals, values, supplies)
      modifies `locals, `live, `nextHandle, `privateLocals
      ensures Own().Extends(old(Own()))
      ensures Own().Captured(inputs, InputNames(producer), values, old(nextHandle))
    {
      hide Ownership.Ok, Ownership.Extends, Ownership.Captured, Ownership.CapturedInput, SuppliesOk;
      var names := InputNames(producer);
      inputs := map[];
      ghost var before := Own();
      before.NothingCaptured(values, names);
      for i := 0 to |names|
        invariant Own().Extends(before)
        invariant Own().Captured(inputs, names[..i], values, before.nextHandle)
      {
        ghost var between := Own();
        between.SuppliesStay(before, values, supplies, names[i]);
        var input := CaptureInput(Input(values, names[i]), supplies(names[i]));
        Own().ExtendsTrans(between, before);
        Own().CapturedMore(between, inputs, names, i, values, before.nextHandle, input);
        inputs := inputs[names[i] := input];
      }
      assert names[..|names|] == names;
    }

    /** Hold a producer whose inputs are captured, and let its flags wait for it. */
    method InstallPending(pending: PendingFlags)
      requires Valid() && Own().Capturable(pending)
      modifies `flagSources, `live, `released, `held, `owned, `materializedMask, `eager
      ensures Valid()
      ensures View() == old(View()).Set(pending)
    {
      hide Ownership.Ok, FlagView.Ok, AllHeld, AllReferred, Ownership.Capturable, SetFlags, Redirect, FlagView.Found,
        InputsOf, HandlesOf, FlagView.Set;
      ghost var before := View();
      var mask := WrittenMask(pending.producer);
      assert PF in mask;
      before.SetOk(pending);
      before.SetDefinition(pending);
      materializedMask := materializedMask - mask;
      eager := SetFlags(eager, pending.producer, pending.width, InputsOf(pending, locals));
      HoldPending(pending);
      SetSource(mask, Pending(pending));
    }

    ghost method HoldPending(pending: PendingFlags)
      requires Own().Ok() && AllHeld(flagSources, held) && AllReferred(flagSources, held) && Own().Capturable(pending)
      modifies `held, `owned
      ensures Own().Ok() && AllHeld(flagSources, held) && AllReferred(flagSources, held - {pending})
      ensures pending in held
    {
      Own().AddOk(pending);
      HoldMore(flagSources, held, pending);
      hide *;
      held := held + {pending};
      owned := owned + HandlesOf(pending);
    }

    /** Run a flag producer lazily: only its inputs are captured. */
    method EmitSet(producer: Producer, width: Width, values: Inputs, supplies: InputName -> Supply)
      requires Valid() && Consistent(producer, width, values) && SuppliesOk(locals, values, supplies)
      modifies `flagSources, `live, `released, `held, `owned, `materializedMask, `eager, `locals, `privateLocals,
               `nextId, `nextHandle
      ensures Valid()
      ensures eager == SetFlags(old(eager), producer, width, values)
      ensures PendingMask() == old(PendingMask()) + WrittenMask(producer)
    {
      hide Ownership.Ok, FlagView.Ok, AllHeld, AllReferred, Ownership.Capturable, SetFlags, Redirect, FlagView.Found,
        Ownership.Extends, Ownership.Captured, Consistent, SuppliesOk;
      ghost var before, view := Own(), View();
      var inputs := CaptureInputs(producer, values, supplies);
      var pending := PendingFlags(nextId, producer, width, inputs);
      nextId := nextId + 1;
      Own().NextIdExtends(before, nextId - 1);
      before.ExtendOk(Own());
      Own().CapturedIsCapturable(before, pending, values);
      Own().ExtendsHeld(before);
      view.HeldLocalsOk(before, locals);
      InstallPending(pending);
      view.(locals := locals).SetPending(pending);
    }

    /** Locals that other code must not write. */
    function Reserved(): (reserved: set<nat>)
      reads this
      ensures reserved == Own().Reserved()
    {
      privateLocals + live.Values
    }

    /** Any code between the flag operations may allocate locals and write those this state does not rely on. */
    method RunOtherCode(after: seq<Word>)
      requires Valid() && KeepsReserved(locals, Reserved(), after)
      modifies `locals
      ensures Valid() && locals == after && PendingMask() == old(PendingMask())
    {
      hide Ownership.Ok, FlagView.Ok, AllHeld, AllReferred;
      Own().OtherCodeOk(after);
      View().HeldLocalsOk(Own(), after);
      locals := after;
    }
  }

  lemma HoldMore(sources: Sources, held: set<PendingFlags>, pending: PendingFlags)
    requires AllHeld(sources, held) && AllReferred(sources, held)
    ensures AllHeld(sources, held + {pending})
    ensures AllReferred(sources, held + {pending} - {pending})
  {
  }

  lemma PendingHolds(sources: Sources, own: Ownership, cc: Cc, pending: PendingFlags)
    requires own.Ok() && AllHeld(sources, own.held) && ConditionReads(cc) != {}
    requires forall flag <- ConditionReads(cc) :: sources[flag] == Pending(pending)
    ensures Consistent(pending.producer, pending.width, InputsOf(pending, own.locals))
  {
    var flag :| flag in ConditionReads(cc);
    assert sources[flag].pending in own.held;
    assert own.PendingHeld(pending);
  }

  /**
   A captured input's handle is live exactly as long as some flag still waits for the producer it was captured for:
   it is given back when, and only when, the last such flag gets another source.
   */
  lemma HandleLiveIffReferred(sources: Sources, own: Ownership, handle: nat)
    requires own.Ok() && AllHeld(sources, own.held) && AllReferred(sources, own.held)
    requires handle in own.owned
    ensures handle in own.live <==>
            exists flag: Flag :: sources[flag].Pending? && handle in HandlesOf(sources[flag].pending)
  {
    if handle in own.live {
      var p :| p in own.held && handle in HandlesOf(p);
      assert Refers(sources, p);
      var flag: Flag :| sources[flag] == Pending(p);
      assert handle in HandlesOf(sources[flag].pending);
    }
  }
}
