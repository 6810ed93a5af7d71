/**
 The emit-time register cache. A register's value is spread over state memory, a stable local holding a known low
 prefix, and a mutable cell holding the full register; writes made while a fault is still possible stay in a
 pending layer above the committed one. Emitting an instruction is modelled as executing it.
 */
module RegisterCache {
  import opened X86Types
  import Ir
  import Bits

  // ---------- register values ----------

  type Byte = x: nat | x < 0x100

  type Half = x: nat | x < 0x1_0000

  // A 32-bit value cut where every mask of this code cuts it: al, ah and the upper half.
  datatype Value = Value(low: Byte, high: Byte, top: Half)

  function ToWord(v: Value): Word {
    v.low + 0x100 * v.high + 0x1_0000 * v.top
  }

  function FromWord(word: Word): Value {
    Value(word % 0x100, word / 0x100 % 0x100, word / 0x1_0000)
  }

  lemma FromWordCorrect(word: Word)
    ensures ToWord(FromWord(word)) == word
  {
  }

  // The addressable parts of a register: al, ah, ax and eax.
  datatype Part = Low8 | High8 | Low16 | Full

  function PartWidth(part: Part): Width {
    match part
    case Low8 => W8
    case High8 => W8
    case Low16 => W16
    case Full => W32
  }

  function Offset(part: Part): nat {
    if part == High8 then 8 else 0
  }

  /** The bits of a part, moved to the bottom. */
  function Extract(full: Value, part: Part): Value {
    match part
    case Low8 => Value(full.low, 0, 0)
    case High8 => Value(full.high, 0, 0)
    case Low16 => Value(full.low, full.high, 0)
    case Full => full
  }

  /** A plain register file writes a part and leaves the other bits alone. */
  function Insert(full: Value, part: Part, value: Value): Value {
    match part
    case Low8 => full.(low := value.low)
    case High8 => full.(high := value.low)
    case Low16 => full.(low := value.low, high := value.high)
    case Full => value
  }

  /** Masking to a width. */
  function Masked(value: Value, width: Width): Value {
    match width
    case W8 => Value(value.low, 0, 0)
    case W16 => Value(value.low, value.high, 0)
    case W32 => value
  }

  lemma Divisions(v: Value)
    ensures ToWord(v) % 0x100 == v.low && ToWord(v) / 0x100 == v.high + 0x100 * v.top
    ensures (v.high + 0x100 * v.top) % 0x100 == v.high
    ensures ToWord(v) % 0x1_0000 == v.low + 0x100 * v.high
  {
    Bits.DivisionUnique(ToWord(v), 0x100, v.high + 0x100 * v.top, v.low);
    Bits.DivisionUnique(v.high + 0x100 * v.top, 0x100, v.top, v.high);
    Bits.DivisionUnique(ToWord(v), 0x1_0000, v.top, v.low + 0x100 * v.high);
  }

  lemma Units()
    ensures Bits.Pow2(0) == 1 && Bits.Pow2(8) == 0x100
  {
    assert Bits.Pow2(4) == 16;
  }

  /** The cut agrees with masking and shifting the number. */
  lemma ExtractIsShiftAndMask(v: Value, part: Part)
    ensures ToWord(Masked(v, PartWidth(part))) == Ir.Mask32(ToWord(v), PartWidth(part))
    ensures ToWord(Extract(v, part)) == Ir.ReadField(ToWord(v), Offset(part), PartWidth(part))
  {
    MaskedIsRemainder(v, PartWidth(part));
    if part.High8? { HighByte(v); } else { LowPart(ToWord(v), PartWidth(part)); }
    hide ToWord, Ir.ReadField;
  }

  lemma HighByte(v: Value)
    ensures ToWord(Extract(v, High8)) == Ir.ReadField(ToWord(v), 8, W8)
  {
    Divisions(v);
    Units();
  }

  lemma LowPart(word: Word, width: Width)
    ensures Ir.ReadField(word, 0, width) == Ir.Mask32(word, width)
  {
    Units();
    assert word / 1 == word;
  }

  lemma MaskedIsRemainder(v: Value, width: Width)
    ensures ToWord(Masked(v, width)) == Ir.Mask32(ToWord(v), width)
  {
    Divisions(v);
  }

  lemma InsertIsMaskAndMerge(v: Value, part: Part, value: Value)
    ensures ToWord(Insert(v, part, value)) ==
            Ir.WriteField(ToWord(v), Offset(part), PartWidth(part), ToWord(value))
  {
    hide ToWord, Extract, Masked, U32, Ir.ReadField, Ir.Mask32, Bits.Pow2, Insert;
    ExtractIsShiftAndMask(v, part);
    ExtractIsShiftAndMask(value, part);
    Units();
    InsertedNumber(v, part, value);
    InRange(ToWord(Insert(v, part, value)));
  }

  lemma InRange(x: Word)
    ensures U32(x) == x
  {
  }

  lemma InsertedNumber(v: Value, part: Part, value: Value)
    ensures ToWord(Insert(v, part, value)) ==
            ToWord(v) - ToWord(Extract(v, part)) * (if part == High8 then 0x100 else 1) +
            ToWord(Masked(value, PartWidth(part))) * (if part == High8 then 0x100 else 1)
  {
  }

  /** A stable local that holds the low bits of a register, and zeros above them. */
  datatype Prefix = Prefix(local: nat, width: Width)

  predicate Clean(low: Value, width: Width) {
    Masked(low, width) == low
  }

  /** Clear the prefix bits of the base and merge the prefix in. */
  function Merged(base: Value, width: Width, low: Value): Value
    requires Clean(low, width)
  {
    match width
    case W8 => Value(low.low, base.high, base.top)
    case W16 => Value(low.low, low.high, base.top)
    case W32 => low
  }

  function BitCount(width: Width): nat {
    match width
    case W8 => 8
    case W16 => 16
    case W32 => 32
  }

  predicate Covers(width: Width, part: Part) {
    Offset(part) + BitCount(PartWidth(part)) <= BitCount(width)
  }

  predicate Overlaps(width: Width, part: Part) {
    Offset(part) < BitCount(width)
  }

  // ---------- the storage of one register ----------

  /** A known prefix above a mutable cell or, without a cell, above whatever lies below the layer. */
  datatype Layer = Layer(prefix: Option<Prefix>, cell: Option<nat>)

  datatype Slot = Slot(pending: Option<Layer>, committed: Option<Layer>)

  type Locals = seq<Value>

  ghost predicate PrefixOk(prefix: Prefix, locals: Locals, stable: set<nat>) {
    prefix.local < |locals| && prefix.local in stable && Clean(locals[prefix.local], prefix.width)
  }

  ghost predicate LayerOk(layer: Layer, locals: Locals, stable: set<nat>) {
    && (layer.prefix.Some? ==> PrefixOk(layer.prefix.value, locals, stable))
    && (layer.cell.Some? ==> layer.cell.value < |locals| && layer.cell.value !in stable)
    && (layer.prefix.Some? || layer.cell.Some?)
    && (layer.cell.Some? && layer.prefix.Some? ==> layer.prefix.value.width != W32)
  }

  function LayerValue(layer: Layer, locals: Locals, ghost stable: set<nat>, below: Value): Value
    requires LayerOk(layer, locals, stable)
  {
    var base := if layer.cell.Some? then locals[layer.cell.value] else below;
    if layer.prefix.Some? then Merged(base, layer.prefix.value.width, locals[layer.prefix.value.local]) else base
  }

  /** A pending prefix without a cell is at least as wide as the committed prefix it will replace. */
  ghost predicate NothingDropped(slot: Slot) {
    slot.pending.Some? && slot.pending.value.cell.None? && slot.pending.value.prefix.Some? &&
    slot.committed.Some? && slot.committed.value.prefix.Some? ==>
      BitCount(slot.committed.value.prefix.value.width) <= BitCount(slot.pending.value.prefix.value.width)
  }

  ghost predicate SlotOk(slot: Slot, locals: Locals, stable: set<nat>) {
    && (slot.pending.Some? ==> LayerOk(slot.pending.value, locals, stable))
    && (slot.committed.Some? ==> LayerOk(slot.committed.value, locals, stable))
    && (slot.pending.Some? && slot.pending.value.cell.Some? && slot.committed.Some? ==>
        slot.committed.value.cell != slot.pending.value.cell)
    && NothingDropped(slot)
  }

  function CommittedValue(slot: Slot, locals: Locals, ghost stable: set<nat>, memory: Value): Value
    requires SlotOk(slot, locals, stable)
  {
    if slot.committed.Some? then LayerValue(slot.committed.value, locals, stable, memory) else memory
  }

  function CurrentValue(slot: Slot, locals: Locals, ghost stable: set<nat>, memory: Value): Value
    requires SlotOk(slot, locals, stable)
  {
    var committed := CommittedValue(slot, locals, stable, memory);
    if slot.pending.Some? then LayerValue(slot.pending.value, locals, stable, committed) else committed
  }

  function PrefixOf(layer: Option<Layer>): Option<Prefix> {
    if layer.Some? then layer.value.prefix else None
  }

  function CellOf(layer: Option<Layer>): Option<nat> {
    if layer.Some? then layer.value.cell else None
  }

  function CellsOf(slot: Slot): set<nat> {
    (if slot.pending.Some? && slot.pending.value.cell.Some? then {slot.pending.value.cell.value} else {}) +
    (if slot.committed.Some? && slot.committed.value.cell.Some? then {slot.committed.value.cell.value} else {})
  }

  /** A slot reads the same as long as stable locals and its own cells are left alone. */
  lemma SlotStays(slot: Slot, locals: Locals, stable: set<nat>, after: Locals, stableAfter: set<nat>, memory: Value)
    requires SlotOk(slot, locals, stable) && |locals| <= |after| && stable <= stableAfter
    requires forall i | 0 <= i < |locals| && (i in stable || i in CellsOf(slot)) :: after[i] == locals[i]
    requires CellsOf(slot) !! stableAfter
    ensures SlotOk(slot, after, stableAfter)
    ensures CommittedValue(slot, after, stableAfter, memory) == CommittedValue(slot, locals, stable, memory)
    ensures CurrentValue(slot, after, stableAfter, memory) == CurrentValue(slot, locals, stable, memory)
  {
  }

  // ---------- where a read finds its value ----------

  /** The known prefix of the current value. */
  function CurrentPrefix(slot: Slot): Option<Prefix> {
    if slot.pending.Some? then slot.pending.value.prefix
    else if slot.committed.Some? then slot.committed.value.prefix
    else None
  }

  function PrefixFor(layer: Option<Layer>, part: Part, exact: bool): Option<Prefix> {
    if layer.Some? && layer.value.prefix.Some? &&
       (if exact then Offset(part) == 0 && BitCount(PartWidth(part)) <= BitCount(layer.value.prefix.value.width)
        else Covers(layer.value.prefix.value.width, part))
    then layer.value.prefix else None
  }

  predicate Shadows(layer: Option<Layer>, part: Part) {
    layer.Some? &&
    (layer.value.cell.Some? || (layer.value.prefix.Some? && Overlaps(layer.value.prefix.value.width, part)))
  }

  function CurrentSource(slot: Slot, part: Part, exact: bool): Option<Prefix> {
    var pending := PrefixFor(slot.pending, part, exact);
    if pending.Some? then pending
    else if Shadows(slot.pending, part) then None
    else PrefixFor(slot.committed, part, exact)
  }

  predicate CanLoadFromState(slot: Slot, part: Part) {
    !Shadows(slot.pending, part) && !Shadows(slot.committed, part)
  }

  lemma LayerRead(layer: Layer, locals: Locals, stable: set<nat>, below: Value, part: Part)
    requires LayerOk(layer, locals, stable)
    ensures layer.prefix.Some? && Covers(layer.prefix.value.width, part) ==>
              Extract(LayerValue(layer, locals, stable, below), part) == Extract(locals[layer.prefix.value.local], part)
    ensures !Shadows(Some(layer), part) ==>
              Extract(LayerValue(layer, locals, stable, below), part) == Extract(below, part)
  {
  }

  /** A source, exact or not, holds the bits of the current value; so does memory when nothing shadows it. */
  lemma ReadCorrect(slot: Slot, locals: Locals, stable: set<nat>, memory: Value, part: Part, exact: bool)
    requires SlotOk(slot, locals, stable)
    ensures CurrentSource(slot, part, exact).Some? ==>
              CurrentSource(slot, part, exact).value.local < |locals| &&
              Extract(CurrentValue(slot, locals, stable, memory), part) ==
              Extract(locals[CurrentSource(slot, part, exact).value.local], part)
    ensures CanLoadFromState(slot, part) ==>
              Extract(CurrentValue(slot, locals, stable, memory), part) == Extract(memory, part)
  {
    hide LayerValue, Extract;
    if slot.committed.Some? { LayerRead(slot.committed.value, locals, stable, memory, part); }
    if slot.pending.Some? {
      LayerRead(slot.pending.value, locals, stable, CommittedValue(slot, locals, stable, memory), part);
    }
  }

  // ---------- how operations change one register's storage ----------

  predicate Idle(slot: Slot, preserve: bool) {
    preserve || slot.pending.None?
  }

  function WritableLayer(slot: Slot, preserve: bool): Option<Layer> {
    if preserve then slot.pending else slot.committed
  }

  function WithLayer(slot: Slot, preserve: bool, layer: Layer): Slot {
    if preserve then slot.(pending := Some(layer)) else slot.(committed := Some(layer))
  }

  function FullPrefix(local: nat): Layer {
    Layer(Some(Prefix(local, W32)), None)
  }

  /** After a write the writable layer holds the value; the committed value changes only when nothing is preserved. */
  ghost predicate Wrote(
      slot: Slot, after: Slot, preserve: bool, locals: Locals, stable: set<nat>, localsAfter: Locals,
      stableAfter: set<nat>, memory: Value, value: Value)
    requires SlotOk(slot, locals, stable)
  {
    && SlotOk(after, localsAfter, stableAfter) && Idle(after, preserve)
    && CurrentValue(after, localsAfter, stableAfter, memory) == value
    && (preserve ==> CommittedValue(after, localsAfter, stableAfter, memory) == CommittedValue(slot, locals, stable, memory))
    && (WritableLayer(after, preserve).Some? && (slot.committed.Some? ==> after.committed.Some?))
  }

  /** The full register goes to a local that is never written again. */
  lemma WriteFull(slot: Slot, preserve: bool, locals: Locals, stable: set<nat>, memory: Value, local: nat, value: Value)
    requires SlotOk(slot, locals, stable) && Idle(slot, preserve)
    requires local < |locals| && locals[local] == value && local !in CellsOf(slot)
    ensures Wrote(slot, WithLayer(slot, preserve, FullPrefix(local)), preserve, locals, stable, locals, stable + {local},
                  memory, value)
  {
    SlotStays(slot, locals, stable, locals, stable + {local}, memory);
  }

  /** The full register goes to a cell of the writable layer. */
  lemma WriteCell(
      slot: Slot, preserve: bool, locals: Locals, stable: set<nat>, memory: Value, cell: nat, localsAfter: Locals, value: Value)
    requires SlotOk(slot, locals, stable) && Idle(slot, preserve)
    requires |locals| <= |localsAfter| && cell < |localsAfter| && localsAfter[cell] == value && cell !in stable
    requires forall i | 0 <= i < |locals| && i != cell :: localsAfter[i] == locals[i]
    requires cell < |locals| ==> WritableLayer(slot, preserve).Some? && WritableLayer(slot, preserve).value.cell == Some(cell)
    ensures Wrote(slot, WithLayer(slot, preserve, Layer(None, Some(cell))), preserve, locals, stable, localsAfter, stable,
                  memory, value)
  {
    if preserve {
      var below := Slot(None, slot.committed);
      SlotStays(below, locals, stable, localsAfter, stable, memory);
    }
  }

  /** The composed width when a narrow write can be merged into the known prefix. */
  function ComposedWidth(current: Option<Prefix>, width: Width): Option<Width> {
    if current.Some? && current.value.width == W32 && (width == W8 || width == W16) then Some(W32)
    else if current.Some? && current.value.width == W16 && width == W8 then Some(W16)
    else None
  }

  function NarrowWidth(slot: Slot, width: Width): Width {
    var composed := ComposedWidth(CurrentPrefix(slot), width);
    if composed.Some? then composed.value else width
  }

  /** The contents of the new prefix: the written bits, above them whatever prefix bits were known. */
  function NarrowValue(slot: Slot, locals: Locals, part: Part, value: Value): Value
    requires CurrentPrefix(slot).Some? ==> CurrentPrefix(slot).value.local < |locals|
  {
    var prefix, width := CurrentPrefix(slot), PartWidth(part);
    var masked := Masked(value, width);
    if ComposedWidth(prefix, width).Some? then Insert(locals[prefix.value.local], part, masked) else masked
  }

  function NarrowLayer(slot: Slot, preserve: bool, part: Part, local: nat): Layer {
    var width, layer := NarrowWidth(slot, PartWidth(part)), WritableLayer(slot, preserve);
    Layer(Some(Prefix(local, width)), if width != W32 && layer.Some? then layer.value.cell else None)
  }

  lemma InsertMerged(base: Value, width: Width, low: Value, part: Part, value: Value)
    requires Clean(low, width) && (part == Low8 || part == Low16)
    ensures BitCount(width) <= BitCount(PartWidth(part)) ==>
              Merged(base, PartWidth(part), Masked(value, PartWidth(part))) == Insert(Merged(base, width, low), part, value)
    ensures BitCount(width) > BitCount(PartWidth(part)) ==>
              var composed := Insert(low, part, Masked(value, PartWidth(part)));
              && Clean(composed, width)
              && Merged(base, width, composed) == Insert(Merged(base, width, low), part, value)
              && Merged(Merged(base, width, low), width, composed) == Insert(Merged(base, width, low), part, value)
  {
  }

  lemma InsertPlain(base: Value, part: Part, value: Value)
    requires part == Low8 || part == Low16
    ensures Merged(base, PartWidth(part), Masked(value, PartWidth(part))) == Insert(base, part, value)
  {
  }

  lemma ComposedWidths(current: Option<Prefix>, width: Width)
    requires width == W8 || width == W16
    ensures ComposedWidth(current, width).Some? <==> current.Some? && BitCount(current.value.width) > BitCount(width)
    ensures ComposedWidth(current, width).Some? ==> ComposedWidth(current, width).value == current.value.width
  {
  }

  /** What the writable layer rests on. */
  ghost function Below(slot: Slot, preserve: bool, locals: Locals, stable: set<nat>, memory: Value): Value
    requires SlotOk(slot, locals, stable)
  {
    if preserve then CommittedValue(slot, locals, stable, memory) else memory
  }

  lemma NarrowOverLayer(layer: Layer, locals: Locals, stable: set<nat>, below: Value, part: Part, value: Value)
    requires LayerOk(layer, locals, stable) && (part == Low8 || part == Low16)
    ensures
      var base := if layer.cell.Some? then locals[layer.cell.value] else below;
      var current := LayerValue(layer, locals, stable, below);
      if layer.prefix.Some? && BitCount(layer.prefix.value.width) > BitCount(PartWidth(part)) then
        var composed := Insert(locals[layer.prefix.value.local], part, Masked(value, PartWidth(part)));
        && Clean(composed, layer.prefix.value.width)
        && Merged(base, layer.prefix.value.width, composed) == Insert(current, part, value)
        && Merged(current, layer.prefix.value.width, composed) == Insert(current, part, value)
      else Merged(base, PartWidth(part), Masked(value, PartWidth(part))) == Insert(current, part, value)
  {
    hide Insert, Masked;
    var base := if layer.cell.Some? then locals[layer.cell.value] else below;
    if layer.prefix.Some? {
      InsertMerged(base, layer.prefix.value.width, locals[layer.prefix.value.local], part, value);
    } else {
      InsertPlain(base, part, value);
    }
  }

  lemma NarrowLayerValue(
      slot: Slot, preserve: bool, locals: Locals, stable: set<nat>, memory: Value, part: Part, value: Value)
    requires SlotOk(slot, locals, stable) && Idle(slot, preserve) && (part == Low8 || part == Low16)
    ensures
      var layer := NarrowLayer(slot, preserve, part, |locals|);
      var after, stableAfter := locals + [NarrowValue(slot, locals, part, value)], stable + {|locals|};
      && LayerOk(layer, after, stableAfter)
      && LayerValue(layer, after, stableAfter, Below(slot, preserve, locals, stable, memory)) ==
         Insert(CurrentValue(slot, locals, stable, memory), part, value)
  {
    hide Insert, Masked, Clean, Merged;
    ComposedWidths(CurrentPrefix(slot), PartWidth(part));
    MaskedIsClean(value, PartWidth(part));
    if WritableLayer(slot, preserve).Some? {
      NarrowOverLayer(WritableLayer(slot, preserve).value, locals, stable, Below(slot, preserve, locals, stable, memory), part, value);
    } else {
      InsertPlain(CurrentValue(slot, locals, stable, memory), part, value);
      if slot.committed.Some? {
        NarrowOverLayer(slot.committed.value, locals, stable, memory, part, value);
      }
    }
  }

  lemma MaskedIsClean(value: Value, width: Width)
    ensures Clean(Masked(value, width), width)
  {
  }

  /** A narrow write is composed into the known prefix, or starts a prefix of its own. */
  lemma WriteNarrow(
      slot: Slot, preserve: bool, locals: Locals, stable: set<nat>, memory: Value, part: Part, value: Value)
    requires SlotOk(slot, locals, stable) && Idle(slot, preserve) && (part == Low8 || part == Low16)
    requires CellsOf(slot) !! stable
    ensures
      var after := WithLayer(slot, preserve, NarrowLayer(slot, preserve, part, |locals|));
      Wrote(slot, after, preserve, locals, stable, locals + [NarrowValue(slot, locals, part, value)], stable + {|locals|},
            memory, Insert(CurrentValue(slot, locals, stable, memory), part, value))
  {
    hide Insert, LayerValue, NarrowValue;
    var after, stableAfter := locals + [NarrowValue(slot, locals, part, value)], stable + {|locals|};
    NarrowLayerValue(slot, preserve, locals, stable, memory, part, value);
    CellsInRange(slot, locals, stable);
    SlotStays(slot, locals, stable, after, stableAfter, memory);
    ComposedWidths(CurrentPrefix(slot), PartWidth(part));
    if preserve {
      SlotStays(Slot(None, slot.committed), locals, stable, after, stableAfter, memory);
    }
  }

  lemma CellsInRange(slot: Slot, locals: Locals, stable: set<nat>)
    requires SlotOk(slot, locals, stable)
    ensures CellsOf(slot) !! stable && |locals| !in CellsOf(slot) && forall cell <- CellsOf(slot) :: cell < |locals|
  {
  }

  // ---------- committing and freezing ----------

  function CommittedLayer(slot: Slot): Layer
    requires slot.pending.Some?
  {
    var pending := slot.pending.value;
    Layer(pending.prefix,
          if pending.cell.Some? then pending.cell
          else if pending.prefix.Some? && pending.prefix.value.width == W32 then None
          else if slot.committed.Some? then slot.committed.value.cell else None)
  }

  function CommittedSlot(slot: Slot): Slot {
    if slot.pending.None? then slot else Slot(None, Some(CommittedLayer(slot)))
  }

  /** Committing makes the current value the committed one. */
  lemma CommitCorrect(slot: Slot, locals: Locals, stable: set<nat>, memory: Value)
    requires SlotOk(slot, locals, stable)
    ensures SlotOk(CommittedSlot(slot), locals, stable) && CellsOf(CommittedSlot(slot)) <= CellsOf(slot)
    ensures CommittedValue(CommittedSlot(slot), locals, stable, memory) == CurrentValue(slot, locals, stable, memory)
    ensures CurrentValue(CommittedSlot(slot), locals, stable, memory) == CurrentValue(slot, locals, stable, memory)
  {
  }

  /** A pending narrow prefix that relies on the committed layer for its upper bits. */
  predicate LeansOnCommitted(slot: Slot) {
    slot.pending.Some? && slot.pending.value.cell.None? && slot.pending.value.prefix.Some? &&
    slot.pending.value.prefix.value.width != W32
  }

  /** A register may be captured unless a pending narrow prefix leans on its committed cell. */
  predicate Freezable(slot: Slot) {
    slot.committed.Some? && slot.committed.value.cell.Some? ==> !LeansOnCommitted(slot)
  }

  lemma FreezeCorrect(slot: Slot, locals: Locals, stable: set<nat>, memory: Value)
    requires SlotOk(slot, locals, stable) && !LeansOnCommitted(slot) && CellsOf(slot) !! stable
    ensures
      var value := CommittedValue(slot, locals, stable, memory);
      var after := slot.(committed := Some(FullPrefix(|locals|)));
      var localsAfter, stableAfter := locals + [value], stable + {|locals|};
      && SlotOk(after, localsAfter, stableAfter)
      && CommittedValue(after, localsAfter, stableAfter, memory) == value
      && CurrentValue(after, localsAfter, stableAfter, memory) == CurrentValue(slot, locals, stable, memory)
  {
    hide Merged;
    CellsInRange(slot, locals, stable);
    SlotStays(slot, locals, stable, locals + [CommittedValue(slot, locals, stable, memory)], stable + {|locals|}, memory);
    MergedFull(CommittedValue(slot, locals, stable, memory), memory);
  }

  lemma MergedFull(value: Value, base: Value)
    ensures Clean(value, W32) && Merged(base, W32, value) == value
  {
  }

  /** Without the hypothesis a commit after the freeze loses the upper bits. */
  lemma FreezingUnderANarrowPrefixDropsBits()
    ensures
      var memory, cell, low := Value(0, 0, 0), Value(1, 2, 3), Value(9, 0, 0);
      var locals, stable := [cell, low], {1};
      var slot := Slot(Some(Layer(Some(Prefix(1, W8)), None)), Some(Layer(None, Some(0))));
      var frozen := slot.(committed := Some(FullPrefix(2)));
      && SlotOk(slot, locals, stable) && LeansOnCommitted(slot)
      && CurrentValue(slot, locals, stable, memory) == Value(9, 2, 3)
      && SlotOk(CommittedSlot(frozen), locals + [cell], stable + {2})
      && CommittedValue(CommittedSlot(frozen), locals + [cell], stable + {2}, memory) == Value(9, 0, 0)
  {
  }

  function FrozenSlot(slot: Slot, local: nat): Slot {
    slot.(committed := Some(FullPrefix(local)))
  }

  /** What the register holds once its committed value has been frozen and its pending write committed. */
  function CommittedAfterFreezing(slot: Slot, locals: Locals, ghost stable: set<nat>, memory: Value): Value
    requires SlotOk(slot, locals, stable) && CellsOf(slot) !! stable
  {
    FrozenThenCommitted(slot, locals, stable, memory);
    CommittedValue(CommittedSlot(FrozenSlot(slot, |locals|)), locals + [CommittedValue(slot, locals, stable, memory)],
                   stable + {|locals|}, memory)
  }

  lemma FrozenThenCommitted(slot: Slot, locals: Locals, stable: set<nat>, memory: Value)
    requires SlotOk(slot, locals, stable) && CellsOf(slot) !! stable
    ensures SlotOk(CommittedSlot(FrozenSlot(slot, |locals|)), locals + [CommittedValue(slot, locals, stable, memory)],
                   stable + {|locals|})
  {
  }

  /** Freezing keeps the register's value, whatever state memory holds, exactly when the slot is freezable. */
  lemma FreezingKeepsTheValueIffFreezable(slot: Slot, locals: Locals, stable: set<nat>)
    requires SlotOk(slot, locals, stable) && CellsOf(slot) !! stable && slot.committed.Some?
    ensures (forall memory: Value ::
               CommittedAfterFreezing(slot, locals, stable, memory) == CurrentValue(slot, locals, stable, memory)) <==>
            Freezable(slot)
  {
    if !Freezable(slot) {
      var committed := CommittedValue(slot, locals, stable, Value(0, 0, 0));
      var other := Value(0, 0, if committed.top == 0 then 1 else 0);
      assert CommittedAfterFreezing(slot, locals, stable, other) != CurrentValue(slot, locals, stable, other);
    }
  }

  /** Record the full current value in a new stable local, in the layer it came from. */
  function RecordedFull(slot: Slot, local: nat): Slot {
    WithLayer(slot, slot.pending.Some?, FullPrefix(local))
  }

  lemma RecordFullCorrect(slot: Slot, locals: Locals, stable: set<nat>, memory: Value)
    requires SlotOk(slot, locals, stable) && CellsOf(slot) !! stable
    ensures
      var value := CurrentValue(slot, locals, stable, memory);
      var after := RecordedFull(slot, |locals|);
      var localsAfter, stableAfter := locals + [value], stable + {|locals|};
      && SlotOk(after, localsAfter, stableAfter)
      && CurrentValue(after, localsAfter, stableAfter, memory) == value
      && CommittedValue(after, localsAfter, stableAfter, memory) == CommittedValue(slot, locals, stable, memory)
  {
    hide Merged;
    CellsInRange(slot, locals, stable);
    SlotStays(slot, locals, stable, locals + [CurrentValue(slot, locals, stable, memory)], stable + {|locals|}, memory);
    MergedFull(CurrentValue(slot, locals, stable, memory), memory);
    MergedFull(CurrentValue(slot, locals, stable, memory), CommittedValue(slot, locals, stable, memory));
  }

  // ---------- all registers ----------

  type Slots = slots: map<Reg, Slot> | forall reg: Reg :: reg in slots
    witness EmptySlots()

  function EmptySlots(): (slots: map<Reg, Slot>)
    ensures forall reg: Reg :: reg in slots && slots[reg] == Slot(None, None)
  {
    Ir.AllRegsListed();
    map reg <- Ir.ALL_REGS :: Slot(None, None)
  }

  function PutSlot(slots: Slots, reg: Reg, slot: Slot): (after: Slots)
    ensures after[reg] == slot && forall r: Reg :: r != reg ==> after[r] == slots[r]
  {
    slots[reg := slot]
  }

  type RegisterFile = values: map<Reg, Value> | forall reg: Reg :: reg in values
    witness ZeroFile()

  function ZeroFile(): (values: map<Reg, Value>)
    ensures forall reg: Reg :: reg in values
  {
    Ir.AllRegsListed();
    map reg <- Ir.ALL_REGS :: Value(0, 0, 0)
  }

  ghost predicate StillPending(slots: Slots, before: Slots, rest: set<Reg>) {
    forall reg: Reg :: if reg in rest then slots[reg] == before[reg] && slots[reg].pending.Some?
                       else slots[reg].pending.None?
  }

  lemma OneFewerPending(slots: Slots, middle: Slots, before: Slots, rest: set<Reg>, reg: Reg)
    requires StillPending(middle, before, rest) && slots[reg].pending.None?
    requires forall r: Reg :: r != reg ==> slots[r] == middle[r]
    ensures StillPending(slots, before, rest - {reg})
  {
  }

  ghost predicate FrozenSlots(slots: Slots, before: Slots, regs: set<Reg>) {
    && (forall r: Reg :: slots[r].pending == before[r].pending && slots[r].committed.Some? == before[r].committed.Some?)
    && (forall r: Reg :: r !in regs ==> slots[r] == before[r])
    && (forall r: Reg :: r in regs && slots[r].committed.Some? ==> slots[r].committed.value.cell.None?)
  }

  lemma FreezeSlot(slots: Slots, reg: Reg, local: nat)
    requires slots[reg].committed.Some?
    ensures FrozenSlots(PutSlot(slots, reg, slots[reg].(committed := Some(FullPrefix(local)))), slots, {reg})
  {
  }

  lemma FreezeMore(slots: Slots, middle: Slots, before: Slots, regs: set<Reg>, reg: Reg)
    requires FrozenSlots(middle, before, regs) && FrozenSlots(slots, middle, {reg})
    ensures FrozenSlots(slots, before, regs + {reg})
  {
  }

  function PutValue(file: RegisterFile, reg: Reg, value: Value): (after: RegisterFile)
    ensures after[reg] == value && forall r: Reg :: r != reg ==> after[r] == file[r]
  {
    file[reg := value]
  }

  // What an exit will store: for each register a stable prefix, and the value the register is to have.
  datatype Snapshot = Snapshot(prefixes: map<Reg, Prefix>, expected: RegisterFile)

  datatype Storage = Storage(slots: Slots, locals: Locals, stable: set<nat>, memory: RegisterFile)
  {
    ghost predicate CellsSeparate() {
      forall r: Reg, s: Reg :: r != s ==> CellsOf(slots[r]) !! CellsOf(slots[s])
    }

    ghost predicate Ok() {
      (forall reg: Reg :: SlotOk(slots[reg], locals, stable)) && CellsSeparate() && (forall i <- stable :: i < |locals|)
    }

    ghost function Committed(reg: Reg): Value
      requires Ok()
    {
      CommittedValue(slots[reg], locals, stable, memory[reg])
    }

    ghost function Current(reg: Reg): Value
      requires Ok()
    {
      CurrentValue(slots[reg], locals, stable, memory[reg])
    }

    /** Storing a snapshot's prefix into state memory leaves the expected value there. */
    ghost predicate Stores(snapshot: Snapshot) {
      forall reg <- snapshot.prefixes ::
        var prefix := snapshot.prefixes[reg];
        PrefixOk(prefix, locals, stable) && Merged(memory[reg], prefix.width, locals[prefix.local]) == snapshot.expected[reg]
    }

    function Change(reg: Reg, slot: Slot, after: Locals, stableAfter: set<nat>): Storage {
      Storage(PutSlot(slots, reg, slot), after, stableAfter, memory)
    }

    /** One register's storage may change if it only uses its own cells, new locals and stable ones. */
    ghost predicate Changeable(reg: Reg, slot: Slot, after: Locals, stableAfter: set<nat>) {
      && |locals| <= |after| && stable <= stableAfter
      && (forall i | 0 <= i < |locals| && i !in CellsOf(slots[reg]) :: after[i] == locals[i])
      && (forall r: Reg :: r != reg ==> CellsOf(slots[r]) !! stableAfter)
      && (forall i <- stableAfter :: i < |after|)
      && SlotOk(slot, after, stableAfter)
      && (forall cell <- CellsOf(slot) :: cell in CellsOf(slots[reg]) || |locals| <= cell)
    }

    lemma OtherStays(reg: Reg, slot: Slot, after: Locals, stableAfter: set<nat>, r: Reg)
      requires Ok() && Changeable(reg, slot, after, stableAfter) && r != reg
      ensures SlotOk(slots[r], after, stableAfter)
      ensures CommittedValue(slots[r], after, stableAfter, memory[r]) == Committed(r)
      ensures CurrentValue(slots[r], after, stableAfter, memory[r]) == Current(r)
    {
      hide SlotOk, CommittedValue, CurrentValue, CellsOf;
      CellsInRange(slots[reg], locals, stable);
      SlotStays(slots[r], locals, stable, after, stableAfter, memory[r]);
    }

    lemma PairSeparate(reg: Reg, slot: Slot, after: Locals, stableAfter: set<nat>, r: Reg, s: Reg)
      requires Ok() && Changeable(reg, slot, after, stableAfter) && r != s
      ensures CellsOf(PutSlot(slots, reg, slot)[r]) !! CellsOf(PutSlot(slots, reg, slot)[s])
    {
      hide SlotOk, CellsOf, PutSlot;
      CellsInRange(slots[r], locals, stable);
      CellsInRange(slots[s], locals, stable);
      assert CellsOf(slots[r]) !! CellsOf(slots[s]);
    }

    lemma CellsStaySeparate(reg: Reg, slot: Slot, after: Locals, stableAfter: set<nat>)
      requires Ok() && Changeable(reg, slot, after, stableAfter)
      ensures Change(reg, slot, after, stableAfter).CellsSeparate()
    {
      hide SlotOk, CellsOf, PutSlot, Storage.Ok, Storage.Changeable;
      forall r: Reg, s: Reg | r != s ensures CellsOf(PutSlot(slots, reg, slot)[r]) !! CellsOf(PutSlot(slots, reg, slot)[s]) {
        PairSeparate(reg, slot, after, stableAfter, r, s);
      }
    }

    lemma ChangeOk(reg: Reg, slot: Slot, after: Locals, stableAfter: set<nat>)
      requires Ok() && Changeable(reg, slot, after, stableAfter)
      ensures Change(reg, slot, after, stableAfter).Ok()
    {
      assert SlotOk(slot, after, stableAfter);
      CellsStaySeparate(reg, slot, after, stableAfter);
      var storage := Change(reg, slot, after, stableAfter);
      forall r: Reg ensures SlotOk(storage.slots[r], after, stableAfter) {
        if r != reg { OtherStays(reg, slot, after, stableAfter, r); }
      }
      hide *;
    }

    /** The other registers read the same, in both layers. */
    ghost predicate SameOthers(before: Storage, reg: Reg)
      requires Ok() && before.Ok()
    {
      forall r: Reg :: r != reg ==> Committed(r) == before.Committed(r) && Current(r) == before.Current(r)
    }

    lemma OthersStay(reg: Reg, slot: Slot, after: Locals, stableAfter: set<nat>)
      requires Ok() && Changeable(reg, slot, after, stableAfter)
      ensures Change(reg, slot, after, stableAfter).Ok()
      ensures Change(reg, slot, after, stableAfter).SameOthers(this, reg)
    {
      hide SlotOk, CommittedValue, CurrentValue, CellsOf, Storage.CellsSeparate, PutSlot;
      ChangeOk(reg, slot, after, stableAfter);
      var storage := Change(reg, slot, after, stableAfter);
      forall r: Reg | r != reg ensures storage.Committed(r) == Committed(r) && storage.Current(r) == Current(r) {
        OtherStays(reg, slot, after, stableAfter, r);
      }
    }

    /** One register now has the value; the layer that was not written keeps the old one. */
    ghost predicate Updated(before: Storage, reg: Reg, value: Value, preserve: bool)
      requires Ok() && before.Ok()
    {
      && SameOthers(before, reg) && Current(reg) == value
      && Committed(reg) == if preserve then before.Committed(reg) else value
    }

    lemma UpdatedCurrent(before: Storage, reg: Reg, value: Value, preserve: bool)
      requires Ok() && before.Ok() && Updated(before, reg, value, preserve)
      ensures Current(reg) == value && SameOthers(before, reg)
      ensures Committed(reg) == if preserve then before.Committed(reg) else value
    {
    }

    lemma UpdatedTwice(middle: Storage, before: Storage, reg: Reg, first: Value, second: Value, preserve: bool)
      requires Ok() && middle.Ok() && before.Ok()
      requires middle.Updated(before, reg, first, preserve) && Updated(middle, reg, second, preserve)
      ensures Updated(before, reg, second, preserve)
    {
    }

    ghost predicate SameCurrent(before: Storage)
      requires Ok() && before.Ok()
    {
      forall reg: Reg :: Current(reg) == before.Current(reg)
    }

    ghost predicate SameCommitted(before: Storage)
      requires Ok() && before.Ok()
    {
      forall reg: Reg :: Committed(reg) == before.Committed(reg)
    }

    ghost function PendingRegs(): set<Reg> {
      set reg <- slots | slots[reg].pending.Some?
    }

    /** Part-way through committing: some registers still have their pending write. */
    ghost predicate Committing(before: Storage, rest: set<Reg>)
      requires Ok() && before.Ok()
    {
      SameCurrent(before) && StillPending(slots, before.slots, rest)
    }

    lemma CommittingStarts()
      requires Ok()
      ensures Committing(this, PendingRegs())
    {
    }

    lemma CommittingMore(middle: Storage, before: Storage, rest: set<Reg>, reg: Reg)
      requires Ok() && middle.Ok() && before.Ok() && middle.Committing(before, rest) && reg in rest
      requires Updated(middle, reg, middle.Current(reg), false)
      requires slots[reg].pending.None? && forall r: Reg :: r != reg ==> slots[r] == middle.slots[r]
      ensures Committing(before, rest - {reg})
    {
      hide Storage.SameCurrent, Storage.Updated, Storage.Ok, StillPending;
      UpdatedKeeps(middle, before, reg, false);
      OneFewerPending(slots, middle.slots, before.slots, rest, reg);
    }

    lemma CommittingPending(before: Storage, rest: set<Reg>, reg: Reg)
      requires Ok() && before.Ok() && Committing(before, rest) && reg in rest
      ensures slots[reg].pending.Some?
    {
    }

    lemma CommittingEnds(before: Storage)
      requires Ok() && before.Ok() && Committing(before, {})
      ensures SameCurrent(before)
      ensures forall reg: Reg :: slots[reg].pending.None? && Committed(reg) == Current(reg)
    {
      hide Storage.SameCurrent;
      NothingPending();
    }

    lemma UpdatedKeeps(middle: Storage, before: Storage, reg: Reg, preserve: bool)
      requires Ok() && middle.Ok() && before.Ok() && middle.SameCurrent(before)
      requires Updated(middle, reg, middle.Current(reg), preserve)
      ensures SameCurrent(before)
      ensures preserve && middle.SameCommitted(before) ==> SameCommitted(before)
    {
    }

    /** With nothing pending both layers agree. */
    lemma NothingPending()
      requires Ok() && forall reg: Reg :: slots[reg].pending.None?
      ensures forall reg: Reg :: Committed(reg) == Current(reg)
    {
    }

    lemma WroteUpdates(reg: Reg, slot: Slot, after: Locals, stableAfter: set<nat>, preserve: bool, value: Value)
      requires Ok() && Changeable(reg, slot, after, stableAfter)
      requires Wrote(slots[reg], slot, preserve, locals, stable, after, stableAfter, memory[reg], value)
      ensures Change(reg, slot, after, stableAfter).Ok()
      ensures Change(reg, slot, after, stableAfter).Updated(this, reg, value, preserve)
    {
      hide SlotOk, CellsOf, PutSlot, Storage.CellsSeparate, Storage.SameOthers, Storage.Changeable, LayerValue;
      OthersStay(reg, slot, after, stableAfter);
    }

    lemma CellsBelow(reg: Reg)
      requires Ok()
      ensures CellsOf(slots[reg]) !! stable && |locals| !in CellsOf(slots[reg])
      ensures forall cell <- CellsOf(slots[reg]) :: cell < |locals|
    {
      CellsInRange(slots[reg], locals, stable);
    }

    /** A new local, stable or a cell, may be given to a register's storage. */
    lemma NewLocalChangeable(reg: Reg, slot: Slot, value: Value, isStable: bool)
      requires Ok()
      requires SlotOk(slot, locals + [value], if isStable then stable + {|locals|} else stable)
      requires CellsOf(slot) <= CellsOf(slots[reg]) + {|locals|}
      ensures Changeable(reg, slot, locals + [value], if isStable then stable + {|locals|} else stable)
    {
      hide SlotOk, CellsOf, Storage.Ok;
      StableBelow(this);
      forall r: Reg ensures CellsOf(slots[r]) !! stable + {|locals|} { CellsBelow(r); }
    }

    /** So may a new value for one of its own cells. */
    lemma OwnCellChangeable(reg: Reg, slot: Slot, cell: nat, value: Value)
      requires Ok() && cell < |locals| && cell in CellsOf(slots[reg])
      requires SlotOk(slot, locals[cell := value], stable) && CellsOf(slot) <= CellsOf(slots[reg])
      ensures Changeable(reg, slot, locals[cell := value], stable)
    {
      hide SlotOk, CellsOf, Storage.Ok;
      StableBelow(this);
      forall r: Reg ensures CellsOf(slots[r]) !! stable { CellsBelow(r); }
    }

    /** Or a local that a reference keeps stable. */
    lemma SharedLocalChangeable(reg: Reg, slot: Slot, local: nat)
      requires Ok() && local < |locals| && forall r: Reg :: local !in CellsOf(slots[r])
      requires SlotOk(slot, locals, stable + {local}) && CellsOf(slot) <= CellsOf(slots[reg])
      ensures Changeable(reg, slot, locals, stable + {local})
    {
      hide SlotOk, CellsOf, Storage.Ok;
      StableBelow(this);
      forall r: Reg ensures CellsOf(slots[r]) !! stable { CellsBelow(r); }
    }

    ghost predicate Sound(preserve: bool, dirty: set<Reg>, captured: set<Snapshot>) {
      && Ok()
      && (forall snapshot <- captured :: Stores(snapshot))
      && (forall reg: Reg :: Idle(slots[reg], preserve))
      && (forall reg <- dirty :: slots[reg].committed.Some?)
    }

    /** A register that has not been written is still committed as state memory has it. */
    ghost predicate CleanOutside(dirty: set<Reg>) {
      Ok() && forall reg: Reg :: reg !in dirty ==> Committed(reg) == memory[reg]
    }

    /** Nothing but one register's committed value changed, and that only if it counts as written now. */
    lemma CleanAfterUpdate(before: Storage, reg: Reg, value: Value, preserve: bool, was: set<Reg>, dirty: set<Reg>)
      requires Ok() && before.CleanOutside(was) && Updated(before, reg, value, preserve) && memory == before.memory
      requires was <= dirty && (preserve || reg in dirty || value == before.Committed(reg))
      ensures CleanOutside(dirty)
    {
      hide Storage.Ok, CommittedValue, CurrentValue;
    }

    lemma CleanAfterSame(before: Storage, dirty: set<Reg>)
      requires Ok() && before.CleanOutside(dirty) && SameCommitted(before) && memory == before.memory
      ensures CleanOutside(dirty)
    {
      hide Storage.Ok, CommittedValue, CurrentValue;
    }

    lemma CommittedWhenIdle(reg: Reg)
      requires Ok() && slots[reg].pending.None?
      ensures Committed(reg) == Current(reg)
    {
    }

    /** A register outside the snapshot is one whose expected value state memory already holds. */
    ghost predicate CoveredBy(snapshot: Snapshot) {
      forall reg: Reg :: reg !in snapshot.prefixes ==> snapshot.expected[reg] == memory[reg]
    }

    lemma DirtyCovers(dirty: set<Reg>, prefixes: map<Reg, Prefix>)
      requires CleanOutside(dirty) && prefixes.Keys == dirty
      ensures CoveredBy(Snapshot(prefixes, CommittedFile()))
    {
      hide Storage.Ok, CommittedValue, CurrentValue;
    }

    lemma SoundSlot(reg: Reg, preserve: bool, dirty: set<Reg>, captured: set<Snapshot>)
      requires Sound(preserve, dirty, captured)
      ensures Ok() && SlotOk(slots[reg], locals, stable) && Idle(slots[reg], preserve)
    {
    }

    lemma SoundDirty(reg: Reg, preserve: bool, dirty: set<Reg>, captured: set<Snapshot>)
      requires Sound(preserve, dirty, captured) && slots[reg].committed.Some?
      ensures Sound(preserve, dirty + {reg}, captured)
    {
    }

    lemma CommitChangeable(reg: Reg)
      requires Ok()
      ensures Changeable(reg, CommittedSlot(slots[reg]), locals, stable)
    {
      CommitCorrect(slots[reg], locals, stable, memory[reg]);
      StableBelow(this);
      forall r: Reg ensures CellsOf(slots[r]) !! stable { CellsBelow(r); }
      hide SlotOk, CellsOf, Storage.Ok;
    }

    lemma CommitUpdates(reg: Reg)
      requires Ok()
      ensures Changeable(reg, CommittedSlot(slots[reg]), locals, stable)
      ensures
        var after := Change(reg, CommittedSlot(slots[reg]), locals, stable);
        after.Ok() && after.Updated(this, reg, Current(reg), false)
    {
      hide SlotOk, CellsOf, CommittedValue, CurrentValue, PutSlot, Storage.Changeable, CommittedSlot;
      CommitCorrect(slots[reg], locals, stable, memory[reg]);
      CommitChangeable(reg);
      OthersStay(reg, CommittedSlot(slots[reg]), locals, stable);
    }

    lemma SoundOk(preserve: bool, dirty: set<Reg>, captured: set<Snapshot>)
      requires Sound(preserve, dirty, captured)
      ensures Ok()
    {
    }

    lemma SoundIdle(preserve: bool, dirty: set<Reg>, captured: set<Snapshot>)
      requires Sound(preserve, dirty, captured) && forall reg: Reg :: slots[reg].pending.None?
      ensures forall other :: Sound(other, dirty, captured)
    {
    }

    /** Some registers have no committed cell any more; no value and no pending write changed. */
    ghost predicate Frozen(before: Storage, regs: set<Reg>)
      requires Ok() && before.Ok()
    {
      && SameCurrent(before) && SameCommitted(before) && before.memory == memory
      && FrozenSlots(slots, before.slots, regs)
    }

    lemma FrozenSame(before: Storage, regs: set<Reg>)
      requires Ok() && before.Ok() && Frozen(before, regs)
      ensures SameCurrent(before) && SameCommitted(before) && before.memory == memory
    {
    }

    lemma FrozenAlready(regs: set<Reg>)
      requires Ok() && forall r <- regs :: slots[r].committed.Some? ==> slots[r].committed.value.cell.None?
      ensures Frozen(this, regs)
    {
    }

    lemma FrozenMore(middle: Storage, before: Storage, regs: set<Reg>, reg: Reg)
      requires Ok() && middle.Ok() && before.Ok() && middle.Frozen(before, regs) && Frozen(middle, {reg}) && reg !in regs
      ensures Frozen(before, regs + {reg})
    {
      hide FrozenSlots;
      FreezeMore(slots, middle.slots, before.slots, regs, reg);
    }

    lemma FreezeKeeps(reg: Reg)
      requires Ok() && !LeansOnCommitted(slots[reg]) && slots[reg].committed.Some?
      ensures
        var slot, value := FrozenSlot(slots[reg], |locals|), Committed(reg);
        && Changeable(reg, slot, locals + [value], stable + {|locals|})
        && var after := Change(reg, slot, locals + [value], stable + {|locals|});
           after.Ok() && after.Frozen(this, {reg})
    {
      CellsBelow(reg);
      FreezeCorrect(slots[reg], locals, stable, memory[reg]);
      var slot, value := FrozenSlot(slots[reg], |locals|), Committed(reg);
      FrozenCells(slots[reg], |locals|);
      hide SlotOk, CellsOf, CommittedValue, CurrentValue, PutSlot, Storage.Changeable, Storage.CellsSeparate,
        FrozenSlots;
      NewLocalChangeable(reg, slot, value, true);
      OthersStay(reg, slot, locals + [value], stable + {|locals|});
      FreezeSlot(slots, reg, |locals|);
    }

    ghost function CommittedFile(): (file: RegisterFile)
      requires Ok()
    {
      hide SlotOk, CellsOf, CommittedValue;
      map reg <- slots :: Committed(reg)
    }

    /** Where the frozen registers are. */
    ghost predicate Collected(prefixes: map<Reg, Prefix>) {
      forall reg <- prefixes :: slots[reg].committed == Some(Layer(Some(prefixes[reg]), None))
    }

    lemma CollectedNothing()
      ensures Collected(map[])
    {
    }

    lemma CollectedMore(middle: Storage, reg: Reg, prefixes: map<Reg, Prefix>)
      requires Ok() && middle.Ok() && Frozen(middle, {reg}) && middle.Collected(prefixes) && reg !in prefixes
      requires middle.slots[reg].committed.Some?
      ensures slots[reg].committed.Some? && slots[reg].committed.value.prefix.Some?
      ensures Collected(prefixes[reg := slots[reg].committed.value.prefix.value])
    {
      hide Storage.SameCurrent, Storage.SameCommitted, Storage.CellsSeparate;
      assert SlotOk(slots[reg], locals, stable);
    }

    lemma StillFreezable(before: Storage, done: set<Reg>, reg: Reg)
      requires Ok() && before.Ok() && Frozen(before, done) && reg !in done && Freezable(before.slots[reg])
      ensures Freezable(slots[reg])
    {
      hide Storage.SameCurrent, Storage.SameCommitted, Storage.Ok;
    }

    lemma SoundDirtyCommitted(reg: Reg, preserve: bool, dirty: set<Reg>, captured: set<Snapshot>)
      requires Sound(preserve, dirty, captured) && reg in dirty
      ensures slots[reg].committed.Some?
    {
      hide Storage.Ok;
    }

    /** Frozen registers are stored with the committed values of before the freeze. */
    lemma CollectedStores(before: Storage, done: set<Reg>, prefixes: map<Reg, Prefix>)
      requires Ok() && before.Ok() && Frozen(before, done) && Collected(prefixes)
      ensures Stores(Snapshot(prefixes, before.CommittedFile()))
    {
      hide Storage.SameCurrent, FrozenSlots, Storage.CellsSeparate, Merged;
      forall reg <- prefixes
        ensures PrefixOk(prefixes[reg], locals, stable)
        ensures Merged(memory[reg], prefixes[reg].width, locals[prefixes[reg].local]) == before.CommittedFile()[reg]
      {
        assert SlotOk(slots[reg], locals, stable);
        assert Committed(reg) == before.Committed(reg);
      }
    }

    lemma SoundCaptured(preserve: bool, dirty: set<Reg>, captured: set<Snapshot>, snapshot: Snapshot)
      requires Sound(preserve, dirty, captured) && Stores(snapshot)
      ensures Sound(preserve, dirty, captured + {snapshot})
    {
      hide Storage.Ok, Storage.Stores;
    }

    lemma SameAsItself()
      requires Ok()
      ensures SameCurrent(this) && SameCommitted(this)
    {
    }

    lemma RecordKeeps(reg: Reg)
      requires Ok()
      ensures
        var slot, value := RecordedFull(slots[reg], |locals|), Current(reg);
        && Changeable(reg, slot, locals + [value], stable + {|locals|})
        && var after := Change(reg, slot, locals + [value], stable + {|locals|});
           after.Ok() && after.SameCurrent(this) && after.SameCommitted(this) && after.Current(reg) == value
    {
      CellsBelow(reg);
      RecordFullCorrect(slots[reg], locals, stable, memory[reg]);
      var slot, value := RecordedFull(slots[reg], |locals|), Current(reg);
      FullLayerCells(slots[reg], slots[reg].pending.Some?, |locals|);
      hide SlotOk, CellsOf, CommittedValue, CurrentValue, PutSlot, Storage.Changeable, Storage.CellsSeparate;
      NewLocalChangeable(reg, slot, value, true);
      OthersStay(reg, slot, locals + [value], stable + {|locals|});
    }

    lemma ChangeSound(
        reg: Reg, slot: Slot, after: Locals, stableAfter: set<nat>, preserve: bool, dirty: set<Reg>,
        captured: set<Snapshot>)
      requires Sound(preserve, dirty, captured) && Changeable(reg, slot, after, stableAfter)
      requires Idle(slot, preserve) && (slots[reg].committed.Some? ==> slot.committed.Some?)
      ensures Change(reg, slot, after, stableAfter).Sound(preserve, dirty, captured)
    {
      hide Storage.Ok, Storage.Changeable, Storage.Stores, Idle, PutSlot;
      ChangeOk(reg, slot, after, stableAfter);
      forall snapshot <- captured ensures Change(reg, slot, after, stableAfter).Stores(snapshot) {
        SnapshotStays(reg, slot, after, stableAfter, snapshot);
      }
    }

    /** No later operation changes what an earlier exit will store. */
    lemma SnapshotStays(reg: Reg, slot: Slot, after: Locals, stableAfter: set<nat>, snapshot: Snapshot)
      requires Ok() && Changeable(reg, slot, after, stableAfter) && Stores(snapshot)
      ensures Change(reg, slot, after, stableAfter).Stores(snapshot)
    {
      CellsInRange(slots[reg], locals, stable);
      hide SlotOk, CellsOf;
    }
  }

  /** The full cell that alone holds the current value. */
  function UncoveredCell(slot: Slot): Option<nat> {
    if slot.pending.Some? then
      if slot.pending.value.prefix.None? then slot.pending.value.cell else None
    else if slot.committed.Some? && slot.committed.value.prefix.None? then slot.committed.value.cell
    else None
  }

  lemma UncoveredCellHolds(slot: Slot, locals: Locals, stable: set<nat>, memory: Value)
    requires SlotOk(slot, locals, stable)
    ensures UncoveredCell(slot).Some? ==>
              UncoveredCell(slot).value < |locals| &&
              locals[UncoveredCell(slot).value] == CurrentValue(slot, locals, stable, memory)
  {
  }

  class JitReg32State {
    var slots: Slots
    var locals: Locals
    // The registers in state memory; only exits write them.
    var stateRegs: RegisterFile
    var preserveCommittedRegs: bool

    // Locals that are never written again, registers that have been written, and the exits captured so far.
    ghost var stable: set<nat>
    ghost var dirty: set<Reg>
    ghost var captured: set<Snapshot>

    ghost function View(): Storage
      reads this
    {
      Storage(slots, locals, stable, stateRegs)
    }

    ghost predicate Consistent()
      reads this
    {
      View().Sound(preserveCommittedRegs, dirty, captured)
    }

    ghost predicate Valid()
      reads this
    {
      Consistent() && View().CleanOutside(dirty)
    }

    constructor (incoming: RegisterFile)
      ensures Valid() && stateRegs == incoming && dirty == {} && captured == {}
      ensures View().Ok() && forall reg: Reg :: View().Current(reg) == incoming[reg] && View().Committed(reg) == incoming[reg]
    {
      slots, locals, stateRegs, preserveCommittedRegs := EmptySlots(), [], incoming, false;
      stable, dirty, captured := {}, {}, {};
    }

    /** Change the storage of one register, leaving the others and every captured exit alone. */
    method Replace(reg: Reg, slot: Slot, after: Locals, ghost stableAfter: set<nat>)
      requires Consistent() && View().Changeable(reg, slot, after, stableAfter)
      requires Idle(slot, preserveCommittedRegs) && (slots[reg].committed.Some? ==> slot.committed.Some?)
      modifies `slots, `locals, `stable
      ensures Consistent()
      ensures View() == old(View()).Change(reg, slot, after, stableAfter)
    {
      hide Storage.Sound, Storage.Changeable, Idle, PutSlot, CellsOf, SlotOk, Storage.Ok;
      View().ChangeSound(reg, slot, after, stableAfter, preserveCommittedRegs, dirty, captured);
      slots, locals := PutSlot(slots, reg, slot), after;
      stable := stableAfter;
    }

    /** Write the whole register from a value or from a local that holds it and stays stable. */
    method WriteFullRegister(reg: Reg, value: Value, source: Option<nat>)
      requires Consistent()
      requires source.Some? ==> source.value < |locals| && locals[source.value] == value &&
                                forall r: Reg :: source.value !in CellsOf(slots[r])
      modifies `slots, `locals, `stable
      ensures Consistent() && View().Ok() && old(View().Ok())
      ensures View().Updated(old(View()), reg, value, preserveCommittedRegs)
      ensures WritableLayer(slots[reg], preserveCommittedRegs).Some?
    {
      hide Storage.Ok, Storage.Changeable, Wrote, SlotOk, CellsOf, PutSlot, Storage.Updated, CommittedValue,
        CurrentValue;
      ghost var before := View();
      var slot, preserve := slots[reg], preserveCommittedRegs;
      View().SoundSlot(reg, preserve, dirty, captured);
      var local := if source.Some? then source.value else |locals|;
      var after := if source.Some? then locals else locals + [value];
      var next := WithLayer(slot, preserve, FullPrefix(local));
      CellsInRange(slot, locals, stable);
      SlotStays(slot, locals, stable, after, stable, before.memory[reg]);
      WriteFull(slot, preserve, after, stable, before.memory[reg], local, value);
      WroteSlot(slot, next, preserve, locals, stable, after, stable, stable + {local}, before.memory[reg], value);
      FullLayerCells(slot, preserve, local);
      if source.Some? {
        View().SharedLocalChangeable(reg, next, local);
      } else {
        View().NewLocalChangeable(reg, next, value, true);
      }
      before.WroteUpdates(reg, next, after, stable + {local}, preserve, value);
      Replace(reg, next, after, stable + {local});
    }

    /** Merge a narrow write at bit 0 into the known prefix, or start a prefix. */
    method WriteLowPart(reg: Reg, part: Part, value: Value)
      requires Consistent() && (part == Low8 || part == Low16)
      modifies `slots, `locals, `stable
      ensures Consistent() && View().Ok() && old(View().Ok())
      ensures View().Updated(old(View()), reg, Insert(old(View().Current(reg)), part, value), preserveCommittedRegs)
      ensures WritableLayer(slots[reg], preserveCommittedRegs).Some?
    {
      hide Storage.Ok, Storage.Changeable, Wrote, SlotOk, CellsOf, PutSlot, Storage.Updated, CommittedValue,
        CurrentValue,
        NarrowLayer, NarrowValue;
      ghost var before := View();
      var slot, preserve := slots[reg], preserveCommittedRegs;
      View().SoundSlot(reg, preserve, dirty, captured);
      View().CellsBelow(reg);
      PrefixInRange(slot, locals, stable);
      var narrow := NarrowValue(slot, locals, part, value);
      var next := WithLayer(slot, preserve, NarrowLayer(slot, preserve, part, |locals|));
      WriteNarrow(slot, preserve, locals, stable, before.memory[reg], part, value);
      ghost var updated := Insert(before.Current(reg), part, value);
      WroteParts(slot, next, preserve, locals, stable, locals + [narrow], stable + {|locals|}, before.memory[reg], updated);
      NarrowLayerCells(slot, preserve, part, |locals|);
      View().NewLocalChangeable(reg, next, narrow, true);
      before.WroteUpdates(reg, next, locals + [narrow], stable + {|locals|}, preserve, updated);
      Replace(reg, next, locals + [narrow], stable + {|locals|});
    }

    /** Clear the prefix bits of a base value and merge the prefix in, unless it is the base itself. */
    method EmitMergedPrefix(base: Value, prefix: Option<Prefix>, baseLocal: Option<nat>) returns (value: Value)
      requires prefix.Some? ==> PrefixOk(prefix.value, locals, stable)
      requires baseLocal.Some? ==> baseLocal.value !in stable
      ensures value == if prefix.Some? && prefix.value.width != W32
                       then Merged(base, prefix.value.width, locals[prefix.value.local]) else base
    {
      if prefix.None? || prefix.value.width == W32 || Some(prefix.value.local) == baseLocal {
        return base;
      }
      value := Merged(base, prefix.value.width, locals[prefix.value.local]);
    }

    /** The committed value: its cell under its prefix, a full local, or state memory under the prefix. */
    method EmitCommittedFullValue(reg: Reg) returns (value: Value)
      requires Consistent()
      ensures View().Ok() && value == View().Committed(reg)
    {
      hide Storage.CellsSeparate, Storage.Stores, Merged;
      View().SoundSlot(reg, preserveCommittedRegs, dirty, captured);
      var prefix, cell := PrefixOf(slots[reg].committed), CellOf(slots[reg].committed);
      if cell.Some? {
        value := EmitMergedPrefix(locals[cell.value], prefix, cell);
        return;
      }
      if prefix.Some? && prefix.value.width == W32 {
        MergedFull(locals[prefix.value.local], stateRegs[reg]);
        return locals[prefix.value.local];
      }
      value := EmitMergedPrefix(stateRegs[reg], prefix, None);
    }

    /** The current value: the pending cell under its prefix, a full pending local, or the committed value under it. */
    method EmitCurrentFullValue(reg: Reg) returns (value: Value)
      requires Consistent()
      ensures View().Ok() && value == View().Current(reg)
    {
      hide Storage.CellsSeparate, Storage.Stores, Merged, CommittedValue;
      View().SoundSlot(reg, preserveCommittedRegs, dirty, captured);
      var pending, cell := slots[reg].pending, CellOf(slots[reg].pending);
      if cell.Some? {
        value := EmitMergedPrefix(locals[cell.value], pending.value.prefix, cell);
        return;
      }
      if pending.Some? {
        var prefix := pending.value.prefix;
        if prefix.Some? && prefix.value.width == W32 {
          MergedFull(locals[prefix.value.local], View().Committed(reg));
          return locals[prefix.value.local];
        }
        value := EmitCommittedFullValue(reg);
        value := EmitMergedPrefix(value, prefix, None);
        return;
      }
      value := EmitCommittedFullValue(reg);
    }

    /** Make sure the writable layer consists of a mutable cell that holds the full current value. */
    method EnsureMutableCell(reg: Reg) returns (cell: nat)
      requires Consistent()
      modifies `slots, `locals, `stable
      ensures Consistent() && View().Ok() && old(View().Ok())
      ensures View().Updated(old(View()), reg, old(View().Current(reg)), preserveCommittedRegs)
      ensures WritableLayer(slots[reg], preserveCommittedRegs) == Some(Layer(None, Some(cell)))
      ensures cell < |locals| && locals[cell] == View().Current(reg)
    {
      hide Storage.Ok, Storage.Changeable, Wrote, SlotOk, CellsOf, PutSlot, Storage.Updated, CommittedValue,
        CurrentValue;
      View().SoundSlot(reg, preserveCommittedRegs, dirty, captured);
      var layer := WritableLayer(slots[reg], preserveCommittedRegs);
      ghost var before := View();
      var value := EmitCurrentFullValue(reg);
      cell := if layer.Some? && layer.value.cell.Some? then layer.value.cell.value else |locals|;
      SetCell(reg, cell, value);
      View().UpdatedCurrent(before, reg, value, preserveCommittedRegs);
    }

    /** Put a full value into the writable layer's own cell, or into a new one. */
    method SetCell(reg: Reg, cell: nat, value: Value)
      requires Consistent()
      requires
        var layer := WritableLayer(slots[reg], preserveCommittedRegs);
        cell == |locals| || (layer.Some? && layer.value.cell == Some(cell))
      modifies `slots, `locals, `stable
      ensures Consistent() && View().Ok() && old(View().Ok())
      ensures View().Updated(old(View()), reg, value, preserveCommittedRegs)
      ensures WritableLayer(slots[reg], preserveCommittedRegs) == Some(Layer(None, Some(cell)))
      ensures cell < |locals| && locals[cell] == value
    {
      hide Storage.Ok, Storage.Changeable, Wrote, SlotOk, CellsOf, PutSlot, Storage.Updated, CommittedValue,
        CurrentValue;
      ghost var before := View();
      var slot, preserve := slots[reg], preserveCommittedRegs;
      View().SoundSlot(reg, preserve, dirty, captured);
      View().CellsBelow(reg);
      var next := WithLayer(slot, preserve, Layer(None, Some(cell)));
      CellLayerCells(slot, preserve, cell);
      StableBelow(View());
      var after := if cell < |locals| then locals[cell := value] else locals + [value];
      WriteCell(slot, preserve, locals, stable, before.memory[reg], cell, after, value);
      WroteParts(slot, next, preserve, locals, stable, after, stable, before.memory[reg], value);
      if cell < |locals| {
        View().OwnCellChangeable(reg, next, cell, value);
      } else {
        View().NewLocalChangeable(reg, next, value, false);
      }
      before.WroteUpdates(reg, next, after, stable, preserve, value);
      Replace(reg, next, after, stable);
    }

    // ---------- operations ----------

    /** Write a part of a register, as a plain register file would. */
    method EmitWriteAlias(reg: Reg, part: Part, value: Value, source: Option<nat>)
      requires Valid()
      requires source.Some? ==> source.value < |locals| && locals[source.value] == value &&
                                forall r: Reg :: source.value !in CellsOf(slots[r])
      modifies `slots, `locals, `stable, `dirty
      ensures Valid() && View().Ok() && old(View().Ok())
      ensures View().Updated(old(View()), reg, Insert(old(View().Current(reg)), part, value), preserveCommittedRegs)
      ensures dirty == old(dirty) + (if preserveCommittedRegs then {} else {reg})
    {
      hide Storage.Ok, Insert, SlotOk, CellsOf, Storage.Updated, CommittedValue, CurrentValue, Storage.Sound,
        Storage.CleanOutside;
      ghost var before := View();
      View().SoundSlot(reg, preserveCommittedRegs, dirty, captured);
      match part {
      case Full =>
        InsertWhole(before.Current(reg), value);
        WriteFullRegister(reg, value, source);
      case High8 =>
        var cell := EnsureMutableCell(reg);
        ghost var middle := View();
        middle.UpdatedCurrent(before, reg, before.Current(reg), preserveCommittedRegs);
        SetCell(reg, cell, Insert(locals[cell], part, Masked(value, W8)));
        InsertHigh(before.Current(reg), value);
        View().UpdatedTwice(middle, before, reg, before.Current(reg), Insert(before.Current(reg), part, value), preserveCommittedRegs);
      case _ =>
        WriteLowPart(reg, part, value);
      }
      assert dirty + {} == dirty;
      if !preserveCommittedRegs {
        View().SoundDirty(reg, preserveCommittedRegs, dirty, captured);
        dirty := dirty + {reg};
      }
      View().CleanAfterUpdate(before, reg, Insert(before.Current(reg), part, value), preserveCommittedRegs, old(dirty), dirty);
    }

    /** A conditional write goes to a cell that first receives the current value. */
    method EmitWriteAliasIf(reg: Reg, part: Part, condition: bool, value: Value)
      requires Valid()
      modifies `slots, `locals, `stable, `dirty
      ensures Valid() && View().Ok() && old(View().Ok())
      ensures View().Updated(old(View()), reg,
                             if condition then Insert(old(View().Current(reg)), part, value) else old(View().Current(reg)),
                             preserveCommittedRegs)
      ensures dirty == old(dirty) + (if preserveCommittedRegs then {} else {reg})
    {
      hide Storage.Ok, Insert, SlotOk, CellsOf, Storage.Updated, CommittedValue, CurrentValue, Storage.Sound,
        Storage.CleanOutside;
      ghost var before := View();
      var cell := EnsureMutableCell(reg);
      ghost var middle := View();
      middle.UpdatedCurrent(before, reg, before.Current(reg), preserveCommittedRegs);
      if condition {
        SetCell(reg, cell, Insert(locals[cell], part, value));
        View().UpdatedTwice(middle, before, reg, before.Current(reg), Insert(before.Current(reg), part, value), preserveCommittedRegs);
      }
      assert dirty + {} == dirty;
      if !preserveCommittedRegs {
        View().SoundDirty(reg, preserveCommittedRegs, dirty, captured);
        dirty := dirty + {reg};
      }
      View().CleanAfterUpdate(before, reg, View().Current(reg), preserveCommittedRegs, old(dirty), dirty);
    }

    /** Make one register's pending value its committed one. */
    method CommitPendingReg(reg: Reg)
      requires Valid()
      modifies `slots, `locals, `stable, `dirty
      ensures Valid() && View().Ok() && old(View().Ok())
      ensures View().Updated(old(View()), reg, old(View().Current(reg)), false)
      ensures slots[reg].pending.None? && forall r: Reg :: r != reg ==> slots[r] == old(slots)[r]
      ensures dirty == old(dirty) + (if old(slots)[reg].pending.Some? then {reg} else {})
    {
      hide Storage.Ok, SlotOk, CellsOf, CommittedValue, CurrentValue, Storage.Sound, PutSlot, Storage.Changeable,
        Storage.Updated, CommittedSlot, Storage.CleanOutside, Storage.SameOthers;
      var slot := slots[reg];
      ghost var before := View();
      View().SoundSlot(reg, preserveCommittedRegs, dirty, captured);
      View().CommitUpdates(reg);
      CommittedKeepsCommitted(slot);
      Replace(reg, CommittedSlot(slot), locals, stable);
      if slot.pending.Some? {
        View().SoundDirty(reg, preserveCommittedRegs, dirty, captured);
        dirty := dirty + {reg};
      } else {
        before.CommittedWhenIdle(reg);
      }
      View().CleanAfterUpdate(before, reg, before.Current(reg), false, old(dirty), dirty);
    }

    /** No fault can occur any more in this instruction: everything pending is committed. */
    method CommitPending()
      requires Valid()
      modifies `slots, `locals, `stable, `dirty, `preserveCommittedRegs
      ensures Valid() && View().Ok() && old(View().Ok()) && !preserveCommittedRegs
      ensures View().SameCurrent(old(View()))
      ensures forall reg: Reg :: slots[reg].pending.None? && View().Committed(reg) == View().Current(reg)
      ensures dirty == old(dirty) + old(View().PendingRegs())
    {
      hide Storage.Ok, SlotOk, CellsOf, CommittedValue, CurrentValue, Storage.Sound, Storage.Updated,
        Storage.SameCurrent,
        Storage.Committing, Storage.CleanOutside;
      ghost var before := View();
      View().SoundOk(preserveCommittedRegs, dirty, captured);
      CommitAll();
      View().CommittingEnds(before);
      View().SoundIdle(preserveCommittedRegs, dirty, captured);
      preserveCommittedRegs := false;
    }

    method CommitOne(reg: Reg, ghost before: Storage, ghost rest: set<Reg>)
      requires Valid() && View().Ok() && before.Ok() && View().Committing(before, rest) && reg in rest
      modifies `slots, `locals, `stable, `dirty
      ensures Valid() && View().Ok() && View().Committing(before, rest - {reg})
      ensures dirty == old(dirty) + {reg}
    {
      hide Storage.Ok, SlotOk, CellsOf, CommittedValue, CurrentValue, Storage.Sound, Storage.Updated,
        Storage.SameCurrent,
        Storage.Committing, StillPending, Storage.CleanOutside;
      View().CommittingPending(before, rest, reg);
      ghost var middle := View();
      CommitPendingReg(reg);
      View().CommittingMore(middle, before, rest, reg);
    }

    method CommitAll()
      requires Valid()
      modifies `slots, `locals, `stable, `dirty
      ensures Valid() && View().Ok() && old(View().Ok())
      ensures View().Committing(old(View()), {})
      ensures dirty == old(dirty) + old(View().PendingRegs())
    {
      hide Storage.Ok, SlotOk, CellsOf, CommittedValue, CurrentValue, Storage.Sound, Storage.Updated,
        Storage.SameCurrent,
        Storage.Committing, StillPending, Storage.CleanOutside;
      ghost var before := View();
      View().SoundOk(preserveCommittedRegs, dirty, captured);
      View().CommittingStarts();
      var rest := set reg <- slots | slots[reg].pending.Some?;
      ghost var done: set<Reg> := {};
      while rest != {}
        invariant Valid() && View().Ok() && View().Committing(before, rest)
        invariant rest + done == before.PendingRegs() && rest !! done
        invariant dirty == old(dirty) + done
        decreases rest
      {
        var reg :| reg in rest;
        CommitOne(reg, before, rest);
        rest, done := rest - {reg}, done + {reg};
      }
    }

    /** Nothing may be left pending from the instruction before. */
    method BeginInstruction(preserve: bool)
      requires Valid() && forall reg: Reg :: slots[reg].pending.None?
      modifies `preserveCommittedRegs
      ensures Valid() && preserveCommittedRegs == preserve
      ensures View().Ok() && forall reg: Reg :: View().Committed(reg) == View().Current(reg)
    {
      hide Storage.Ok, SlotOk, CellsOf, CommittedValue, CurrentValue, Storage.Sound, Storage.CleanOutside;
      View().SoundOk(preserveCommittedRegs, dirty, captured);
      View().NothingPending();
      View().SoundIdle(preserveCommittedRegs, dirty, captured);
      preserveCommittedRegs := preserve;
    }

    /** Turn a committed cell into a stable local. */
    method FreezeCommittedRegister(reg: Reg)
      requires Valid()
      requires Freezable(slots[reg])
      modifies `slots, `locals, `stable
      ensures Valid() && View().Ok() && old(View().Ok())
      ensures View().Frozen(old(View()), {reg})
    {
      hide Storage.Ok, SlotOk, CellsOf, CommittedValue, CurrentValue, Storage.Sound, Storage.Frozen, PutSlot,
        Storage.Changeable, Storage.CleanOutside, Storage.SameCurrent, Storage.SameCommitted, FrozenSlots, Idle,
        FrozenSlot, LeansOnCommitted;
      var slot := slots[reg];
      ghost var before := View();
      View().SoundOk(preserveCommittedRegs, dirty, captured);
      View().SoundSlot(reg, preserveCommittedRegs, dirty, captured);
      if slot.committed.None? || slot.committed.value.cell.None? {
        View().FrozenAlready({reg});
        return;
      }
      var value := EmitCommittedFullValue(reg);
      View().FreezeKeeps(reg);
      FreezableCell(slot);
      IdleStays(slot, preserveCommittedRegs, |locals|);
      Replace(reg, FrozenSlot(slot, |locals|), locals + [value], stable + {|locals|});
      View().FrozenSame(before, {reg});
      View().CleanAfterSame(before, dirty);
    }

    /**
     Remember, for an exit whose code runs later, where the committed registers are. From now on the snapshot stores
     exactly the registers as committed now, whatever the code in between does.
     */
    method CaptureCommittedExitStores(regs: set<Reg>) returns (prefixes: map<Reg, Prefix>)
      requires Valid() && regs <= dirty
      requires forall reg <- regs :: Freezable(slots[reg])
      modifies `slots, `locals, `stable, `captured
      ensures Valid() && View().Ok() && old(View().Ok())
      ensures View().Frozen(old(View()), regs)
      ensures prefixes.Keys == regs
      ensures captured == old(captured) + {Snapshot(prefixes, old(View().CommittedFile()))}
      ensures regs == dirty ==> View().CoveredBy(Snapshot(prefixes, old(View().CommittedFile())))
    {
      hide Storage.Ok, SlotOk, CellsOf, CommittedValue, CurrentValue, Storage.Sound, Storage.Frozen, Freezable,
        Storage.Collected, FrozenSlots, Storage.CleanOutside;
      ghost var before := View();
      View().SoundOk(preserveCommittedRegs, dirty, captured);
      View().FrozenAlready({});
      View().CollectedNothing();
      prefixes := map[];
      var rest := regs;
      ghost var done: set<Reg> := {};
      while rest != {}
        invariant Valid() && View().Ok() && before.Ok() && View().Frozen(before, done)
        invariant rest + done == regs && rest !! done
        invariant prefixes.Keys == done && View().Collected(prefixes) && captured == old(captured)
        decreases rest
      {
        var reg :| reg in rest;
        var prefix := FreezeAndLocate(reg, before, done, prefixes);
        prefixes := prefixes[reg := prefix];
        rest, done := rest - {reg}, done + {reg};
      }
      View().CollectedStores(before, done, prefixes);
      View().SoundCaptured(preserveCommittedRegs, dirty, captured, Snapshot(prefixes, before.CommittedFile()));
      captured := captured + {Snapshot(prefixes, before.CommittedFile())};
      if regs == dirty { before.DirtyCovers(dirty, prefixes); }
    }

    method FreezeAndLocate(reg: Reg, ghost before: Storage, ghost done: set<Reg>, ghost prefixes: map<Reg, Prefix>)
      returns (prefix: Prefix)
      requires Valid() && View().Ok() && before.Ok() && View().Frozen(before, done) && reg !in done && reg in dirty
      requires Freezable(before.slots[reg]) && View().Collected(prefixes) && prefixes.Keys == done
      modifies `slots, `locals, `stable
      ensures Valid() && View().Ok() && View().Frozen(before, done + {reg})
      ensures View().Collected(prefixes[reg := prefix])
    {
      hide Storage.Ok, SlotOk, CellsOf, CommittedValue, CurrentValue, Storage.Sound, Storage.Frozen, FrozenSlots,
        Storage.Collected, Storage.CleanOutside;
      ghost var middle := View();
      middle.StillFreezable(before, done, reg);
      middle.SoundDirtyCommitted(reg, preserveCommittedRegs, dirty, captured);
      FreezeCommittedRegister(reg);
      View().FrozenMore(middle, before, done, reg);
      View().CollectedMore(middle, reg, prefixes);
      prefix := slots[reg].committed.value.prefix.value;
    }

    /** Run an exit: store every prefix of its snapshot into state memory. */
    method EmitExitStores(prefixes: map<Reg, Prefix>) returns (exposed: RegisterFile)
      requires Valid() && exists snapshot <- captured :: snapshot.prefixes == prefixes
      ensures forall snapshot <- captured :: snapshot.prefixes == prefixes ==>
                forall reg: Reg :: exposed[reg] == if reg in prefixes then snapshot.expected[reg] else stateRegs[reg]
      ensures forall snapshot <- captured :: snapshot.prefixes == prefixes && View().CoveredBy(snapshot) ==>
                forall reg: Reg :: exposed[reg] == snapshot.expected[reg]
    {
      hide Storage.Ok, SlotOk, CellsOf, CommittedValue, CurrentValue, Storage.CleanOutside;
      exposed := stateRegs;
      var rest := prefixes.Keys;
      while rest != {}
        invariant rest <= prefixes.Keys
        invariant forall snapshot <- captured :: snapshot.prefixes == prefixes ==>
                    forall reg: Reg ::
                      exposed[reg] == if reg in prefixes && reg !in rest then snapshot.expected[reg] else stateRegs[reg]
        decreases rest
      {
        var reg :| reg in rest;
        var prefix := prefixes[reg];
        exposed := PutValue(exposed, reg, Merged(exposed[reg], prefix.width, locals[prefix.local]));
        rest := rest - {reg};
      }
    }

    // ---------- reads ----------

    /** A local that holds the full current value; a cell may serve, otherwise a new stable local is recorded. */
    method MaterializeCurrentFull(reg: Reg) returns (local: nat)
      requires Valid()
      modifies `slots, `locals, `stable
      ensures Valid() && View().Ok() && old(View().Ok())
      ensures View().SameCurrent(old(View())) && View().SameCommitted(old(View()))
      ensures local < |locals| && locals[local] == View().Current(reg)
      ensures !UsesMutableCell(old(slots)[reg]) ==> local in stable
    {
      hide Storage.Ok, SlotOk, CellsOf, CommittedValue, CurrentValue, Storage.Sound, Storage.SameCurrent,
        Storage.SameCommitted, CurrentSource, Extract, UncoveredCell, UsesMutableCell, Storage.CleanOutside;
      var slot := slots[reg];
      View().SoundOk(preserveCommittedRegs, dirty, captured);
      View().SoundSlot(reg, preserveCommittedRegs, dirty, captured);
      View().SameAsItself();
      ReadCorrect(slot, locals, stable, stateRegs[reg], Full, true);
      WholeSource(slot, locals, stable, stateRegs[reg]);
      var source := CurrentSource(slot, Full, true);
      if source.Some? {
        return source.value.local;
      }
      UncoveredCellHolds(slot, locals, stable, stateRegs[reg]);
      var cell := UncoveredCell(slot);
      if cell.Some? {
        UncoveredIsMutable(slot);
        return cell.value;
      }
      local := RecordCurrentFull(reg);
    }

    /** Compute the full current value into a new stable local, and record it in the layer it came from. */
    method RecordCurrentFull(reg: Reg) returns (local: nat)
      requires Valid()
      modifies `slots, `locals, `stable
      ensures Valid() && View().Ok() && old(View().Ok())
      ensures View().SameCurrent(old(View())) && View().SameCommitted(old(View()))
      ensures local < |locals| && locals[local] == View().Current(reg) && local in stable
    {
      hide Storage.Ok, SlotOk, CellsOf, CommittedValue, CurrentValue, Storage.Sound, Storage.SameCurrent,
        Storage.SameCommitted, PutSlot, Storage.Changeable, RecordedFull, Storage.CleanOutside, Idle;
      var slot := slots[reg];
      ghost var before := View();
      View().SoundOk(preserveCommittedRegs, dirty, captured);
      View().SoundSlot(reg, preserveCommittedRegs, dirty, captured);
      var value := EmitCurrentFullValue(reg);
      local := |locals|;
      View().RecordKeeps(reg);
      RecordedKeeps(slot, preserveCommittedRegs, local);
      Replace(reg, RecordedFull(slot, local), locals + [value], stable + {local});
      View().CleanAfterSame(before, dirty);
    }

    /** Read a part of a register: the bits of the architectural register. */
    method EmitReadAlias(reg: Reg, part: Part) returns (value: Value)
      requires Valid()
      modifies `slots, `locals, `stable
      ensures Valid() && View().Ok() && old(View().Ok())
      ensures View().SameCurrent(old(View())) && View().SameCommitted(old(View()))
      ensures value == Extract(View().Current(reg), part)
    {
      hide Storage.Ok, SlotOk, CellsOf, CommittedValue, CurrentValue, Storage.Sound, Storage.SameCurrent,
        Storage.SameCommitted, CurrentSource, Extract, CanLoadFromState, Storage.CleanOutside;
      var slot := slots[reg];
      View().SoundOk(preserveCommittedRegs, dirty, captured);
      View().SoundSlot(reg, preserveCommittedRegs, dirty, captured);
      View().SameAsItself();
      ReadCorrect(slot, locals, stable, stateRegs[reg], part, true);
      ReadCorrect(slot, locals, stable, stateRegs[reg], part, false);
      var exact := CurrentSource(slot, part, true);
      if exact.Some? {
        return Extract(locals[exact.value.local], part);
      }
      var prefix := CurrentSource(slot, part, false);
      if prefix.Some? {
        return Extract(locals[prefix.value.local], part);
      }
      if part != Full && CanLoadFromState(slot, part) {
        return Extract(stateRegs[reg], part);
      }
      var local := MaterializeCurrentFull(reg);
      value := Extract(locals[local], part);
    }

    /** A stable local with the full current value, for a copy that must survive later writes. */
    method EnsureStableFullValueForCopy(reg: Reg) returns (local: nat)
      requires Valid()
      modifies `slots, `locals, `stable
      ensures Valid() && View().Ok() && old(View().Ok())
      ensures View().SameCurrent(old(View())) && View().SameCommitted(old(View()))
      ensures local < |locals| && locals[local] == View().Current(reg) && local in stable
    {
      hide Storage.Ok, SlotOk, CellsOf, CommittedValue, CurrentValue, Storage.Sound, Storage.SameCurrent,
        Storage.SameCommitted, CurrentSource, Extract, UsesMutableCell, Storage.CleanOutside;
      var slot := slots[reg];
      View().SoundOk(preserveCommittedRegs, dirty, captured);
      View().SoundSlot(reg, preserveCommittedRegs, dirty, captured);
      View().SameAsItself();
      ReadCorrect(slot, locals, stable, stateRegs[reg], Full, true);
      WholeSource(slot, locals, stable, stateRegs[reg]);
      var source := CurrentSource(slot, Full, true);
      if source.Some? {
        return source.value.local;
      }
      if UsesMutableCell(slot) {
        local := RecordCurrentFull(reg);
      } else {
        local := MaterializeCurrentFull(reg);
      }
    }
  }

  lemma FullLayerCells(slot: Slot, preserve: bool, local: nat)
    ensures CellsOf(WithLayer(slot, preserve, FullPrefix(local))) <= CellsOf(slot)
  {
  }

  /** Reading a slot through longer locals makes no difference to what a write must achieve. */
  lemma WroteSlot(
      slot: Slot, after: Slot, preserve: bool, locals: Locals, stable: set<nat>, longer: Locals, stableLonger: set<nat>,
      stableAfter: set<nat>, memory: Value, value: Value)
    requires SlotOk(slot, locals, stable) && SlotOk(slot, longer, stableLonger)
    requires CommittedValue(slot, longer, stableLonger, memory) == CommittedValue(slot, locals, stable, memory)
    requires Wrote(slot, after, preserve, longer, stableLonger, longer, stableAfter, memory, value)
    ensures Wrote(slot, after, preserve, locals, stable, longer, stableAfter, memory, value)
    ensures SlotOk(after, longer, stableAfter) && Idle(after, preserve)
    ensures slot.committed.Some? ==> after.committed.Some?
    ensures WritableLayer(after, preserve).Some?
  {
  }

  lemma StableBelow(storage: Storage)
    requires storage.Ok()
    ensures forall i <- storage.stable :: i < |storage.locals|
  {
  }

  lemma PrefixInRange(slot: Slot, locals: Locals, stable: set<nat>)
    requires SlotOk(slot, locals, stable)
    ensures CurrentPrefix(slot).Some? ==> CurrentPrefix(slot).value.local < |locals|
  {
  }

  lemma NarrowLayerCells(slot: Slot, preserve: bool, part: Part, local: nat)
    ensures CellsOf(WithLayer(slot, preserve, NarrowLayer(slot, preserve, part, local))) <= CellsOf(slot)
  {
  }

  lemma CellLayerCells(slot: Slot, preserve: bool, cell: nat)
    ensures CellsOf(WithLayer(slot, preserve, Layer(None, Some(cell)))) <= CellsOf(slot) + {cell}
    ensures WritableLayer(slot, preserve).Some? && WritableLayer(slot, preserve).value.cell == Some(cell) ==> cell in CellsOf(slot)
  {
  }

  lemma WroteParts(
      slot: Slot, after: Slot, preserve: bool, locals: Locals, stable: set<nat>, localsAfter: Locals,
      stableAfter: set<nat>, memory: Value, value: Value)
    requires SlotOk(slot, locals, stable)
    requires Wrote(slot, after, preserve, locals, stable, localsAfter, stableAfter, memory, value)
    ensures SlotOk(after, localsAfter, stableAfter) && Idle(after, preserve)
    ensures slot.committed.Some? ==> after.committed.Some?
    ensures WritableLayer(after, preserve).Some?
  {
  }

  lemma InsertWhole(full: Value, value: Value)
    ensures Insert(full, Full, value) == value
  {
  }

  lemma InsertHigh(full: Value, value: Value)
    ensures Insert(full, High8, Masked(value, W8)) == Insert(full, High8, value)
  {
  }

  lemma CommittedKeepsCommitted(slot: Slot)
    ensures CommittedSlot(slot).pending.None?
    ensures slot.committed.Some? || slot.pending.Some? ==> CommittedSlot(slot).committed.Some?
  {
  }

  lemma FrozenCells(slot: Slot, local: nat)
    ensures CellsOf(FrozenSlot(slot, local)) <= CellsOf(slot)
  {
  }

  lemma IdleStays(slot: Slot, preserve: bool, local: nat)
    requires Idle(slot, preserve)
    ensures Idle(FrozenSlot(slot, local), preserve) && FrozenSlot(slot, local).committed.Some?
  {
  }

  lemma FreezableCell(slot: Slot)
    requires Freezable(slot) && slot.committed.Some? && slot.committed.value.cell.Some?
    ensures !LeansOnCommitted(slot)
  {
  }

  /** Whether the current value depends on a cell that a later write may change. */
  predicate UsesMutableCell(slot: Slot) {
    if slot.pending.Some? && slot.pending.value.cell.Some? then true
    else if slot.pending.Some? && slot.pending.value.prefix.Some? && slot.pending.value.prefix.value.width == W32 then false
    else slot.committed.Some? && slot.committed.value.cell.Some?
  }

  lemma UncoveredIsMutable(slot: Slot)
    ensures UncoveredCell(slot).Some? ==> UsesMutableCell(slot)
  {
  }

  lemma WholeSource(slot: Slot, locals: Locals, stable: set<nat>, memory: Value)
    requires SlotOk(slot, locals, stable)
    ensures
      var source := CurrentSource(slot, Full, true);
      source.Some? ==> source.value.local in stable && source.value.local < |locals| &&
                       locals[source.value.local] == CurrentValue(slot, locals, stable, memory)
  {
  }

  lemma RecordedKeeps(slot: Slot, preserve: bool, local: nat)
    requires Idle(slot, preserve)
    ensures Idle(RecordedFull(slot, local), preserve)
    ensures slot.committed.Some? ==> RecordedFull(slot, local).committed.Some?
  {
  }
}
