/**
 What the operands of an instruction hold, in the terms of the architecture: bits of registers, little-endian bytes of
 memory, and integers. The operations that read and write operands are right by these terms.
 */
module OperandMeaning {
  import opened X86Types
  import opened Flags
  import opened Conditions
  import opened Ir
  import opened Expressions
  import ExpressionProof
  import Bits

  /** What an instruction sees and changes. */
  datatype State = State(regs: Regs, flags: Mask, memory: seq<Byte>)

  function StateOf(m: Machine): State {
    State(m.regs, m.flags, m.memory)
  }

  // ---------- what an operand holds ----------

  /** The value of the part of a register that an alias names: the same bits, from the part's first one. */
  predicate PartHolds(full: Word, alias: Alias, v: int) {
    && 0 <= v < Modulus(alias.width)
    && forall i: nat | i < BitsOf(alias.width) :: Bits.Bit(v, i) == Bits.Bit(full, alias.offset + i)
  }

  /** Little-endian bytes. */
  predicate BytesHold(memory: seq<Byte>, address: nat, width: Width, v: int) {
    && address + Size(width) <= |memory| && 0 <= v < Modulus(width)
    && forall k: nat | k < Size(width) :: memory[address + k] == v / Bits.Pow2(8 * k) % 0x100
  }

  /** Base plus scaled index plus displacement, over the integers. */
  function Linear(ea: MemOperand, regs: Regs): int {
    (if ea.base.Some? then regs[ea.base.value] else 0) + (if ea.index.Some? then regs[ea.index.value] * ea.scale else 0) +
    ea.disp
  }

  function LinearAddress(ea: MemOperand, regs: Regs): Word {
    Linear(ea, regs) % 0x1_0000_0000
  }

  /** The integer that an operand holds. */
  predicate Holds(binding: Binding, width: Width, s: State, v: int) {
    match binding
    case RegBinding(alias) => PartHolds(s.regs[alias.base], alias, v)
    case MemBinding(ea) => BytesHold(s.memory, LinearAddress(ea, s.regs), width, v)
    case ImmBinding(value) => v == value % Modulus(width)
    case RelTarget(target) => v == target
  }

  predicate InMemory(binding: Binding, width: Width, s: State) {
    binding.MemBinding? ==> LinearAddress(binding.ea, s.regs) + Size(width) <= |s.memory|
  }

  /** An operand of the operation's width; jump targets are whole words. */
  predicate Fits(binding: Binding, width: Width) {
    && (binding.RegBinding? ==> binding.alias.width == width && ExpressionProof.RealAlias(binding.alias))
    && (binding.RelTarget? ==> width == W32)
  }

  lemma HeldFits(binding: Binding, width: Width, s: State, v: int)
    requires Fits(binding, width) && Holds(binding, width, s, v)
    ensures 0 <= v < Modulus(width)
  {
  }

  // ---------- what a write changes ----------

  predicate PartBecomes(full: Word, alias: Alias, v: nat, after: Word) {
    forall i: nat | i < 32 ::
      Bits.Bit(after, i) ==
      if alias.offset <= i < alias.offset + BitsOf(alias.width) then Bits.Bit(v, i - alias.offset) else Bits.Bit(full, i)
  }

  predicate BytesBecome(memory: seq<Byte>, address: nat, width: Width, v: int, after: seq<Byte>) {
    && |after| == |memory| && BytesHold(after, address, width, v)
    && forall i | 0 <= i < |memory| :: i < address || i >= address + Size(width) ==> after[i] == memory[i]
  }

  /** The operand, and nothing else but perhaps flags, becomes the value. */
  predicate Becomes(binding: Binding, width: Width, v: nat, s: State, t: State) {
    match binding
    case RegBinding(alias) =>
      && PartBecomes(s.regs[alias.base], alias, v, t.regs[alias.base]) && t.memory == s.memory
      && forall reg: Reg :: reg != alias.base ==> t.regs[reg] == s.regs[reg]
    case MemBinding(ea) => BytesBecome(s.memory, LinearAddress(ea, s.regs), width, v, t.memory) && t.regs == s.regs
    case _ => false
  }

  // ---------- registers ----------

  lemma WidthPower(width: Width)
    ensures Bits.Pow2(BitsOf(width)) == Modulus(width)
  {
    Powers();
  }

  lemma FieldBits(full: Word, alias: Alias)
    requires ExpressionProof.RealAlias(alias)
    ensures PartHolds(full, alias, ReadField(full, alias.offset, alias.width))
  {
    hide Bits.Pow2, Bits.Bit, Modulus;
    var shifted := Bits.ShiftRight(full, alias.offset);
    Bits.ShiftDivides(full, alias.offset);
    WidthPower(alias.width);
    FieldFits(full, alias);
    forall i: nat | i < BitsOf(alias.width)
      ensures Bits.Bit(ReadField(full, alias.offset, alias.width), i) == Bits.Bit(full, alias.offset + i)
    {
      Bits.BitLow(shifted, BitsOf(alias.width), i);
      Bits.BitShifted(full, alias.offset, i);
    }
  }

  lemma FieldFits(full: Word, alias: Alias)
    ensures ReadField(full, alias.offset, alias.width) == full / Bits.Pow2(alias.offset) % Modulus(alias.width)
    ensures 0 <= ReadField(full, alias.offset, alias.width) < Modulus(alias.width)
  {
  }

  lemma PartRead(regs: Regs, alias: Alias)
    requires ExpressionProof.RealAlias(alias)
    ensures PartHolds(regs[alias.base], alias, Mask32(ReadAlias(regs, alias), alias.width))
  {
    hide Bits.Bit;
    if alias.width != W32 {
      FieldBits(regs[alias.base], alias);
      FieldFits(regs[alias.base], alias);
    }
  }

  lemma PartIsOne(full: Word, alias: Alias, u: int, v: int)
    requires PartHolds(full, alias, u) && PartHolds(full, alias, v)
    ensures u == v
  {
    WidthPower(alias.width);
    hide Bits.Bit, Bits.Pow2;
    Bits.SameBits(u, v, BitsOf(alias.width));
  }

  function Unit(offset: nat): nat {
    if offset == 0 then 1 else 0x100
  }

  function Above(full: Word, offset: nat, width: Width): nat {
    match width
    case W8 => if offset == 0 then full / 0x100 else full / 0x1_0000
    case _ => full / 0x1_0000
  }

  /** A word cut at a part: below it, the part, above it. */
  lemma Cut(full: Word, offset: nat, width: Width)
    requires ExpressionProof.RealAlias(Alias(EAX, offset, width)) && width != W32
    ensures Unit(offset) == Bits.Pow2(offset)
    ensures full == full % Unit(offset) + Unit(offset) * (ReadField(full, offset, width) + Modulus(width) * Above(full, offset, width))
  {
    BytePlaces();
    FieldFits(full, Alias(EAX, offset, width));
    hide Bits.Pow2, ReadField;
    var x: int := full;
    CutAtByte(x);
    if offset == 0 {
      assert x / 1 == x && x % 1 == 0;
    }
  }

  lemma CutAtByte(x: int)
    ensures x == x % 0x100 + 0x100 * (x / 0x100 % 0x100 + 0x100 * (x / 0x1_0000))
    ensures x == x % 0x100 + 0x100 * (x / 0x100) && x == x % 0x1_0000 + 0x1_0000 * (x / 0x1_0000)
  {
  }

  lemma JoinedBits(low: nat, field: nat, high: nat, offset: nat, width: Width, i: nat)
    requires low < Bits.Pow2(offset) && field < Modulus(width)
    ensures Bits.Bit(low + Bits.Pow2(offset) * (field + Modulus(width) * high), i) ==
            if i < offset then Bits.Bit(low, i)
            else if i < offset + BitsOf(width) then Bits.Bit(field, i - offset)
            else Bits.Bit(high, i - offset - BitsOf(width))
  {
    hide Bits.Bit, Bits.Pow2, Modulus;
    WidthPower(width);
    Bits.BitJoined(low, field + Modulus(width) * high, offset, i);
    if i >= offset { Bits.BitJoined(field, high, BitsOf(width), i - offset); }
  }

  lemma WrittenCut(full: Word, offset: nat, width: Width, v: Word)
    requires ExpressionProof.RealAlias(Alias(EAX, offset, width)) && width != W32 && v < Modulus(width)
    ensures WriteField(full, offset, width, v) ==
            full % Unit(offset) + Unit(offset) * (v + Modulus(width) * Above(full, offset, width))
  {
    Cut(full, offset, width);
    var field, high := ReadField(full, offset, width), Above(full, offset, width);
    hide ReadField, Bits.Pow2;
    Below(full % Unit(offset), v, high, offset, width);
    assert Mask32(v, width) == v;
    Replaced(full, full % Unit(offset), field, high, v, offset, width);
  }

  lemma Replaced(full: Word, low: nat, field: nat, high: nat, v: nat, offset: nat, width: Width)
    requires full == low + Unit(offset) * (field + Modulus(width) * high)
    ensures full - field * Unit(offset) + v * Unit(offset) == low + Unit(offset) * (v + Modulus(width) * high)
  {
  }

  lemma Below(low: nat, field: nat, high: nat, offset: nat, width: Width)
    requires ExpressionProof.RealAlias(Alias(EAX, offset, width)) && width != W32 && field < Modulus(width)
    requires low < Unit(offset)
    requires high < match width case W8 => (if offset == 0 then 0x100_0000 else 0x1_0000) case _ => 0x1_0000
    ensures 0 <= low + Unit(offset) * (field + Modulus(width) * high) < 0x1_0000_0000
  {
  }

  lemma FieldWritten(full: Word, alias: Alias, v: Word)
    requires ExpressionProof.RealAlias(alias) && alias.width != W32 && v < Modulus(alias.width)
    ensures PartBecomes(full, alias, v, WriteField(full, alias.offset, alias.width, v))
  {
    hide Bits.Bit, Bits.Pow2, Modulus, WriteField, ReadField, Above, Unit;
    var low, field := full % Bits.Pow2(alias.offset), ReadField(full, alias.offset, alias.width);
    var high := Above(full, alias.offset, alias.width);
    Cut(full, alias.offset, alias.width);
    WrittenCut(full, alias.offset, alias.width, v);
    FieldFits(full, alias);
    forall i: nat | i < 32
      ensures Bits.Bit(WriteField(full, alias.offset, alias.width, v), i) ==
              if alias.offset <= i < alias.offset + BitsOf(alias.width) then Bits.Bit(v, i - alias.offset)
              else Bits.Bit(full, i)
    {
      JoinedBits(low, field, high, alias.offset, alias.width, i);
      JoinedBits(low, v, high, alias.offset, alias.width, i);
    }
  }

  lemma PartWritten(regs: Regs, alias: Alias, v: Word)
    requires ExpressionProof.RealAlias(alias) && v < Modulus(alias.width)
    ensures
      var after := WriteAlias(regs, alias, v);
      && PartBecomes(regs[alias.base], alias, v, after[alias.base])
      && forall reg: Reg :: reg != alias.base ==> after[reg] == regs[reg]
  {
    hide Bits.Bit, WriteField;
    if alias.width != W32 { FieldWritten(regs[alias.base], alias, v); }
  }

  // ---------- memory ----------

  lemma BytesRead(memory: seq<Byte>, address: Word, width: Width)
    requires InBounds(memory, address, width)
    ensures BytesHold(memory, address, width, ReadMemory(memory, address, width))
  {
    BytePlaces();
    hide Bits.Pow2;
    var b0: int := ByteAt(memory, address);
    var b1: int := if width == W8 then 0 else ByteAt(memory, address + 1);
    var b2: int := if width == W32 then ByteAt(memory, address + 2) else 0;
    var b3: int := if width == W32 then ByteAt(memory, address + 3) else 0;
    Bits.BytesJoin(b0, b1, b2, b3);
    var v := b0 + 0x100 * b1 + 0x1_0000 * b2 + 0x100_0000 * b3;
    assert ReadMemory(memory, address, width) == v && v / 1 == v && b3 % 0x100 == b3;
  }

  lemma BytePlaces()
    ensures Bits.Pow2(0) == 1 && Bits.Pow2(8) == 0x100 && Bits.Pow2(16) == 0x1_0000 && Bits.Pow2(24) == 0x100_0000
  {
    Powers();
    assert Bits.Pow2(20) == 0x10_0000;
  }

  lemma BytesWritten(memory: seq<Byte>, address: Word, width: Width, v: Word)
    requires InBounds(memory, address, width) && v < Modulus(width)
    ensures BytesBecome(memory, address, width, v, WriteMemory(memory, address, width, v))
  {
    BytePlaces();
    hide Bits.Pow2;
  }

  lemma BytesAreOne(memory: seq<Byte>, address: nat, width: Width, u: int, v: int)
    requires BytesHold(memory, address, width, u) && BytesHold(memory, address, width, v)
    ensures u == v
  {
    SameByte(memory, address, width, u, v, 0);
    SameByte(memory, address, width, u, v, 1);
    SameByte(memory, address, width, u, v, 2);
    SameByte(memory, address, width, u, v, 3);
    BytePlaces();
    assert Size(W8) == 1 && Size(W16) == 2 && Size(W32) == 4;
    hide Bits.Pow2;
    SameDigits(u, v, width);
  }

  lemma SameByte(memory: seq<Byte>, address: nat, width: Width, u: int, v: int, k: nat)
    requires BytesHold(memory, address, width, u) && BytesHold(memory, address, width, v)
    ensures k < Size(width) ==> u / Bits.Pow2(8 * k) % 0x100 == v / Bits.Pow2(8 * k) % 0x100
  {
    if k < Size(width) {
      assert memory[address + k] == u / Bits.Pow2(8 * k) % 0x100;
    }
  }

  lemma SameDigits(u: int, v: int, width: Width)
    requires 0 <= u < Modulus(width) && 0 <= v < Modulus(width) && u / 1 % 0x100 == v / 1 % 0x100
    requires width != W8 ==> u / 0x100 % 0x100 == v / 0x100 % 0x100
    requires width == W32 ==> u / 0x1_0000 % 0x100 == v / 0x1_0000 % 0x100 && u / 0x100_0000 % 0x100 == v / 0x100_0000 % 0x100
    ensures u == v
  {
    Bits.Digits(u);
    Bits.Digits(v);
    assert u / 1 == u && v / 1 == v;
  }

  lemma AddressIsLinear(ea: MemOperand, regs: Regs)
    ensures EffectiveAddress(ea, regs) == LinearAddress(ea, regs)
  {
    var base: int := if ea.base.Some? then regs[ea.base.value] else 0;
    var index: int := if ea.index.Some? then regs[ea.index.value] * ea.scale else 0;
    WrapInside(base, index, ea.disp);
  }

  lemma WrapInside(a: int, p: int, d: int)
    ensures (a + p % 0x1_0000_0000 + d) % 0x1_0000_0000 == (a + p + d) % 0x1_0000_0000
  {
  }

  // ---------- every operand holds one value ----------

  lemma HoldsOne(binding: Binding, width: Width, s: State, u: int, v: int)
    requires Holds(binding, width, s, u) && Holds(binding, width, s, v)
    ensures u == v
  {
    hide PartHolds, BytesHold;
    match binding
    case RegBinding(alias) => PartIsOne(s.regs[alias.base], alias, u, v);
    case MemBinding(ea) => BytesAreOne(s.memory, LinearAddress(ea, s.regs), width, u, v);
    case _ =>
  }

  /** An operand that fits holds a value unless it lies outside memory. */
  lemma HoldsSome(binding: Binding, width: Width, s: State)
    requires Fits(binding, width)
    ensures (exists v: Word :: Holds(binding, width, s, v)) <==> InMemory(binding, width, s)
  {
    match binding
    case RegBinding(alias) =>
      PartRead(s.regs, alias);
      assert Holds(binding, width, s, Mask32(ReadAlias(s.regs, alias), alias.width));
    case MemBinding(ea) =>
      if InMemory(binding, width, s) {
        BytesRead(s.memory, LinearAddress(ea, s.regs), width);
        assert Holds(binding, width, s, ReadMemory(s.memory, LinearAddress(ea, s.regs), width));
      }
    case ImmBinding(value) =>
      var v: Word := value % Modulus(width);
      assert Holds(binding, width, s, v);
    case RelTarget(target) =>
      assert Holds(binding, width, s, target);
  }

  // ---------- the operations on operands ----------

  predicate IsOperand(context: Context, index: nat, width: Width) {
    index < |context.operands| && Fits(context.operands[index], width)
  }

  /** What a read leaves in the variable: the value, sign-extended to a word if asked. */
  function Loaded(v: Word, width: Width, signed: bool): Word {
    if signed then Signed(v, width) % 0x1_0000_0000 else v
  }

  lemma PlaceHolds(index: nat, width: Width, context: Context, m: Machine, v: Word)
    requires IsOperand(context, index, width) && Holds(context.operands[index], width, StateOf(m), v)
    ensures
      match PlaceOf(Operand(index), width, context, m)
      case RegPlace(alias, access) => access == width && Mask32(ReadAlias(m.regs, alias), width) == v
      case MemPlace(address) => InBounds(m.memory, address, width) && ReadMemory(m.memory, address, width) == v
      case ConstPlace(value) => value == v
      case NoPlace => false
  {
    hide PartHolds, BytesHold, ReadAlias, ReadMemory, EffectiveAddress, LinearAddress;
    var binding := context.operands[index];
    match binding
    case RegBinding(alias) =>
      PartRead(m.regs, alias);
      PartIsOne(m.regs[alias.base], alias, v, Mask32(ReadAlias(m.regs, alias), alias.width));
    case MemBinding(ea) =>
      AddressIsLinear(ea, m.regs);
      var address := LinearAddress(ea, m.regs);
      HeldIsInBounds(m.memory, address, width, v);
      BytesRead(m.memory, address, width);
      BytesAreOne(m.memory, address, width, v, ReadMemory(m.memory, address, width));
    case _ =>
  }

  lemma HeldIsInBounds(memory: seq<Byte>, address: Word, width: Width, v: int)
    requires BytesHold(memory, address, width, v)
    ensures InBounds(memory, address, width) && 0 <= v < Modulus(width)
  {
  }

  lemma SignExtends(v: Word, width: Width)
    ensures Extended(Get(0, Operand(0), width, true), v) == Loaded(v, width, true)
    ensures width != W32 ==> SignExtend(v, width) == Signed(v, width) % 0x1_0000_0000
  {
    hide SignExtend, Signed;
    ExtendsSigned(v, width);
    WholeIsItself(v);
  }

  lemma ExtendsSigned(v: Word, width: Width)
    ensures width != W32 ==> SignExtend(v, width) == Signed(v, width) % 0x1_0000_0000
  {
    var low: int := v % Modulus(width);
    assert low % 0x1_0000_0000 == low;
    hide Modulus, SignMask;
  }

  lemma GetMeans(dst: VarId, index: nat, width: Width, signed: bool, context: Context, m: Machine, v: Word)
    requires IsOperand(context, index, width) && Holds(context.operands[index], width, StateOf(m), v)
    ensures
      var step := Step(Get(dst, Operand(index), width, signed), context, m);
      step.Running? && step.m == m.(vars := m.vars[dst := Loaded(v, width, signed)], log := step.m.log)
  {
    hide PlaceOf, Holds, Fits, SignExtend, Signed, ReadMemory, Mask32, ReadAlias;
    PlaceHolds(index, width, context, m, v);
    SignExtends(v, width);
    WholeIsItself(v);
  }

  lemma WholeIsItself(v: Word)
    ensures Signed(v, W32) % 0x1_0000_0000 == v
  {
  }

  lemma GetFaults(dst: VarId, index: nat, width: Width, signed: bool, context: Context, m: Machine)
    requires index < |context.operands| && !InMemory(context.operands[index], width, StateOf(m))
    ensures
      var address := LinearAddress(context.operands[index].ea, m.regs);
      Step(Get(dst, Operand(index), width, signed), context, m) == FaultAt(m, ReadAccess(address, width))
  {
    hide EffectiveAddress, LinearAddress;
    AddressIsLinear(context.operands[index].ea, m.regs);
  }

  predicate Writable(binding: Binding) {
    binding.RegBinding? || binding.MemBinding?
  }

  lemma SetMeans(index: nat, value: Value, width: Width, context: Context, m: Machine, x: Word)
    requires IsOperand(context, index, width) && Eval(value, m.vars, context.nextEip) == Some(x)
    requires Writable(context.operands[index]) && InMemory(context.operands[index], width, StateOf(m))
    ensures
      var step := Step(Set(Operand(index), value, width, false), context, m);
      && step.Running? && step.m == m.(regs := step.m.regs, memory := step.m.memory, log := step.m.log)
      && Becomes(context.operands[index], width, x % Modulus(width), StateOf(m), StateOf(step.m))
  {
    CutIsCut(x, width);
    hide Becomes, Mask32, Modulus, EffectiveAddress, StepWrite, LinearAddress;
    StoreMeans(index, x, width, context, m);
  }

  lemma StoreMeans(index: nat, x: Word, width: Width, context: Context, m: Machine)
    requires IsOperand(context, index, width)
    requires Writable(context.operands[index]) && InMemory(context.operands[index], width, StateOf(m))
    ensures
      var step := StepWrite(Operand(index), x, width, false, context, m);
      && step.Running? && step.m == m.(regs := step.m.regs, memory := step.m.memory, log := step.m.log)
      && Becomes(context.operands[index], width, x % Modulus(width), StateOf(m), StateOf(step.m))
  {
    var binding, v := context.operands[index], x % Modulus(width);
    CutIsCut(x, width);
    hide PartBecomes, BytesBecome, WriteAlias, WriteMemory, EffectiveAddress, LinearAddress, Mask32, Modulus;
    match binding
    case RegBinding(alias) => PartWritten(m.regs, alias, v);
    case MemBinding(ea) =>
      AddressIsLinear(ea, m.regs);
      BytesWritten(m.memory, LinearAddress(ea, m.regs), width, v);
  }

  lemma CutIsCut(x: Word, width: Width)
    ensures Mask32(x, width) == x % Modulus(width) < Modulus(width)
    ensures Mask32(Mask32(x, width), width) == Mask32(x, width)
  {
  }

  lemma SetFaults(index: nat, value: Value, width: Width, context: Context, m: Machine, x: Word)
    requires index < |context.operands| && Eval(value, m.vars, context.nextEip) == Some(x)
    requires !InMemory(context.operands[index], width, StateOf(m))
    ensures
      var address := LinearAddress(context.operands[index].ea, m.regs);
      Step(Set(Operand(index), value, width, false), context, m) == FaultAt(m, WriteAccess(address, width, x % Modulus(width)))
  {
    hide EffectiveAddress, LinearAddress;
    AddressIsLinear(context.operands[index].ea, m.regs);
  }
}
