/**
 The other half of the expression builder's condition, at any point of any block: a register write changes some put-off
 value on some machine exactly when the condition says that it disturbs one. This needs values that lose nothing of what
 they read, because an operator like `x - x` or `x & 0` can hide that its operand has changed.
 */
module DisturbedReads {
  import opened X86Types
  import opened Ir
  import opened Expressions
  import opened ExpressionSafety
  import opened ExpressionProof
  import Bits
  import PropagationTheorem

  /** A whole register or part of one, or an address, moved by constants. */
  predicate Lossless(expr: Expr, context: Context) {
    match expr
    case Source(storage, width, _) =>
      !storage.MemExpr? && AliasOf(StorageOf(storage), context).Some? &&
      AliasOf(StorageOf(storage), context).value.width == width
    case AddressOf(operand) =>
      operand < |context.operands| && context.operands[operand].MemBinding? &&
      context.operands[operand].ea.scale in {1, 2, 4, 8}
    case BinaryExpr(operator, a, b) =>
      (operator == BinAdd || operator == BinSub) && b.Ref? && b.value.Const? && Lossless(a, context)
    case _ => false
  }

  /** The machine after a write of all the bits that a register storage names. */
  function Written(write: Storage, value: Word, context: Context, m: Machine): Outcome
    requires AliasOf(write, context).Some?
  {
    Step(Set(write, Const(value), AliasOf(write, context).value.width, false), context, m)
  }

  /** Evaluating the expression after the write gives what evaluating it before would have given. */
  predicate Keeps(expr: Expr, write: Storage, value: Word, context: Context, m: Machine)
    requires AliasOf(write, context).Some?
  {
    var after := Written(write, value, context, m);
    after.Running? && EvalExpr(expr, context, after.m) == EvalExpr(expr, context, m)
  }

  // ---------- setting every bit of a register part ----------

  const ONES: Word := 0xFFFF_FFFF

  function Blank(): Machine {
    Machine(ZeroRegs(), ZeroRegs(), {}, {}, [], map[], [])
  }

  function PartOnes(alias: Alias): Word {
    match alias.width
    case W8 => if alias.offset == 0 then 0xFF else 0xFF00
    case W16 => 0xFFFF
    case W32 => ONES
  }

  lemma RealPart(storage: Storage, context: Context)
    requires RealAliases(context) && AliasOf(storage, context).Some?
    ensures RealAlias(AliasOf(storage, context).value)
  {
  }

  lemma PartSet(alias: Alias)
    requires RealAlias(alias)
    ensures WriteAlias(ZeroRegs(), alias, Mask32(Mask32(ONES, alias.width), alias.width)) ==
            ZeroRegs()[alias.base := PartOnes(alias)]
  {
    OnesIn(alias);
    hide WriteField, Mask32;
  }

  lemma OnesIn(alias: Alias)
    requires RealAlias(alias)
    ensures
      var value := Mask32(Mask32(ONES, alias.width), alias.width);
      PartOnes(alias) == if alias.width == W32 then value else WriteField(0, alias.offset, alias.width, value)
  {
    hide WriteField, Mask32;
    OnesMasked(alias.width);
    if alias.width != W32 {
      FieldSet(alias.offset, alias.width);
    }
  }

  lemma OnesMasked(width: Width)
    ensures Mask32(Mask32(ONES, width), width) == Modulus(width) - 1
  {
  }

  lemma FieldSet(offset: nat, width: Width)
    requires width != W32 && (offset == 0 || (offset == 8 && width == W8))
    ensures WriteField(0, offset, width, Modulus(width) - 1) == if offset == 0 then Modulus(width) - 1 else 0xFF00
  {
    assert Bits.Pow2(8) == 0x100 && Bits.Pow2(0) == 1;
    assert ReadField(0, 0, width) == 0 && ReadField(0, 8, width) == 0;
    assert Mask32(Modulus(width) - 1, width) == Modulus(width) - 1;
    hide ReadField, Mask32, Bits.Pow2;
  }

  lemma WrittenOnes(write: Storage, context: Context)
    requires RealAliases(context) && AliasOf(write, context).Some?
    ensures
      var alias := AliasOf(write, context).value;
      Written(write, ONES, context, Blank()) == Running(Blank().(regs := ZeroRegs()[alias.base := PartOnes(alias)]))
  {
    hide WriteAlias, Mask32;
    RealPart(write, context);
    PartSet(AliasOf(write, context).value);
  }

  lemma OverlapShows(written: Alias, read: Alias)
    requires RealAlias(written) && RealAlias(read) && AliasesOverlap(written, read)
    ensures
      var regs := ZeroRegs()[written.base := PartOnes(written)];
      Mask32(ReadAlias(regs, read), read.width) != 0 && Mask32(ReadAlias(ZeroRegs(), read), read.width) == 0
  {
  }

  lemma ExtensionShows(read: Storage, width: Width, signed: bool, value: Word)
    requires value < Modulus(width)
    ensures Extended(Get(0, read, width, signed), value) == 0 <==> value == 0
  {
  }

  lemma SourceShows(source: StorageExpr, width: Width, signed: bool, write: Storage, context: Context, m: Machine)
    requires RealAliases(context) && Lossless(Source(source, width, signed), context)
    requires AliasOf(write, context).Some? && ExprReads(Source(source, width, signed), write, context)
    requires
      var alias := AliasOf(write, context).value;
      m == Blank().(regs := ZeroRegs()[alias.base := PartOnes(alias)])
    ensures
      var expr := Source(source, width, signed);
      EvalExpr(expr, context, m).Some? && EvalExpr(expr, context, Blank()).Some? &&
      EvalExpr(expr, context, m) != EvalExpr(expr, context, Blank())
  {
    hide ReadAlias, Mask32, Extended, PartOnes;
    var read := AliasOf(StorageOf(source), context).value;
    RealPart(write, context);
    RealPart(StorageOf(source), context);
    OverlapShows(AliasOf(write, context).value, read);
    MaskFits(ReadAlias(m.regs, read), width);
    MaskFits(ReadAlias(ZeroRegs(), read), width);
    ExtensionShows(StorageOf(source), width, signed, Mask32(ReadAlias(m.regs, read), width));
    ExtensionShows(StorageOf(source), width, signed, Mask32(ReadAlias(ZeroRegs(), read), width));
  }

  lemma MaskFits(value: Word, width: Width)
    ensures Mask32(value, width) < Modulus(width)
  {
  }

  lemma ScaledOnes(alias: Alias, scale: nat)
    requires RealAlias(alias) && scale in {1, 2, 4, 8}
    ensures
      var x := PartOnes(alias);
      U32(x * scale) != 0 && U32(x + U32(x * scale)) != 0
  {
  }

  lemma AddressShows(operand: nat, write: Storage, context: Context)
    requires RealAliases(context) && Lossless(AddressOf(operand), context)
    requires AliasOf(write, context).Some? && ExprReads(AddressOf(operand), write, context)
    ensures
      var alias := AliasOf(write, context).value;
      var ea := context.operands[operand].ea;
      EffectiveAddress(ea, ZeroRegs()[alias.base := PartOnes(alias)]) != EffectiveAddress(ea, ZeroRegs())
  {
    hide PartOnes;
    var alias := AliasOf(write, context).value;
    RealPart(write, context);
    ScaledOnes(alias, context.operands[operand].ea.scale);
  }

  /** Blank registers and one part of all ones are told apart by every lossless value that reads the part. */
  lemma {:induction false} ReadShows(expr: Expr, write: Storage, context: Context, m: Machine)
    requires RealAliases(context) && Lossless(expr, context)
    requires AliasOf(write, context).Some? && ExprReads(expr, write, context)
    requires
      var alias := AliasOf(write, context).value;
      m == Blank().(regs := ZeroRegs()[alias.base := PartOnes(alias)])
    ensures EvalExpr(expr, context, m).Some? && EvalExpr(expr, context, Blank()).Some?
    ensures EvalExpr(expr, context, m) != EvalExpr(expr, context, Blank())
    decreases expr
  {
    hide EvalBinary, EffectiveAddress, PartOnes, ReadPlace, AliasOf;
    match expr
    case Source(source, width, signed) => SourceShows(source, width, signed, write, context, m);
    case AddressOf(operand) => AddressShows(operand, write, context);
    case BinaryExpr(operator, a, b) =>
      ReadShows(a, write, context, m);
      PropagationTheorem.AddingIsLossless(operator, EvalExpr(a, context, m).value, EvalExpr(a, context, Blank()).value,
                                          b.value.value);
    case _ =>
  }

  // ---------- the converse ----------

  lemma WrittenRegs(write: Storage, value: Word, context: Context, m: Machine)
    requires AliasOf(write, context).Some?
    ensures
      var alias := AliasOf(write, context).value;
      && Written(write, value, context, m).Running?
      && Written(write, value, context, m).m.regs == WriteAlias(m.regs, alias, Mask32(Mask32(value, alias.width), alias.width))
  {
    hide WriteAlias, Mask32;
  }

  lemma {:induction false} NotReadIsKept(expr: Expr, write: Storage, value: Word, context: Context, m: Machine, n: Machine)
    requires RealAliases(context) && Lossless(expr, context) && AliasOf(write, context).Some?
    requires !ExprReads(expr, write, context) && n.regs == WriteAlias(m.regs, AliasOf(write, context).value, value)
    ensures EvalExpr(expr, context, n) == EvalExpr(expr, context, m)
    decreases expr
  {
    hide WriteAlias, ReadPlace, MayAlias, RealAliases, EffectiveAddress, EvalBinary;
    var width := AliasOf(write, context).value.width;
    assert AccessAlias(write, width, context) == AliasOf(write, context);
    match expr
    case Source(storage, readWidth, signed) =>
      ReadAfterWrite(StorageOf(storage), readWidth, signed, write, width, value, context, m, n);
    case AddressOf(operand) => AddressAfterWrite(operand, write, width, value, context, m, n);
    case BinaryExpr(_, a, _) => NotReadIsKept(a, write, value, context, m, n);
    case _ =>
  }

  /** A put-off value survives a register write on all machines exactly when it reads nothing the write hits. */
  lemma WriteIsHarmlessIffNotRead(expr: Expr, write: Storage, context: Context)
    requires RealAliases(context) && Lossless(expr, context) && AliasOf(write, context).Some?
    ensures (forall m: Machine, value: Word :: Keeps(expr, write, value, context, m)) <==> !ExprReads(expr, write, context)
  {
    hide Lossless, ExprReads, EvalExpr, AliasOf, Written, WriteAlias, Mask32, RealAliases, PartOnes;
    if ExprReads(expr, write, context) {
      WrittenOnes(write, context);
      ReadShows(expr, write, context, Written(write, ONES, context, Blank()).m);
      assert !Keeps(expr, write, ONES, context, Blank());
    } else {
      forall m: Machine, value: Word ensures Keeps(expr, write, value, context, m) {
        var alias := AliasOf(write, context).value;
        WrittenRegs(write, value, context, m);
        NotReadIsKept(expr, write, Mask32(Mask32(value, alias.width), alias.width), context, m,
                      Written(write, value, context, m).m);
      }
    }
  }

  /** A computed value without a variable that is used after the operation. */
  predicate StillNeeded(pending: Pending, id: VarId, op: Op, rest: seq<Op>) {
    id in pending && pending[id].Nested? && OpUses(op, id) == 0 && CountUses(rest, id) > 0
  }

  /**
   Wherever the builder stands in a block: the next register write leaves every computed value that is still needed
   as it was, on all machines and whatever it writes, exactly when the condition says that it disturbs none of them.
   */
  lemma WriteDisturbsIffSomeMachineShowsIt(block: Instruction, bindings: Bindings, pending: Pending, op: Op, rest: seq<Op>)
    requires RealAliases(block.context) && Tracks(bindings, pending, block.context)
    requires Target(op).Some? && AliasOf(Target(op).value, block.context).Some?
    requires forall id <- pending :: StillNeeded(pending, id, op, rest) ==> Lossless(bindings[id], block.context)
    ensures (forall id, m: Machine, value: Word :: StillNeeded(pending, id, op, rest) ==>
               Keeps(bindings[id], Target(op).value, value, block.context, m)) <==>
            DisturbsNothing(block, pending, op, rest)
  {
    hide Keeps, Lossless, AliasOf, Hits, ExprReads, OpUses, CountUses, RealAliases;
    var write := Target(op).value;
    forall id | StillNeeded(pending, id, op, rest)
      ensures (forall m: Machine, value: Word :: Keeps(bindings[id], write, value, block.context, m)) <==>
              !exists read <- pending[id].inside :: Hits(write, read, block.context)
    {
      WriteIsHarmlessIffNotRead(bindings[id], write, block.context);
      assert Waits(bindings[id], pending[id], block.context);
    }
  }

  /** The difference of a register and itself. */
  function Zero(reg: Reg): Expr {
    BinaryExpr(BinSub, Source(RegExpr(reg), W32, false), Source(RegExpr(reg), W32, false))
  }

  /** Without the restriction to lossless values the converse is false: this value reads the register and survives. */
  lemma AHiddenReadSurvives(reg: Reg, context: Context)
    ensures ExprReads(Zero(reg), RegStorage(reg), context)
    ensures forall m: Machine, value: Word :: Keeps(Zero(reg), RegStorage(reg), value, context, m)
  {
    hide WriteAlias, Mask32, ReadAlias;
    forall m: Machine, value: Word ensures Keeps(Zero(reg), RegStorage(reg), value, context, m) {
      WrittenRegs(RegStorage(reg), value, context, m);
      ZeroAnywhere(reg, context, m);
      ZeroAnywhere(reg, context, Written(RegStorage(reg), value, context, m).m);
    }
  }

  lemma ZeroAnywhere(reg: Reg, context: Context, m: Machine)
    ensures EvalExpr(Zero(reg), context, m) == Some(0)
  {
    hide Mask32, ReadAlias, Extended;
  }
}
