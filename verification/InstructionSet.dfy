/**
 Instruction forms and the validation of a whole set of them. Two forms overlap exactly when some encoding could be
 read as either, so an accepted set leaves no encoding ambiguous.
 */
module InstructionSet {
  import opened X86Types
  import opened OpcodePaths

  datatype OperandSize = Default | Override

  // The fields of the ModRM byte that a form asks for.
  datatype ModRmMatch = ModRmMatch(mod: Option<int>, reg: Option<int>, rm: Option<int>)

  datatype OperandKind = ModRmRegOperand | ModRmRmOperand | OpcodeRegOperand | OtherOperand

  datatype InstructionSpec = InstructionSpec(
    id: string, opcode: OpcodePath, operandSize: Option<OperandSize>, modrm: Option<ModRmMatch>,
    operands: seq<OperandKind>)

  predicate InstructionReadsModRm(spec: InstructionSpec) {
    spec.modrm.Some? || ModRmRegOperand in spec.operands || ModRmRmOperand in spec.operands
  }

  function OperandSizePrefixMode(spec: InstructionSpec): OperandSize {
    if spec.operandSize.Some? then spec.operandSize.value else Default
  }

  // ---------- validation of one form ----------

  predicate ValidReg3(value: Option<int>) {
    value.Some? ==> 0 <= value.value <= 7
  }

  predicate ValidModRmMatch(modrm: Option<ModRmMatch>) {
    modrm.Some? ==> ValidReg3(modrm.value.mod) && ValidReg3(modrm.value.reg) && ValidReg3(modrm.value.rm)
  }

  function OpcodeRegOperandCount(operands: seq<OperandKind>): nat {
    if operands == [] then 0 else (if operands[0].OpcodeRegOperand? then 1 else 0) + OpcodeRegOperandCount(operands[1..])
  }

  predicate ValidOpcodeRegUse(spec: InstructionSpec) {
    var count := OpcodeRegOperandCount(spec.operands);
    count == 0 || (VariableOpcodePartCount(spec.opcode) == 1 && count == 1)
  }

  predicate ValidInstructionSpec(spec: InstructionSpec) {
    ValidOpcodePath(spec.opcode) && ValidModRmMatch(spec.modrm) && ValidOpcodeRegUse(spec)
  }

  // ---------- overlap ----------

  predicate Reg3SetsOverlap(left: Option<int>, right: Option<int>) {
    left.None? || right.None? || left == right
  }

  function FieldsOf(modrm: Option<ModRmMatch>): ModRmMatch {
    if modrm.Some? then modrm.value else ModRmMatch(None, None, None)
  }

  predicate ModRmMatchesOverlap(left: ModRmMatch, right: ModRmMatch) {
    && Reg3SetsOverlap(left.mod, right.mod)
    && Reg3SetsOverlap(left.reg, right.reg)
    && Reg3SetsOverlap(left.rm, right.rm)
  }

  predicate ModRmUseOverlaps(left: InstructionSpec, right: InstructionSpec) {
    if !InstructionReadsModRm(left) || !InstructionReadsModRm(right) then true
    else ModRmMatchesOverlap(FieldsOf(left.modrm), FieldsOf(right.modrm))
  }

  predicate PrefixUseOverlaps(left: InstructionSpec, right: InstructionSpec) {
    OperandSizePrefixMode(left) == OperandSizePrefixMode(right)
  }

  ghost predicate ShareOpcode(left: InstructionSpec, right: InstructionSpec)
    requires ValidOpcodePath(left.opcode) && ValidOpcodePath(right.opcode)
  {
    exists opcode: Opcode :: opcode in Expansion(left.opcode) && opcode in Expansion(right.opcode)
  }

  ghost predicate SpecsOverlap(left: InstructionSpec, right: InstructionSpec)
    requires ValidOpcodePath(left.opcode) && ValidOpcodePath(right.opcode)
  {
    ShareOpcode(left, right) && PrefixUseOverlaps(left, right) && ModRmUseOverlaps(left, right)
  }

  method InstructionSpecsOverlap(left: InstructionSpec, right: InstructionSpec) returns (overlap: bool)
    requires ValidOpcodePath(left.opcode) && ValidOpcodePath(right.opcode)
    ensures overlap == SpecsOverlap(left, right)
  {
    hide Expansion, ModRmUseOverlaps, PrefixUseOverlaps;
    var leftOpcodes := ExpandOpcodePath(left.opcode);
    var rightOpcodes := ExpandOpcodePath(right.opcode);
    ghost var both := PrefixUseOverlaps(left, right) && ModRmUseOverlaps(left, right);
    for l := 0 to |leftOpcodes.value|
      invariant both ==> forall j | 0 <= j < l :: leftOpcodes.value[j] !in rightOpcodes.value
    {
      for r := 0 to |rightOpcodes.value|
        invariant both ==> leftOpcodes.value[l] !in rightOpcodes.value[..r]
      {
        if leftOpcodes.value[l] == rightOpcodes.value[r] && PrefixUseOverlaps(left, right) && ModRmUseOverlaps(left, right) {
          assert rightOpcodes.value[r] in Expansion(right.opcode) && leftOpcodes.value[l] in Expansion(left.opcode);
          return true;
        }
      }
      assert rightOpcodes.value[..|rightOpcodes.value|] == rightOpcodes.value;
    }
    return false;
  }

  // ---------- what overlap means ----------

  // The three fields of a ModRM byte.
  function ModOf(byte: Byte): nat { byte / 64 }

  function RegOf(byte: Byte): nat { byte / 8 % 8 }

  function RmOf(byte: Byte): nat { byte % 8 }

  predicate Reg3Matches(expected: Option<int>, actual: int) {
    expected.None? || expected.value == actual
  }

  predicate ModRmMatches(modrm: Option<ModRmMatch>, byte: Byte) {
    && Reg3Matches(FieldsOf(modrm).mod, ModOf(byte))
    && Reg3Matches(FieldsOf(modrm).reg, RegOf(byte))
    && Reg3Matches(FieldsOf(modrm).rm, RmOf(byte))
  }

  /** The encoding, after its prefixes, can be read as this form. */
  predicate Encodes(spec: InstructionSpec, size: OperandSize, bytes: Opcode)
    requires ValidOpcodePath(spec.opcode)
  {
    && PathMatches(spec.opcode, bytes)
    && OperandSizePrefixMode(spec) == size
    && (InstructionReadsModRm(spec) ==>
          |bytes| > |spec.opcode| && ModRmMatches(spec.modrm, bytes[|spec.opcode|]))
  }

  // Validation lets the mod field be up to 7, though a ModRM byte has only four values for it.
  predicate ModCanOccur(spec: InstructionSpec) {
    var mod := FieldsOf(spec.modrm).mod;
    mod.Some? ==> 0 <= mod.value < 4
  }

  function Agreed(left: Option<int>, right: Option<int>): int {
    if left.Some? then left.value else if right.Some? then right.value else 0
  }

  lemma FieldsOfAByte(mod: int, reg: int, rm: int)
    requires 0 <= mod < 4 && 0 <= reg < 8 && 0 <= rm < 8
    ensures 0 <= 64 * mod + 8 * reg + rm < 0x100
    ensures ModOf(64 * mod + 8 * reg + rm) == mod
    ensures RegOf(64 * mod + 8 * reg + rm) == reg
    ensures RmOf(64 * mod + 8 * reg + rm) == rm
  {
  }

  /** Two matches overlap exactly when some ModRM byte satisfies both, as far as their mod fields can occur. */
  lemma OverlapIsACommonByte(left: InstructionSpec, right: InstructionSpec)
    requires ValidModRmMatch(left.modrm) && ValidModRmMatch(right.modrm)
    ensures ModRmMatchesOverlap(FieldsOf(left.modrm), FieldsOf(right.modrm)) && ModCanOccur(left) && ModCanOccur(right) <==>
            exists byte: Byte :: ModRmMatches(left.modrm, byte) && ModRmMatches(right.modrm, byte)
  {
    var l, r := FieldsOf(left.modrm), FieldsOf(right.modrm);
    if ModRmMatchesOverlap(l, r) && ModCanOccur(left) && ModCanOccur(right) {
      var mod, reg, rm := Agreed(l.mod, r.mod), Agreed(l.reg, r.reg), Agreed(l.rm, r.rm);
      FieldsOfAByte(mod, reg, rm);
      assert ModRmMatches(left.modrm, 64 * mod + 8 * reg + rm) && ModRmMatches(right.modrm, 64 * mod + 8 * reg + rm);
    }
  }

  ghost predicate Ambiguous(left: InstructionSpec, right: InstructionSpec)
    requires ValidOpcodePath(left.opcode) && ValidOpcodePath(right.opcode)
  {
    |left.opcode| == |right.opcode| &&
    exists size: OperandSize, bytes: Opcode :: Encodes(left, size, bytes) && Encodes(right, size, bytes)
  }

  /**
   Two forms overlap exactly when some encoding can be read as either with the same opcode length. Forms whose mod
   field cannot occur are the exception: they encode nothing, yet may be reported.
   */
  lemma OverlapMeansAmbiguous(left: InstructionSpec, right: InstructionSpec)
    requires ValidInstructionSpec(left) && ValidInstructionSpec(right)
    ensures SpecsOverlap(left, right) && ModCanOccur(left) && ModCanOccur(right) <==> Ambiguous(left, right)
  {
    if SpecsOverlap(left, right) && ModCanOccur(left) && ModCanOccur(right) {
      OverlapIsAmbiguous(left, right);
    }
    if Ambiguous(left, right) {
      var size: OperandSize, bytes: Opcode :| Encodes(left, size, bytes) && Encodes(right, size, bytes);
      var opcode := bytes[..|left.opcode|];
      ExpansionIsTheMatches(left.opcode, opcode);
      ExpansionIsTheMatches(right.opcode, opcode);
      assert ShareOpcode(left, right);
      OverlapIsACommonByte(left, right);
    }
  }

  lemma OverlapIsAmbiguous(left: InstructionSpec, right: InstructionSpec)
    requires ValidInstructionSpec(left) && ValidInstructionSpec(right)
    requires SpecsOverlap(left, right) && ModCanOccur(left) && ModCanOccur(right)
    ensures Ambiguous(left, right)
  {
    var opcode: Opcode :| opcode in Expansion(left.opcode) && opcode in Expansion(right.opcode);
    ExpansionIsTheMatches(left.opcode, opcode);
    ExpansionIsTheMatches(right.opcode, opcode);
    var byte := CommonByte(left, right);
    var bytes := opcode + [byte];
    assert forall k | 0 <= k < |opcode| :: bytes[k] == opcode[k];
    assert Encodes(left, OperandSizePrefixMode(left), bytes) && Encodes(right, OperandSizePrefixMode(left), bytes);
  }

  /** A ModRM byte for whichever of two overlapping forms reads one. */
  lemma CommonByte(left: InstructionSpec, right: InstructionSpec) returns (byte: Byte)
    requires ValidInstructionSpec(left) && ValidInstructionSpec(right)
    requires ModRmUseOverlaps(left, right) && ModCanOccur(left) && ModCanOccur(right)
    ensures InstructionReadsModRm(left) ==> ModRmMatches(left.modrm, byte)
    ensures InstructionReadsModRm(right) ==> ModRmMatches(right.modrm, byte)
  {
    var reader, other := if InstructionReadsModRm(left) then left else right,
                         if InstructionReadsModRm(right) then right else left;
    assert ModRmMatchesOverlap(FieldsOf(reader.modrm), FieldsOf(other.modrm));
    OverlapIsACommonByte(reader, other);
    byte :| ModRmMatches(reader.modrm, byte) && ModRmMatches(other.modrm, byte);
  }

  lemma OverlapIsSymmetric(left: InstructionSpec, right: InstructionSpec)
    requires ValidOpcodePath(left.opcode) && ValidOpcodePath(right.opcode)
    ensures SpecsOverlap(left, right) == SpecsOverlap(right, left)
  {
    if ShareOpcode(left, right) {
      var opcode: Opcode :| opcode in Expansion(left.opcode) && opcode in Expansion(right.opcode);
    }
    if ShareOpcode(right, left) {
      var opcode: Opcode :| opcode in Expansion(left.opcode) && opcode in Expansion(right.opcode);
    }
  }

  // ---------- validation of a set ----------

  ghost predicate UniqueIds(specs: seq<InstructionSpec>) {
    forall j, k | 0 <= j < k < |specs| :: specs[j].id != specs[k].id
  }

  ghost predicate AllValid(specs: seq<InstructionSpec>) {
    forall k | 0 <= k < |specs| :: ValidInstructionSpec(specs[k])
  }

  ghost predicate Accepted(specs: seq<InstructionSpec>) {
    && UniqueIds(specs)
    && AllValid(specs)
    && forall j, k | 0 <= j < k < |specs| :: !SpecsOverlap(specs[j], specs[k])
  }

  method ValidateUniqueInstructionIds(specs: seq<InstructionSpec>) returns (ok: bool)
    ensures ok == UniqueIds(specs)
  {
    var seen: set<string> := {};
    for k := 0 to |specs|
      invariant seen == set j | 0 <= j < k :: specs[j].id
      invariant UniqueIds(specs[..k])
    {
      if specs[k].id in seen { return false; }
      seen := seen + {specs[k].id};
    }
    assert specs[..|specs|] == specs;
    return true;
  }

  method ValidateInstructionSet(specs: seq<InstructionSpec>) returns (ok: bool)
    ensures ok == Accepted(specs)
  {
    var unique := ValidateUniqueInstructionIds(specs);
    if !unique { return false; }
    for k := 0 to |specs|
      invariant forall j | 0 <= j < k :: ValidInstructionSpec(specs[j])
    {
      if !ValidInstructionSpec(specs[k]) { return false; }
    }
    for left := 0 to |specs|
      invariant forall j, k | 0 <= j < left && j < k < |specs| :: !SpecsOverlap(specs[j], specs[k])
    {
      for right := left + 1 to |specs|
        invariant forall k | left < k < right :: !SpecsOverlap(specs[left], specs[k])
      {
        var overlap := InstructionSpecsOverlap(specs[left], specs[right]);
        if overlap { return false; }
      }
    }
    return true;
  }
}
