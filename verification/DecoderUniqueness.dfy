/**
 An accepted instruction set builds a trie, no encoding has two readings, and decoding agrees with a scan over all
 forms exactly because no opcode begins another.
 */
module DecoderUniqueness {
  import opened X86Types
  import opened OpcodePaths
  import opened InstructionSet
  import opened OpcodeDispatch
  import opened Decoder

  /** Forms with the same opcode and operand size are told apart by their ModRM bytes. */
  predicate Apart(left: Expanded, right: Expanded) {
    left.opcode == right.opcode && SizeOf(left) == SizeOf(right) ==>
      && ReadsModRm(left) && ReadsModRm(right)
      && !ModRmMatchesOverlap(FieldsOf(left.spec.modrm), FieldsOf(right.spec.modrm))
  }

  ghost predicate Distinguished(list: seq<Expanded>) {
    forall j, k | 0 <= j < k < |list| :: Apart(list[j], list[k])
  }

  ghost predicate PrefixFree(list: seq<Expanded>) {
    forall k | 0 <= k < |list| :: !Shadowed(list, list[k].opcode)
  }

  /** Every expanded instruction comes from one of the forms. */
  lemma {:induction false} ExpandedFrom(specs: seq<InstructionSpec>, k: nat) returns (s: nat)
    requires AllValid(specs) && k < |ExpandAll(specs)|
    ensures s < |specs| && ExpandAll(specs)[k].spec == specs[s]
    ensures ExpandAll(specs)[k].opcode in Expansion(specs[s].opcode)
  {
    var n := |specs| - 1;
    if k < |ExpandAll(specs[..n])| {
      s := ExpandedFrom(specs[..n], k);
    } else {
      s := n;
    }
  }

  lemma ExpansionsOfOneForm(spec: InstructionSpec)
    requires ValidInstructionSpec(spec)
    ensures Distinguished(ExpandInstructionSpec(spec))
  {
    ExpansionDoesNotRepeat(spec.opcode);
  }

  lemma ExpansionsOfTwoForms(left: InstructionSpec, right: InstructionSpec, l: Expanded, r: Expanded)
    requires ValidInstructionSpec(left) && ValidInstructionSpec(right) && !SpecsOverlap(left, right)
    requires l.spec == left && l.opcode in Expansion(left.opcode)
    requires r.spec == right && r.opcode in Expansion(right.opcode)
    ensures Apart(l, r)
  {
    if l.opcode == r.opcode { assert ShareOpcode(left, right); }
  }

  /** In an accepted set no two expanded instructions can be confused, not even those of one form. */
  lemma {:induction false} AcceptedIsDistinguished(specs: seq<InstructionSpec>)
    requires Accepted(specs)
    ensures Distinguished(ExpandAll(specs))
  {
    hide Expansion, Apart, SpecsOverlap;
    if specs != [] {
      var n := |specs| - 1;
      var before, added := ExpandAll(specs[..n]), ExpandInstructionSpec(specs[n]);
      AcceptedIsDistinguished(specs[..n]);
      ExpansionsOfOneForm(specs[n]);
      forall j, k | 0 <= j < |before| && 0 <= k < |added| ensures Apart(before[j], added[k]) {
        var s := ExpandedFrom(specs[..n], j);
        assert added[k].opcode == Expansion(specs[n].opcode)[k];
        ExpansionsOfTwoForms(specs[s], specs[n], before[j], added[k]);
      }
    }
  }

  /** Building the trie of an accepted set never fails. */
  lemma AcceptedSetBuilds(specs: seq<InstructionSpec>)
    requires Accepted(specs)
    ensures AllWellFormed(ExpandAll(specs)) && Unmixed(ExpandAll(specs)) && Distinguished(ExpandAll(specs))
  {
    var list := ExpandAll(specs);
    AcceptedIsDistinguished(specs);
    forall j, k | 0 <= j < k < |list| ensures Alike(list[j], list[k]) {
      assert Apart(list[j], list[k]);
    }
    forall k | 0 <= k < |list| ensures WellFormed(list[k]) {
      var s := ExpandedFrom(specs, k);
      assert ValidInstructionSpec(specs[s]);
      ExpansionIsTheMatches(specs[s].opcode, list[k].opcode);
    }
  }

  method BuildDecoder(specs: seq<InstructionSpec>) returns (trie: Option<OpcodeTrie>)
    ensures trie.Some? <==> Accepted(specs)
    ensures trie.Some? ==> fresh(trie.value) && trie.value.Valid(ExpandAll(specs))
  {
    var ok := ValidateInstructionSet(specs);
    if !ok { return None; }
    AcceptedSetBuilds(specs);
    var built, root := BuildOpcodeDispatch(ExpandAll(specs));
    return Some(root);
  }

  // ---------- one reading ----------

  /** No encoding can be read in two ways. */
  lemma OnlyOneReading(list: seq<Expanded>, size: OperandSize, bytes: Opcode, j: nat, k: nat)
    requires Distinguished(list) && PrefixFree(list) && j < |list| && k < |list|
    requires Reads(list[j], size, bytes) && Reads(list[k], size, bytes)
    ensures j == k
  {
    var a, b := list[j].opcode, list[k].opcode;
    assert a == bytes[..|a|] && b == bytes[..|b|];
    assert !Shadowed(list, a) && !Shadowed(list, b);
    assert Begins(a, b) || Begins(b, a);
    assert |a| == |b|;
  }

  /**
   Decoding with the trie of a distinguished, prefix-free list selects an instruction exactly when the bytes after the
   prefixes can be read as it. So it agrees with a scan over the list in any order.
   */
  lemma DecodingAgreesWithScan(list: seq<Expanded>, bytes: Opcode, decoded: Decoded, k: nat)
    requires Distinguished(list) && PrefixFree(list) && k < |list|
    requires Decodes(list, bytes, decoded) && PrefixLength(bytes) < |bytes|
    ensures decoded == Selected(list[k], PrefixLength(bytes)) <==>
            Reads(list[k], PrefixedSize(PrefixLength(bytes)), bytes[PrefixLength(bytes)..])
  {
    var length := PrefixLength(bytes);
    var size, rest := PrefixedSize(length), bytes[length..];
    assert !Shadowed(list, list[k].opcode);
    if Reads(list[k], size, rest) {
      assert Readable(list, k, size, rest);
      assert decoded.Selected?;
      var picked: nat :| Picks(list, size, rest, picked) && list[picked] == decoded.instruction;
      OnlyOneReading(list, size, rest, k, picked);
    }
  }

  // ---------- why prefix-freedom ----------

  ghost predicate CanBeSelected(list: seq<Expanded>, k: nat) {
    exists size: OperandSize, bytes: Opcode :: Picks(list, size, bytes, k)
  }

  /** Bytes that can be read as the instruction. */
  function Encoding(instruction: Expanded, byte: Byte): Opcode {
    instruction.opcode + [byte, 0, 0, 0, 0, 0]
  }

  lemma EncodingReads(instruction: Expanded, byte: Byte)
    requires ModRmMatches(instruction.spec.modrm, byte)
    ensures Reads(instruction, SizeOf(instruction), Encoding(instruction, byte))
  {
    var bytes := Encoding(instruction, byte);
    assert bytes[|instruction.opcode|..] == [byte, 0, 0, 0, 0, 0];
    assert bytes[..|instruction.opcode|] == instruction.opcode;
    assert DecodeModRm([byte, 0, 0, 0, 0, 0]).Some?;
  }

  /** Every form can be decoded exactly when no opcode begins another one. */
  lemma PrefixFreeMeansAllReachable(list: seq<Expanded>)
    requires Distinguished(list)
    requires forall k | 0 <= k < |list| :: ValidModRmMatch(list[k].spec.modrm) && ModCanOccur(list[k].spec)
    ensures PrefixFree(list) <==> forall k: nat | k < |list| :: CanBeSelected(list, k)
  {
    if PrefixFree(list) {
      forall k: nat | k < |list| ensures CanBeSelected(list, k) {
        var byte := SomeModRm(list[k].spec);
        var size, bytes := SizeOf(list[k]), Encoding(list[k], byte);
        EncodingReads(list[k], byte);
        assert !Shadowed(list, list[k].opcode);
        forall j: nat | j < k ensures !Readable(list, j, size, bytes) {
          if Readable(list, j, size, bytes) { OnlyOneReading(list, size, bytes, j, k); }
        }
        assert Picks(list, size, bytes, k);
      }
    } else {
      var k :| 0 <= k < |list| && Shadowed(list, list[k].opcode);
      assert !CanBeSelected(list, k);
    }
  }

  lemma SomeModRm(spec: InstructionSpec) returns (byte: Byte)
    requires ValidModRmMatch(spec.modrm) && ModCanOccur(spec)
    ensures ModRmMatches(spec.modrm, byte)
  {
    var fields := FieldsOf(spec.modrm);
    var mod, reg, rm := Agreed(fields.mod, None), Agreed(fields.reg, None), Agreed(fields.rm, None);
    FieldsOfAByte(mod, reg, rm);
    byte := 64 * mod + 8 * reg + rm;
  }
}
