/**
 Decoding the address of a ModRM operand, byte by byte, and the encodings it stands for. The length that the decoder
 skips is the number of bytes that decoding the address reads.
 */
module Addressing {
  import opened X86Types
  import opened OpcodePaths
  import opened InstructionSet
  import opened Decoder
  import Bits
  import Conditions
  import Ir

  type Address = Ir.MemOperand

  datatype Rm = RmReg(index: nat) | RmMem(address: Address)

  datatype DecodedAddressing = DecodedAddressing(reg: nat, rm: Rm, read: nat)

  // The registers in the order of their encoding.
  const REG32: seq<Reg> := [EAX, ECX, EDX, EBX, ESP, EBP, ESI, EDI]

  function Register(field: nat): Reg {
    REG32[field % 8]
  }

  // ---------- decoding ----------

  datatype Sib = Sib(baseField: nat, index: Option<Reg>, scale: nat)

  function DecodeSib(byte: Byte): Sib {
    var field := byte / 8 % 8;
    Sib(byte % 8, if field == 4 then None else Some(Register(field)), [1, 2, 4, 8][byte / 64])
  }

  /** A displacement and the place after it; None when the bytes end inside it. */
  function ReadDisp8(bytes: Opcode, at: nat): Option<(Word, nat)> {
    if |bytes| < at + 1 then None
    else
      var value: int := bytes[at];
      Some((U32(Conditions.Signed(value, W8)), at + 1))
  }

  function ReadDisp32(bytes: Opcode, at: nat): Option<(Word, nat)> {
    if |bytes| < at + 4 then None
    else
      var b0: int, b1: int, b2: int, b3: int := bytes[at], bytes[at + 1], bytes[at + 2], bytes[at + 3];
      Some((b0 + 0x100 * b1 + 0x1_0000 * b2 + 0x100_0000 * b3, at + 4))
  }

  function MakeAddress(base: Option<Reg>, index: Option<Reg>, scale: nat, disp: Word): Address {
    Ir.MemOperand(base, index, if index.None? then 1 else scale, disp)
  }

  /** The address, and the place after the last byte read for it. */
  function DecodeMemAddress(bytes: Opcode): Option<(Address, nat)>
    requires bytes != [] && ModOf(bytes[0]) != 3
  {
    var rm := RmOf(bytes[0]);
    if rm == 4 && |bytes| < 2 then None
    else
      var sib := if rm == 4 then Some(DecodeSib(bytes[1])) else None;
      var at := if rm == 4 then 2 else 1;
      var base := Register(if sib.Some? then sib.value.baseField else rm);
      var index, scale := if sib.Some? then sib.value.index else None, if sib.Some? then sib.value.scale else 1;
      var noBase := if sib.Some? then sib.value.baseField == 5 else rm == 5;
      match ModOf(bytes[0])
      case 0 =>
        if noBase then
          var disp := ReadDisp32(bytes, at);
          if disp.None? then None else Some((MakeAddress(None, index, scale, disp.value.0), disp.value.1))
        else Some((MakeAddress(Some(base), index, scale, 0), at))
      case 1 =>
        var disp := ReadDisp8(bytes, at);
        if disp.None? then None else Some((MakeAddress(Some(base), index, scale, disp.value.0), disp.value.1))
      case _ =>
        var disp := ReadDisp32(bytes, at);
        if disp.None? then None else Some((MakeAddress(Some(base), index, scale, disp.value.0), disp.value.1))
  }

  function DecodeModRmAddressing(bytes: Opcode): Option<DecodedAddressing> {
    if bytes == [] then None
    else if ModOf(bytes[0]) == 3 then Some(DecodedAddressing(RegOf(bytes[0]), RmReg(RmOf(bytes[0])), 1))
    else
      var address := DecodeMemAddress(bytes);
      if address.None? then None
      else Some(DecodedAddressing(RegOf(bytes[0]), RmMem(address.value.0), address.value.1))
  }

  // ---------- the length that is skipped ----------

  /** The length table skips exactly the bytes that decoding the address reads, and fails exactly when it does. */
  lemma LengthIsWhatIsRead(bytes: Opcode)
    ensures DecodeModRm(bytes).Some? <==> DecodeModRmAddressing(bytes).Some?
    ensures DecodeModRm(bytes).Some? ==>
              DecodeModRm(bytes).value == DecodedModRm(bytes[0], DecodeModRmAddressing(bytes).value.read)
  {
  }

  /** The number of displacement bytes that the ModRM and SIB bytes announce. */
  function DisplacementBytes(mod: nat, rm: nat, sibBase: nat): nat {
    if mod == 1 then 1
    else if mod == 2 || (mod == 0 && (rm == 5 || (rm == 4 && sibBase == 5))) then 4
    else 0
  }

  /** A ModRM part is there when its SIB byte and displacement are, and its length is all of them. */
  lemma ModRmPartIsItsBytes(bytes: Opcode)
    requires bytes != []
    ensures
      var mod, rm: nat := bytes[0] / 64, bytes[0] % 8;
      var hasSib := mod != 3 && rm == 4;
      var sibBase: nat := if hasSib && |bytes| > 1 then bytes[1] % 8 else 0;
      var length := 1 + (if hasSib then 1 else 0) + DisplacementBytes(mod, rm, sibBase);
      && (DecodeModRm(bytes).Some? <==> |bytes| >= length)
      && (DecodeModRm(bytes).Some? ==> DecodeModRm(bytes).value == DecodedModRm(bytes[0], length))
  {
  }

  // ---------- the encodings of an address ----------

  datatype Displacement = NoDisp | Disp8 | Disp32

  // `scaleBits`: the upper two bits of the SIB byte, if there is one.
  datatype Form = Form(disp: Displacement, scaleBits: Option<nat>)

  function CodeOf(reg: Reg): (code: nat)
    ensures code < 8 && REG32[code] == reg
  {
    match reg
    case EAX => 0 case ECX => 1 case EDX => 2 case EBX => 3 case ESP => 4 case EBP => 5 case ESI => 6 case EDI => 7
  }

  predicate FitsDisp8(disp: Word) {
    disp < 0x80 || disp >= 0x1_0000_0000 - 0x80
  }

  /** The forms in which the architecture can write an address. */
  predicate HasForm(address: Address, form: Form) {
    && (match form.scaleBits
        case None => address.index.None? && address.base != Some(ESP) && address.scale == 1
        case Some(bits) =>
          && bits < 4 && address.index != Some(ESP)
          && address.scale == if address.index.None? then 1 else [1, 2, 4, 8][bits])
    && (match form.disp
        case NoDisp => address.disp == 0 && address.base.Some? && address.base != Some(EBP)
        case Disp8 => FitsDisp8(address.disp) && address.base.Some?
        case Disp32 => true)
  }

  function EncodeDisp(disp: Word, form: Displacement): Opcode {
    match form
    case NoDisp => []
    case Disp8 => [disp % 0x100]
    case Disp32 => [disp % 0x100, disp / 0x100 % 0x100, disp / 0x1_0000 % 0x100, disp / 0x100_0000]
  }

  /** Without a base the mod field is zero and the base field five. */
  function Encode(reg: nat, address: Address, form: Form): Opcode
    requires reg < 8 && HasForm(address, form)
  {
    var mod := if form.disp.NoDisp? || address.base.None? then 0 else if form.disp.Disp8? then 1 else 2;
    var base := if address.base.Some? then CodeOf(address.base.value) else 5;
    var disp := EncodeDisp(address.disp, form.disp);
    if form.scaleBits.None? then [64 * mod + 8 * reg + base] + disp
    else
      var index := if address.index.Some? then CodeOf(address.index.value) else 4;
      [64 * mod + 8 * reg + 4, 64 * form.scaleBits.value + 8 * index + base] + disp
  }

  lemma Disp32Read(disp: Word, before: Opcode, rest: Opcode)
    ensures ReadDisp32(before + EncodeDisp(disp, Disp32) + rest, |before|) == Some((disp, |before| + 4))
  {
    var bytes, code := before + EncodeDisp(disp, Disp32) + rest, EncodeDisp(disp, Disp32);
    var n := |before|;
    assert bytes[n] == code[0] && bytes[n + 1] == code[1] && bytes[n + 2] == code[2] && bytes[n + 3] == code[3];
    Bits.Digits(disp);
    assert disp / 0x100_0000 % 0x100 == disp / 0x100_0000;
  }

  lemma Disp8Read(disp: Word, before: Opcode, rest: Opcode)
    requires FitsDisp8(disp)
    ensures ReadDisp8(before + EncodeDisp(disp, Disp8) + rest, |before|) == Some((disp, |before| + 1))
  {
    var bytes := before + EncodeDisp(disp, Disp8) + rest;
    assert bytes[|before|] == disp % 0x100;
  }

  /** The bytes of an encoding before its displacement. */
  function Head(reg: nat, address: Address, form: Form): Opcode
    requires reg < 8 && HasForm(address, form)
  {
    var code := Encode(reg, address, form);
    code[..if form.scaleBits.None? then 1 else 2]
  }

  lemma HeadDecodes(reg: nat, address: Address, form: Form)
    requires reg < 8 && HasForm(address, form)
    ensures
      var head := Head(reg, address, form);
      && Encode(reg, address, form) == head + EncodeDisp(address.disp, form.disp)
      && ModOf(head[0]) == (if form.disp.NoDisp? || address.base.None? then 0 else if form.disp.Disp8? then 1 else 2)
      && RegOf(head[0]) == reg
      && if form.scaleBits.None? then
           |head| == 1 && RmOf(head[0]) == (if address.base.Some? then CodeOf(address.base.value) else 5) &&
           RmOf(head[0]) != 4
         else
           |head| == 2 && RmOf(head[0]) == 4 &&
           DecodeSib(head[1]) == Sib(if address.base.Some? then CodeOf(address.base.value) else 5, address.index,
                                     [1, 2, 4, 8][form.scaleBits.value])
  {
    hide EncodeDisp, ModOf, RegOf, RmOf, DecodeSib, CodeOf;
    var mod := if form.disp.NoDisp? || address.base.None? then 0 else if form.disp.Disp8? then 1 else 2;
    var base := if address.base.Some? then CodeOf(address.base.value) else 5;
    if form.scaleBits.None? {
      FieldsOfAByte(mod, reg, base);
      OnlyEspIsFour();
    } else {
      FieldsOfAByte(mod, reg, 4);
      SibDecodes(form.scaleBits.value, address.index, base);
    }
  }

  lemma OnlyEspIsFour()
    ensures forall register: Reg :: CodeOf(register) == 4 ==> register == ESP
  {
  }

  lemma SibDecodes(scaleBits: nat, index: Option<Reg>, base: nat)
    requires scaleBits < 4 && index != Some(ESP) && base < 8
    ensures
      var code := if index.Some? then CodeOf(index.value) else 4;
      var byte := 64 * scaleBits + 8 * code + base;
      0 <= byte < 0x100 && DecodeSib(byte) == Sib(base, index, [1, 2, 4, 8][scaleBits])
  {
    var code := if index.Some? then CodeOf(index.value) else 4;
    FieldsOfAByte(scaleBits, code, base);
    OnlyEspIsFour();
  }

  /** Every encoding of every address is decoded to that address, and exactly its bytes are read. */
  lemma AddressRoundTrip(reg: nat, address: Address, form: Form, rest: Opcode)
    requires reg < 8 && HasForm(address, form)
    ensures DecodeModRmAddressing(Encode(reg, address, form) + rest) ==
            Some(DecodedAddressing(reg, RmMem(address), |Encode(reg, address, form)|))
  {
    var head, disp := Head(reg, address, form), EncodeDisp(address.disp, form.disp);
    HeadDecodes(reg, address, form);
    var bytes := head + disp + rest;
    assert bytes[0] == head[0] && (|head| > 1 ==> bytes[1] == head[1]);
    match form.disp {
      case NoDisp =>
      case Disp8 => Disp8Read(address.disp, head, rest);
      case Disp32 => Disp32Read(address.disp, head, rest);
    }
    hide Encode, Head, DecodeSib, EncodeDisp, ReadDisp8, ReadDisp32;
  }

  /** How the bytes of a memory operand write its address. */
  function FormOf(bytes: Opcode): Form
    requires bytes != []
  {
    var sib := RmOf(bytes[0]) == 4 && |bytes| > 1;
    var noBase := if sib then bytes[1] % 8 == 5 else RmOf(bytes[0]) == 5;
    Form(match ModOf(bytes[0]) case 0 => if noBase then Disp32 else NoDisp case 1 => Disp8 case _ => Disp32,
         if sib then Some(bytes[1] / 64) else None)
  }

  lemma DispWritten(bytes: Opcode, at: nat)
    ensures ReadDisp8(bytes, at).Some? ==>
              && FitsDisp8(ReadDisp8(bytes, at).value.0) && ReadDisp8(bytes, at).value.1 == at + 1 <= |bytes|
              && bytes[at..at + 1] == EncodeDisp(ReadDisp8(bytes, at).value.0, Disp8)
    ensures ReadDisp32(bytes, at).Some? ==>
              && ReadDisp32(bytes, at).value.1 == at + 4 <= |bytes|
              && bytes[at..at + 4] == EncodeDisp(ReadDisp32(bytes, at).value.0, Disp32)
  {
    if |bytes| >= at + 4 {
      var b0: int, b1: int, b2: int, b3: int := bytes[at], bytes[at + 1], bytes[at + 2], bytes[at + 3];
      Bits.BytesJoin(b0, b1, b2, b3);
    }
  }

  lemma BytesAreFields(byte: Byte)
    ensures byte == 64 * (byte / 64) + 8 * (byte / 8 % 8) + byte % 8 && byte / 64 < 4
    ensures CodeOf(Register(byte % 8)) == byte % 8 && CodeOf(Register(byte / 8 % 8)) == byte / 8 % 8
  {
  }

  lemma CodesTell(field: nat)
    requires field < 8
    ensures CodeOf(Register(field)) == field
    ensures (Register(field) == ESP <==> field == 4) && (Register(field) == EBP <==> field == 5)
  {
  }

  lemma DecodedForm(bytes: Opcode)
    requires DecodeModRmAddressing(bytes).Some? && DecodeModRmAddressing(bytes).value.rm.RmMem?
    ensures
      var decoded, form := DecodeModRmAddressing(bytes).value, FormOf(bytes);
      && decoded.read <= |bytes| && decoded.reg < 8 && HasForm(decoded.rm.address, form)
      && bytes[(if form.scaleBits.None? then 1 else 2)..decoded.read] == EncodeDisp(decoded.rm.address.disp, form.disp)
  {
    hide Register, EncodeDisp, ReadDisp8, ReadDisp32, FitsDisp8;
    var at := if RmOf(bytes[0]) == 4 then 2 else 1;
    DispWritten(bytes, at);
    CodesTell(RmOf(bytes[0]));
    NothingWritten(bytes, at);
    if RmOf(bytes[0]) == 4 {
      CodesTell(bytes[1] % 8);
      CodesTell(bytes[1] / 8 % 8);
    }
  }

  lemma NothingWritten(bytes: Opcode, at: nat)
    requires at <= |bytes|
    ensures bytes[at..at] == EncodeDisp(0, NoDisp)
  {
  }

  /** Which fields of the bytes the decoded operand shows. */
  lemma DecodedFields(bytes: Opcode)
    requires DecodeModRmAddressing(bytes).Some? && DecodeModRmAddressing(bytes).value.rm.RmMem?
    ensures bytes != [] && bytes[0] / 64 < 3 && (bytes[0] % 8 == 4 ==> |bytes| > 1)
    ensures
      var decoded, address := DecodeModRmAddressing(bytes).value, DecodeModRmAddressing(bytes).value.rm.address;
      var sib := bytes[0] % 8 == 4;
      var field: nat := if sib then bytes[1] % 8 else bytes[0] % 8;
      && decoded.reg == bytes[0] / 8 % 8
      && address.base == (if bytes[0] / 64 == 0 && field == 5 then None else Some(Register(field)))
      && address.index == if sib && bytes[1] / 8 % 8 != 4 then Some(Register(bytes[1] / 8 % 8)) else None
  {
    hide ReadDisp8, ReadDisp32;
  }

  lemma DecodedHead(bytes: Opcode)
    requires DecodeModRmAddressing(bytes).Some? && DecodeModRmAddressing(bytes).value.rm.RmMem?
    requires bytes != [] && HasForm(DecodeModRmAddressing(bytes).value.rm.address, FormOf(bytes))
    ensures
      var decoded, form := DecodeModRmAddressing(bytes).value, FormOf(bytes);
      decoded.reg < 8 && Head(decoded.reg, decoded.rm.address, form) == bytes[..if form.scaleBits.None? then 1 else 2]
  {
    DecodedFields(bytes);
    BytesAreFields(bytes[0]);
    var decoded, address, form := DecodeModRmAddressing(bytes).value, DecodeModRmAddressing(bytes).value.rm.address, FormOf(bytes);
    hide DecodeModRmAddressing, Register, EncodeDisp, FitsDisp8, CodeOf;
    CodesTell(bytes[0] % 8);
    var mod := if form.disp.NoDisp? || address.base.None? then 0 else if form.disp.Disp8? then 1 else 2;
    assert mod == bytes[0] / 64;
    if bytes[0] % 8 == 4 {
      BytesAreFields(bytes[1]);
      CodesTell(bytes[1] % 8);
      CodesTell(bytes[1] / 8 % 8);
    }
  }

  /** Whatever is decoded as a memory operand is an encoding of its address. */
  lemma DecodedIsAnEncoding(bytes: Opcode)
    requires DecodeModRmAddressing(bytes).Some? && DecodeModRmAddressing(bytes).value.rm.RmMem?
    ensures
      var decoded, form := DecodeModRmAddressing(bytes).value, FormOf(bytes);
      && decoded.read <= |bytes| && decoded.reg < 8 && HasForm(decoded.rm.address, form)
      && bytes[..decoded.read] == Encode(decoded.reg, decoded.rm.address, form)
  {
    hide DecodeModRmAddressing, Encode, EncodeDisp, Head, DecodeSib, CodeOf, HasForm;
    ReadsPastHead(bytes);
    DecodedForm(bytes);
    DecodedHead(bytes);
    var decoded, form := DecodeModRmAddressing(bytes).value, FormOf(bytes);
    HeadDecodes(decoded.reg, decoded.rm.address, form);
    var n := if form.scaleBits.None? then 1 else 2;
    assert bytes[..decoded.read] == bytes[..n] + bytes[n..decoded.read];
  }

  lemma ReadsPastHead(bytes: Opcode)
    requires DecodeModRmAddressing(bytes).Some? && DecodeModRmAddressing(bytes).value.rm.RmMem?
    ensures bytes != [] && DecodeModRmAddressing(bytes).value.read >= if FormOf(bytes).scaleBits.None? then 1 else 2
  {
  }
}
