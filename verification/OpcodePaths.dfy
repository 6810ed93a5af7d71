/**
 Opcode paths: one part per byte, each fixing a whole byte or only its high bits. A path expands to exactly the byte
 strings that it matches, each of them once.
 */
module OpcodePaths {
  import opened X86Types
  import opened Bits

  type Byte = x: int | 0 <= x < 0x100

  type Opcode = seq<Byte>

  // A part without a bit count fixes the whole byte.
  datatype OpcodePathPart = Whole(byte: int) | HighBits(byte: int, bits: int)

  type OpcodePath = seq<OpcodePathPart>

  function LowMask(bits: int): nat
    requires 1 <= bits <= 8
  {
    Pow2(8 - bits) - 1
  }

  predicate ValidOpcodePathPart(part: OpcodePathPart) {
    && 0 <= part.byte <= 0xff
    && (part.HighBits? ==>
          && 1 <= part.bits <= 8
          && !(part.bits < 8 && LowMask(part.bits) != 0 && And(part.byte, LowMask(part.bits)) != 0))
  }

  predicate ValidOpcodePath(path: OpcodePath) {
    |path| > 0 && ValidParts(path)
  }

  predicate ValidParts(path: OpcodePath) {
    forall k | 0 <= k < |path| :: ValidOpcodePathPart(path[k])
  }

  predicate OpcodePartMatches(part: OpcodePathPart, byte: Byte)
    requires ValidOpcodePathPart(part)
  {
    match part
    case Whole(expected) => byte == expected
    case HighBits(expected, bits) => byte / Pow2(8 - bits) == expected / Pow2(8 - bits)
  }

  predicate PathMatches(path: OpcodePath, bytes: Opcode)
    requires ValidParts(path)
  {
    |path| <= |bytes| && forall k | 0 <= k < |path| :: OpcodePartMatches(path[k], bytes[k])
  }

  method OpcodePathMatches(path: OpcodePath, bytes: Opcode) returns (matches: Option<bool>)
    ensures matches.None? <==> !ValidOpcodePath(path)
    ensures matches.Some? ==> matches.value == PathMatches(path, bytes)
  {
    if !ValidOpcodePath(path) { return None; }
    if |bytes| < |path| { return Some(false); }
    for k := 0 to |path|
      invariant forall j | 0 <= j < k :: OpcodePartMatches(path[j], bytes[j])
    {
      if !OpcodePartMatches(path[k], bytes[k]) { return Some(false); }
    }
    return Some(true);
  }

  // ---------- expansion ----------

  function Variants(part: OpcodePathPart): nat
    requires ValidOpcodePathPart(part)
  {
    if part.Whole? then 1 else Pow2(8 - part.bits)
  }

  lemma {:induction false} OrFillsLowBits(high: nat, low: nat, n: nat)
    requires high % Pow2(n) == 0 && low < Pow2(n)
    ensures Or(high, low) == high + low
  {
    if n == 0 {
      OrZero(high);
    } else {
      var p := Pow2(n - 1);
      HalfMod(high, p);
      OrFillsLowBits(high / 2, low / 2, n - 1);
    }
  }

  lemma {:induction false} OrZero(x: nat)
    ensures Or(x, 0) == x
  {
    if x > 0 { OrZero(x / 2); }
  }

  lemma {:induction false} PowersGrow(low: nat, high: nat)
    requires low <= high
    ensures Pow2(low) <= Pow2(high)
  {
    if low < high { PowersGrow(low, high - 1); }
  }

  lemma {:induction false} PowersMultiply(a: nat, b: nat)
    ensures Pow2(a + b) == Pow2(a) * Pow2(b)
  {
    if a > 0 {
      PowersMultiply(a - 1, b);
      assert Pow2(a + b) == 2 * (Pow2(a - 1) * Pow2(b));
    }
  }

  /** A part that fixes some high bits leaves the low bits of its byte zero. */
  lemma LowBitsAreZero(part: OpcodePathPart)
    requires ValidOpcodePathPart(part) && part.HighBits?
    ensures part.byte % Pow2(8 - part.bits) == 0
  {
    var n := 8 - part.bits;
    if n > 0 {
      AndLowMask(part.byte, n);
    }
  }

  /** A number and an aligned one have the same quotient exactly when they differ by less than the divisor. */
  lemma SameQuotient(x: nat, aligned: nat, p: nat)
    requires p > 0 && aligned % p == 0
    ensures x / p == aligned / p <==> x == aligned + x % p
  {
    var k := aligned / p;
    assert aligned == p * k;
    assert x == p * (x / p) + x % p;
    if x == aligned + x % p { DivisionUnique(x, p, k, x % p); }
  }

  /** Adding less than the divisor to an aligned number does not reach the next aligned one. */
  lemma StaysBelow(aligned: nat, low: nat, p: nat, q: nat)
    requires p > 0 && aligned % p == 0 && low < p && aligned < p * q
    ensures aligned + low < p * q && (aligned + low) / p == aligned / p
  {
    var k := aligned / p;
    assert aligned == p * k;
    DivisionUnique(aligned + low, p, k, low);
    if k >= q { Multiples(p, q, k); }
    Multiples(p, k + 1, q);
    assert p * (k + 1) == p * k + p;
  }

  /** Filling in the low bits of an aligned byte gives a byte. */
  lemma FillStaysInByte(high: int, low: nat, n: nat)
    requires 0 <= high <= 0xff && n <= 8 && high % Pow2(n) == 0 && low < Pow2(n)
    ensures high + low <= 0xff && (high + low) / Pow2(n) == high / Pow2(n)
  {
    PowersMultiply(n, 8 - n);
    assert Pow2(8) == 256 by { assert Pow2(4) == 16; PowersMultiply(4, 4); }
    hide Pow2;
    StaysBelow(high, low, Pow2(n), Pow2(8 - n));
  }

  /** The byte that a part and its low bits make. */
  function Filled(part: OpcodePathPart, low: nat): (byte: Byte)
    requires ValidOpcodePathPart(part) && low < Variants(part)
    ensures byte == part.byte + low && OpcodePartMatches(part, byte)
  {
    match part
    case Whole(byte) => byte
    case HighBits(byte, bits) =>
      LowBitsAreZero(part);
      OrFillsLowBits(byte, low, 8 - bits);
      FillStaysInByte(byte, low, 8 - bits);
      Or(byte, low)
  }

  function PartValues(part: OpcodePathPart): (values: seq<Byte>)
    requires ValidOpcodePathPart(part)
    ensures |values| == Variants(part)
    ensures forall low | 0 <= low < |values| :: values[low] == part.byte + low
  {
    seq(Variants(part), low requires 0 <= low < Variants(part) => Filled(part, low))
  }

  lemma PartValuesAreTheMatches(part: OpcodePathPart, byte: Byte)
    requires ValidOpcodePathPart(part)
    ensures byte in PartValues(part) <==> OpcodePartMatches(part, byte)
  {
    hide Pow2;
    if byte in PartValues(part) {
      var low :| 0 <= low < |PartValues(part)| && PartValues(part)[low] == byte;
      assert byte == Filled(part, low);
    }
    if OpcodePartMatches(part, byte) {
      if part.Whole? {
        assert PartValues(part)[0] == byte;
      } else {
        LowBitsAreZero(part);
        var p := Pow2(8 - part.bits);
        SameQuotient(byte, part.byte, p);
        assert PartValues(part)[byte % p] == byte;
      }
    }
  }

  method ExpandOpcodePart(part: OpcodePathPart) returns (values: seq<Byte>)
    requires ValidOpcodePathPart(part)
    ensures values == PartValues(part)
  {
    if part.Whole? { return [part.byte]; }
    values := [];
    for low := 0 to Pow2(8 - part.bits)
      invariant values == PartValues(part)[..low]
    {
      values := values + [Filled(part, low)];
    }
  }

  function Extended(prefix: Opcode, values: seq<Byte>): (row: seq<Opcode>)
    ensures |row| == |values|
  {
    seq(|values|, k requires 0 <= k < |values| => prefix + [values[k]])
  }

  function Products(prefixes: seq<Opcode>, values: seq<Byte>): seq<Opcode> {
    if prefixes == [] then []
    else Products(prefixes[..|prefixes| - 1], values) + Extended(prefixes[|prefixes| - 1], values)
  }

  function Expansion(path: OpcodePath): seq<Opcode>
    requires ValidParts(path)
  {
    if path == [] then [[]] else Products(Expansion(path[..|path| - 1]), PartValues(path[|path| - 1]))
  }

  lemma {:induction false} InProducts(prefixes: seq<Opcode>, values: seq<Byte>, bytes: Opcode)
    ensures bytes in Products(prefixes, values) <==>
              |bytes| > 0 && bytes[..|bytes| - 1] in prefixes && bytes[|bytes| - 1] in values
    decreases prefixes
  {
    if prefixes != [] {
      var n := |prefixes| - 1;
      InProducts(prefixes[..n], values, bytes);
      var row := Extended(prefixes[n], values);
      if |bytes| > 0 && bytes[..|bytes| - 1] == prefixes[n] && bytes[|bytes| - 1] in values {
        var k :| 0 <= k < |values| && values[k] == bytes[|bytes| - 1];
        assert row[k] == bytes;
      }
      if bytes in row {
        var k :| 0 <= k < |row| && row[k] == bytes;
        assert bytes[..|bytes| - 1] == prefixes[n];
      }
      assert prefixes == prefixes[..n] + [prefixes[n]];
    }
  }

  /** The byte strings a path expands to are those of its length that it matches. */
  lemma {:induction false} ExpansionIsTheMatches(path: OpcodePath, bytes: Opcode)
    requires ValidParts(path)
    ensures bytes in Expansion(path) <==> |bytes| == |path| && PathMatches(path, bytes)
  {
    hide PartValues, OpcodePartMatches, Products, ValidOpcodePathPart;
    if path == [] {
    } else {
      var n := |path| - 1;
      InProducts(Expansion(path[..n]), PartValues(path[n]), bytes);
      if |bytes| > 0 {
        ExpansionIsTheMatches(path[..n], bytes[..|bytes| - 1]);
        PartValuesAreTheMatches(path[n], bytes[|bytes| - 1]);
      }
      if |bytes| == |path| && PathMatches(path, bytes) {
        assert OpcodePartMatches(path[n], bytes[n]);
      }
    }
  }

  ghost predicate NoRepeats<T(!new)>(items: seq<T>) {
    forall j, k | 0 <= j < k < |items| :: items[j] != items[k]
  }

  lemma {:induction false} ProductsDoNotRepeat(prefixes: seq<Opcode>, values: seq<Byte>)
    requires NoRepeats(prefixes) && NoRepeats(values)
    ensures NoRepeats(Products(prefixes, values))
    decreases prefixes
  {
    if prefixes != [] {
      var n := |prefixes| - 1;
      var before, row := Products(prefixes[..n], values), Extended(prefixes[n], values);
      ProductsDoNotRepeat(prefixes[..n], values);
      forall j, k | 0 <= j < k < |row| ensures row[j] != row[k] {
        assert row[j][|prefixes[n]|] == values[j] && row[k][|prefixes[n]|] == values[k];
      }
      forall j, k | 0 <= j < |before| && 0 <= k < |row| ensures before[j] != row[k] {
        InProducts(prefixes[..n], values, before[j]);
        assert row[k][..|row[k]| - 1] == prefixes[n];
      }
    }
  }

  /** No byte string is expanded twice. */
  lemma {:induction false} ExpansionDoesNotRepeat(path: OpcodePath)
    requires ValidParts(path)
    ensures NoRepeats(Expansion(path))
  {
    if path != [] {
      ExpansionDoesNotRepeat(path[..|path| - 1]);
      ProductsDoNotRepeat(Expansion(path[..|path| - 1]), PartValues(path[|path| - 1]));
    }
  }

  method ExtendPrefixes(prefixes: seq<Opcode>, values: seq<Byte>) returns (next: seq<Opcode>)
    ensures next == Products(prefixes, values)
  {
    next := [];
    for p := 0 to |prefixes|
      invariant next == Products(prefixes[..p], values)
    {
      var row: seq<Opcode> := [];
      for v := 0 to |values|
        invariant row == Extended(prefixes[p], values)[..v]
      {
        row := row + [prefixes[p] + [values[v]]];
      }
      assert prefixes[..p + 1][..p] == prefixes[..p];
      next := next + row;
    }
    assert prefixes[..|prefixes|] == prefixes;
  }

  method ExpandOpcodePath(path: OpcodePath) returns (expanded: Option<seq<Opcode>>)
    ensures expanded.None? <==> !ValidOpcodePath(path)
    ensures expanded.Some? ==> expanded.value == Expansion(path)
  {
    if !ValidOpcodePath(path) { return None; }
    hide ValidOpcodePathPart, PartValues, Products;
    var prefixes: seq<Opcode> := [[]];
    for index := 0 to |path|
      invariant prefixes == Expansion(path[..index])
    {
      var values := ExpandOpcodePart(path[index]);
      assert path[..index + 1][..index] == path[..index];
      prefixes := ExtendPrefixes(prefixes, values);
    }
    assert path[..|path|] == path;
    return Some(prefixes);
  }

  // ---------- the low bits of a variable part ----------

  predicate Variable(part: OpcodePathPart) {
    part.HighBits? && part.bits < 8
  }

  function VariableOpcodePartCount(path: OpcodePath): nat {
    if path == [] then 0 else (if Variable(path[0]) then 1 else 0) + VariableOpcodePartCount(path[1..])
  }

  function LowBitsOf(path: OpcodePath, bytes: Opcode): Option<nat>
    requires ValidParts(path) && |path| <= |bytes|
  {
    if path == [] then None
    else if Variable(path[0]) then Some(And(bytes[0], LowMask(path[0].bits)))
    else LowBitsOf(path[1..], bytes[1..])
  }

  function LowBits(path: OpcodePath, bytes: Opcode): Option<nat>
    requires ValidParts(path)
  {
    if PathMatches(path, bytes) then LowBitsOf(path, bytes) else None
  }

  method OpcodeLowBits(path: OpcodePath, bytes: Opcode) returns (lowBits: Option<nat>)
    requires ValidOpcodePath(path)
    ensures lowBits == LowBits(path, bytes)
  {
    var matches := OpcodePathMatches(path, bytes);
    if matches != Some(true) { return None; }
    for index := 0 to |path|
      invariant LowBitsOf(path, bytes) == LowBitsOf(path[index..], bytes[index..])
    {
      if Variable(path[index]) {
        return Some(And(bytes[index], LowMask(path[index].bits)));
      }
    }
    return None;
  }

  /** When one part is variable, its byte is the descriptor's plus the low bits, so the low bits tell the bytes. */
  lemma {:induction false} LowBitsTellTheBytes(path: OpcodePath, left: Opcode, right: Opcode)
    requires ValidParts(path) && VariableOpcodePartCount(path) <= 1
    requires left in Expansion(path) && right in Expansion(path)
    ensures LowBits(path, left) == LowBits(path, right) <==> left == right
  {
    ExpansionIsTheMatches(path, left);
    ExpansionIsTheMatches(path, right);
    LowBitsDecide(path, left, right);
  }

  lemma {:induction false} NothingVariable(path: OpcodePath, k: nat)
    requires VariableOpcodePartCount(path) == 0 && k < |path|
    ensures !Variable(path[k])
  {
    if k > 0 { NothingVariable(path[1..], k - 1); }
  }

  lemma FixedPartFixesTheByte(part: OpcodePathPart, byte: Byte)
    requires ValidOpcodePathPart(part) && !Variable(part) && OpcodePartMatches(part, byte)
    ensures byte == part.byte
  {
    PartValuesAreTheMatches(part, byte);
    assert Variants(part) == 1;
  }

  lemma VariablePartLowBits(part: OpcodePathPart, byte: Byte)
    requires ValidOpcodePathPart(part) && Variable(part) && OpcodePartMatches(part, byte)
    ensures byte == part.byte + And(byte, LowMask(part.bits))
  {
    hide Pow2, And;
    AndLowMask(byte, 8 - part.bits);
    LowBitsAreZero(part);
    SameQuotient(byte, part.byte, Pow2(8 - part.bits));
  }

  lemma {:induction false} LowBitsDecide(path: OpcodePath, left: Opcode, right: Opcode)
    requires ValidParts(path) && VariableOpcodePartCount(path) <= 1
    requires |left| == |right| == |path| && PathMatches(path, left) && PathMatches(path, right)
    ensures LowBitsOf(path, left) == LowBitsOf(path, right) <==> left == right
  {
    if path != [] {
      assert OpcodePartMatches(path[0], left[0]) && OpcodePartMatches(path[0], right[0]);
      assert left == [left[0]] + left[1..] && right == [right[0]] + right[1..];
      if Variable(path[0]) {
        VariablePartLowBits(path[0], left[0]);
        VariablePartLowBits(path[0], right[0]);
        forall k | 1 <= k < |path| ensures left[k] == right[k] {
          NothingVariable(path[1..], k - 1);
          FixedPartFixesTheByte(path[k], left[k]);
          FixedPartFixesTheByte(path[k], right[k]);
        }
      } else {
        FixedPartFixesTheByte(path[0], left[0]);
        FixedPartFixesTheByte(path[0], right[0]);
        LowBitsDecide(path[1..], left[1..], right[1..]);
      }
    }
  }
}
