/**
 * The MMIO instruction decoder against the x86-64 MOV encodings it supports
 * (Intel SDM Vol. 2A, sections 2.1 and 2.2.1).
 *
 * `Insn` is an instruction by its parts, `Encode` lays the parts out, and `Meaning` is what the
 * run loop needs to know about it.  `Decode` is the decoder; it is a left inverse of `Encode`
 * whatever bytes follow, and it accepts nothing else.
 */
module MmioDecode {
  import opened Bytes

  datatype DecodedMmio = DecodedMmio(register: nat, size: nat, immediate: Option<nat>, instructionLen: nat)

  predicate IsRex(b: byte) { 0x40 <= b <= 0x4F }

  predicate IsPrefix(b: byte) { b == 0x66 || IsRex(b) }

  predicate IsMovReg(opcode: byte) { 0x88 <= opcode <= 0x8B }

  predicate IsMovImm(opcode: byte) { opcode == 0xC7 }

  function ModBits(modrm: byte): nat { modrm / 64 }

  function RegBits(modrm: byte): nat { modrm / 8 % 8 }

  function RmBits(modrm: byte): nat { modrm % 8 }

  /** The REX byte in force: the last one among the prefixes, 0 if there is none. */
  function LastRex(prefixes: seq<byte>): byte {
    if prefixes == [] then 0
    else if IsRex(prefixes[|prefixes| - 1]) then prefixes[|prefixes| - 1]
    else LastRex(prefixes[..|prefixes| - 1])
  }

  predicate RexW(rex: byte) { rex / 8 % 2 == 1 }

  function RexR(rex: byte): nat { rex / 4 % 2 }

  /** Operand size: byte opcodes first, then REX.W, then the 0x66 prefix. */
  function OperandSize(isByte: bool, rexW: bool, has66: bool): (size: nat)
    ensures size in {1, 2, 4, 8}
  {
    if isByte then 1 else if rexW then 8 else if has66 then 2 else 4
  }

  predicate NeedsSib(modrm: byte) { RmBits(modrm) == 4 && ModBits(modrm) != 3 }

  function DisplacementSize(modrm: byte, hasSib: bool, sib: byte): (size: nat)
    ensures size <= 4
  {
    match ModBits(modrm)
    case 0 => if RmBits(modrm) == 5 then 4 else if hasSib && sib % 8 == 5 then 4 else 0
    case 1 => 1
    case 2 => 4
    case _ => 0
  }

  function ImmediateSize(prefixes: seq<byte>): nat {
    if 0x66 in prefixes && !RexW(LastRex(prefixes)) then 2 else 4
  }

  /** A MOV between a register or immediate and memory, by its encoded parts. */
  datatype Insn = Insn(prefixes: seq<byte>, opcode: byte, modrm: byte, sib: seq<byte>, disp: seq<byte>, imm: seq<byte>) {

    predicate WellFormed() {
      && (forall i :: 0 <= i < |prefixes| ==> IsPrefix(prefixes[i]))
      && (IsMovReg(opcode) || (IsMovImm(opcode) && RegBits(modrm) == 0))
      && |sib| == (if NeedsSib(modrm) then 1 else 0)
      && |disp| == DisplacementSize(modrm, NeedsSib(modrm), if NeedsSib(modrm) then sib[0] else 0)
      && |imm| == (if IsMovImm(opcode) then ImmediateSize(prefixes) else 0)
    }

    function Encode(): seq<byte> {
      prefixes + [opcode, modrm] + sib + disp + imm
    }

    /** What the run loop must know: operand register and size, immediate, and length. */
    function Meaning(): DecodedMmio {
      var rex := LastRex(prefixes);
      DecodedMmio(
        if IsMovImm(opcode) then 0 else RegBits(modrm) + 8 * RexR(rex),
        OperandSize(opcode == 0x88 || opcode == 0x8A, RexW(rex), 0x66 in prefixes),
        if IsMovImm(opcode) then Some(FromLe(imm)) else None,
        |Encode()| % U8_RANGE)
    }
  }

  /** `insn` stands at the front of `bytes`. */
  predicate StartsWith(bytes: seq<byte>, insn: Insn) {
    insn.WellFormed() && insn.Encode() <= bytes
  }

  function PrefixLen(bytes: seq<byte>): (p: nat)
    ensures p <= |bytes|
    ensures forall i :: 0 <= i < p ==> IsPrefix(bytes[i])
    ensures p < |bytes| ==> !IsPrefix(bytes[p])
  {
    if bytes == [] || !IsPrefix(bytes[0]) then 0 else 1 + PrefixLen(bytes[1..])
  }

  lemma PrefixLenUnique(bytes: seq<byte>, p: nat)
    requires p < |bytes| && !IsPrefix(bytes[p])
    requires forall i :: 0 <= i < p ==> IsPrefix(bytes[i])
    ensures PrefixLen(bytes) == p
  {
    assert PrefixLen(bytes) < |bytes| ==> !IsPrefix(bytes[PrefixLen(bytes)]);
  }

  /** The byte at `i`, or 0 past the end. */
  function At(bytes: seq<byte>, i: nat): byte {
    if i < |bytes| then bytes[i] else 0
  }

  function SibLen(bytes: seq<byte>, p: nat): nat {
    if NeedsSib(At(bytes, p + 1)) then 1 else 0
  }

  function DispLen(bytes: seq<byte>, p: nat): nat {
    DisplacementSize(At(bytes, p + 1), NeedsSib(At(bytes, p + 1)),
                     if NeedsSib(At(bytes, p + 1)) then At(bytes, p + 2) else 0)
  }

  function ImmLen(bytes: seq<byte>, p: nat): nat
    requires p <= |bytes|
  {
    if IsMovImm(At(bytes, p)) then ImmediateSize(bytes[..p]) else 0
  }

  /** Where the instruction that starts with `p` prefixes ends. */
  function EndOf(bytes: seq<byte>, p: nat): nat
    requires p <= |bytes|
  {
    p + 2 + SibLen(bytes, p) + DispLen(bytes, p) + ImmLen(bytes, p)
  }

  /** A supported instruction stands complete at the front of `bytes`. */
  predicate Fits(bytes: seq<byte>) {
    var p := PrefixLen(bytes);
    && (IsMovReg(At(bytes, p)) || (IsMovImm(At(bytes, p)) && RegBits(At(bytes, p + 1)) == 0))
    && EndOf(bytes, p) <= |bytes|
  }

  function InsnAt(bytes: seq<byte>): Insn
    requires Fits(bytes)
  {
    var p := PrefixLen(bytes);
    var d := p + 2 + SibLen(bytes, p);
    var m := d + DispLen(bytes, p);
    Insn(bytes[..p], bytes[p], bytes[p + 1], bytes[p + 2..d], bytes[d..m], bytes[m..EndOf(bytes, p)])
  }

  function Decode(bytes: seq<byte>): Option<DecodedMmio> {
    if Fits(bytes) then Some(InsnAt(bytes).Meaning()) else None
  }

  /** Adjacent slices join up. */
  lemma SlicesJoin(bytes: seq<byte>, p: nat, d: nat, m: nat, e: nat)
    requires p + 2 <= d <= m <= e <= |bytes|
    ensures bytes[..p] + [bytes[p], bytes[p + 1]] + bytes[p + 2..d] + bytes[d..m] + bytes[m..e] == bytes[..e]
  {
    assert bytes[..p] + [bytes[p], bytes[p + 1]] == bytes[..p + 2];
    assert bytes[..p + 2] + bytes[p + 2..d] == bytes[..d];
    assert bytes[..d] + bytes[d..m] == bytes[..m];
  }

  /** What is parsed is really there. */
  lemma ParsedIsThere(bytes: seq<byte>)
    requires Fits(bytes)
    ensures StartsWith(bytes, InsnAt(bytes)) && |InsnAt(bytes).Encode()| == EndOf(bytes, PrefixLen(bytes))
  {
    hide RegBits, ImmediateSize, DisplacementSize, NeedsSib, ModBits, RmBits, IsPrefix, PrefixLen;
    var p := PrefixLen(bytes);
    var d := p + 2 + SibLen(bytes, p);
    SlicesJoin(bytes, p, d, d + DispLen(bytes, p), EndOf(bytes, p));
  }

  /** The parts of a prefix of `bytes` are slices of `bytes`. */
  lemma PartsInPlace(bytes: seq<byte>, a: seq<byte>, b: seq<byte>, c: seq<byte>, d: seq<byte>, e: seq<byte>)
    requires a + b + c + d + e <= bytes
    ensures var i := |a| + |b|; var j := i + |c|; var k := j + |d|;
            && k + |e| <= |bytes|
            && bytes[..|a|] == a && bytes[|a|..i] == b
            && bytes[i..j] == c && bytes[j..k] == d && bytes[k..k + |e|] == e
  {
    var all := a + b + c + d + e;
    assert bytes[..|all|] == all;
    var i := |a| + |b|;
    var j := i + |c|;
    var k := j + |d|;
    assert all[..|a|] == a && all[|a|..i] == b && all[i..j] == c && all[j..k] == d && all[k..] == e;
  }

  /** The decoder measures the parts of an instruction at the front as they are. */
  lemma PartLengths(bytes: seq<byte>, insn: Insn)
    requires StartsWith(bytes, insn)
    ensures var p := |insn.prefixes|;
            && PrefixLen(bytes) == p && bytes[..p] == insn.prefixes
            && p + 2 <= |bytes| && bytes[p] == insn.opcode && bytes[p + 1] == insn.modrm
            && SibLen(bytes, p) == |insn.sib| && DispLen(bytes, p) == |insn.disp| && ImmLen(bytes, p) == |insn.imm|
  {
    hide RegBits, ImmediateSize, ModBits, RmBits, PrefixLen;
    var p := |insn.prefixes|;
    PartsInPlace(bytes, insn.prefixes, [insn.opcode, insn.modrm], insn.sib, insn.disp, insn.imm);
    assert bytes[p] == bytes[p..p + 2][0] && bytes[p + 1] == bytes[p..p + 2][1];
    assert forall i :: 0 <= i < p ==> bytes[i] == bytes[..p][i];
    PrefixLenUnique(bytes, p);
    if NeedsSib(insn.modrm) {
      assert bytes[p + 2] == bytes[p + 2..p + 3][0];
    }
  }

  /** What is there is parsed: an instruction at the front is the one found. */
  lemma ThereIsParsed(bytes: seq<byte>, insn: Insn)
    requires StartsWith(bytes, insn)
    ensures Fits(bytes) && InsnAt(bytes) == insn
  {
    hide DisplacementSize, RegBits, ImmediateSize, NeedsSib, IsMovReg, IsMovImm, SibLen, DispLen, ImmLen;
    PartLengths(bytes, insn);
    PartsInPlace(bytes, insn.prefixes, [insn.opcode, insn.modrm], insn.sib, insn.disp, insn.imm);
  }

  /** The decoder accepts exactly the byte strings that start with a supported instruction. */
  lemma DecodesIffStartsWithInsn(bytes: seq<byte>)
    ensures Decode(bytes).Some? <==> exists insn :: StartsWith(bytes, insn)
  {
    if Fits(bytes) {
      ParsedIsThere(bytes);
    }
    if insn :| StartsWith(bytes, insn) {
      ThereIsParsed(bytes, insn);
    }
  }

  /** Round trip: an encoding decodes to its meaning, whatever bytes follow it. */
  lemma RoundTrip(insn: Insn, tail: seq<byte>)
    requires insn.WellFormed()
    ensures Decode(insn.Encode() + tail) == Some(insn.Meaning())
    ensures |insn.Encode()| <= 16 ==> insn.Meaning().instructionLen == |insn.Encode()|
  {
    ThereIsParsed(insn.Encode() + tail, insn);
  }

  /** Every strict truncation of an encoding is undecodable. */
  lemma TruncationUndecodable(insn: Insn, k: nat)
    requires insn.WellFormed() && k < |insn.Encode()|
    ensures Decode(insn.Encode()[..k]).None?
  {
    var code := insn.Encode();
    if Fits(code[..k]) {
      ParsedIsThere(code[..k]);
      var other := InsnAt(code[..k]);
      assert StartsWith(code, other);
      ThereIsParsed(code, other);
      ThereIsParsed(code, insn);
    }
  }

  /** The encodings are prefix-free. */
  lemma PrefixFree(a: Insn, b: Insn)
    requires a.WellFormed() && b.WellFormed() && a.Encode() <= b.Encode()
    ensures a == b
  {
    ThereIsParsed(b.Encode(), a);
    ThereIsParsed(b.Encode(), b);
  }

  /** The prefix loop of the decoder; `None` when the bytes run out. */
  method ParsePrefixes(bytes: seq<byte>) returns (r: Option<(bool, byte, nat)>)
    ensures r.Some? <==> PrefixLen(bytes) < |bytes|
    ensures r.Some? ==>
              && r.value.2 == PrefixLen(bytes)
              && r.value.0 == (0x66 in bytes[..r.value.2])
              && r.value.1 == LastRex(bytes[..r.value.2])
  {
    var has66, rex, pos := false, 0, 0;
    while pos < |bytes| && IsPrefix(bytes[pos])
      invariant pos <= |bytes|
      invariant forall i :: 0 <= i < pos ==> IsPrefix(bytes[i])
      invariant has66 == (0x66 in bytes[..pos])
      invariant rex == LastRex(bytes[..pos])
    {
      assert bytes[..pos + 1][..pos] == bytes[..pos];
      if bytes[pos] == 0x66 {
        has66 := true;
      } else {
        rex := bytes[pos];
      }
      pos := pos + 1;
    }
    if pos == |bytes| {
      return None;
    }
    PrefixLenUnique(bytes, pos);
    return Some((has66, rex, pos));
  }

  /** Advances past the SIB byte and the displacement; `None` when the bytes run out. */
  method ParseSibAndDisp(bytes: seq<byte>, modrm: byte, start: nat) returns (r: Option<nat>)
    requires 2 <= start <= |bytes| && modrm == bytes[start - 1]
    ensures var need := SibLen(bytes, start - 2) + DispLen(bytes, start - 2);
            r == if start + need <= |bytes| then Some(start + need) else None
  {
    var pos, sib := start, 0;
    if NeedsSib(modrm) {
      if pos >= |bytes| {
        return None;
      }
      sib := bytes[pos];
      pos := pos + 1;
    }
    var dispSize := DisplacementSize(modrm, NeedsSib(modrm), sib);
    if pos + dispSize > |bytes| {
      return None;
    }
    return Some(pos + dispSize);
  }

  /** `decode_mmio_instruction`. */
  method DecodeMmioInstruction(bytes: seq<byte>) returns (r: Option<DecodedMmio>)
    ensures r == Decode(bytes)
  {
    hide FromLe, LastRex, DisplacementSize, NeedsSib, RegBits, RexR, RexW, OperandSize;
    if bytes == [] {
      return None;
    }
    var prefixes := ParsePrefixes(bytes);
    if prefixes.None? {
      return None;
    }
    var (has66, rex, p) := prefixes.value;
    var opcode := bytes[p];
    if p + 1 >= |bytes| {
      return None;
    }
    var modrm := bytes[p + 1];
    var regField := RegBits(modrm) + 8 * RexR(rex);
    var afterDisp := ParseSibAndDisp(bytes, modrm, p + 2);
    if afterDisp.None? {
      return None;
    }
    var pos := afterDisp.value;
    if IsMovReg(opcode) {
      ParsedIsThere(bytes);
      return Some(DecodedMmio(regField, OperandSize(opcode % 2 == 0, RexW(rex), has66), None, pos % U8_RANGE));
    } else if IsMovImm(opcode) {
      if RegBits(modrm) != 0 {
        return None;
      }
      var immSize := if has66 && !RexW(rex) then 2 else 4;
      if pos + immSize > |bytes| {
        return None;
      }
      ParsedIsThere(bytes);
      var imm := FromLe(bytes[pos..pos + immSize]);
      return Some(DecodedMmio(0, OperandSize(false, RexW(rex), has66), Some(imm), (pos + immSize) % U8_RANGE));
    }
    return None;
  }
}
