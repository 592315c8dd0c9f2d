/**
 * The MOV instructions that the decoder supports, by addressing form: literal opcodes, mod bits and
 * displacement lengths as in Intel SDM Vol. 2A, tables 2-2 and 2-3, with nothing taken from the
 * decoder.  The decoder accepts exactly the byte strings that start with one of them.
 */
module MmioForms {
  import opened Bytes
  import opened MmioDecode

  /**
   * A prefix list: 0x66 bytes only, or up to a last REX byte (bits W, R and the pair X, B) and
   * then 0x66 bytes.
   */
  datatype Prefix =
    | NoRex(overrides: nat)
    | WithRex(before: seq<byte>, w: bool, r: bool, xb: nat, after: nat)
  {
    predicate Valid() {
      WithRex? ==> xb < 4 && forall i :: 0 <= i < |before| ==> before[i] == 0x66 || 0x40 <= before[i] <= 0x4F
    }

    function Bytes(): seq<byte>
      requires Valid()
    {
      match this
      case NoRex(n) => seq(n, _ => 0x66)
      case WithRex(b, w, r, xb, n) => b + [0x40 + (if w then 8 else 0) + (if r then 4 else 0) + xb] + seq(n, _ => 0x66)
    }

    predicate Wide() { WithRex? && w }

    predicate HighRegister() { WithRex? && r }

    predicate Overrides() {
      match this
      case NoRex(n) => n > 0
      case WithRex(b, _, _, _, n) => n > 0 || 0x66 in b
    }
  }

  /** The operand in memory; a register operand has the same encoding with mod bits 0xC0. */
  datatype Mem =
    | Indirect(base: nat)
    | Disp8(base: nat, d: byte)
    | Disp32(base: nat, disp: seq<byte>)
    | RipRelative(disp: seq<byte>)
    | Scaled(sib: byte)
    | ScaledNoBase(sib: byte, disp: seq<byte>)
    | ScaledDisp8(sib: byte, d: byte)
    | ScaledDisp32(sib: byte, disp: seq<byte>)
    | Register(rm: nat)
  {
    predicate Valid() {
      match this
      case Indirect(b) => b < 8 && b != 4 && b != 5
      case Disp8(b, _) => b < 8 && b != 4
      case Disp32(b, d) => b < 8 && b != 4 && |d| == 4
      case RipRelative(d) => |d| == 4
      case Scaled(sib) => sib % 8 != 5
      case ScaledNoBase(sib, d) => sib % 8 == 5 && |d| == 4
      case ScaledDisp8(_, _) => true
      case ScaledDisp32(_, d) => |d| == 4
      case Register(rm) => rm < 8
    }

    /** ModR/M with the given register field, SIB and displacement. */
    function Bytes(reg: nat): seq<byte>
      requires Valid() && reg < 8
    {
      match this
      case Indirect(b) => [0x00 + 8 * reg + b]
      case Disp8(b, d) => [0x40 + 8 * reg + b, d]
      case Disp32(b, d) => [0x80 + 8 * reg + b] + d
      case RipRelative(d) => [0x05 + 8 * reg] + d
      case Scaled(sib) => [0x04 + 8 * reg, sib]
      case ScaledNoBase(sib, d) => [0x04 + 8 * reg, sib] + d
      case ScaledDisp8(sib, d) => [0x44 + 8 * reg, sib, d]
      case ScaledDisp32(sib, d) => [0x84 + 8 * reg, sib] + d
      case Register(rm) => [0xC0 + 8 * reg + rm]
    }
  }

  /** Four bytes, least significant first. */
  function Number(b0: nat, b1: nat, b2: nat, b3: nat): nat { b0 + 0x100 * b1 + 0x1_0000 * b2 + 0x100_0000 * b3 }

  datatype Operation =
    | Store8(reg: nat)
    | Store(reg: nat)
    | Load8(reg: nat)
    | Load(reg: nat)
    | StoreImm(imm: seq<byte>)

  datatype Form = Form(prefix: Prefix, op: Operation, mem: Mem) {
    predicate Valid() {
      && prefix.Valid() && mem.Valid()
      && (if op.StoreImm? then |op.imm| == (if prefix.Overrides() && !prefix.Wide() then 2 else 4) else op.reg < 8)
    }

    function Code(): seq<byte>
      requires Valid()
    {
      prefix.Bytes() +
      match op
      case Store8(r) => [0x88] + mem.Bytes(r)
      case Store(r) => [0x89] + mem.Bytes(r)
      case Load8(r) => [0x8A] + mem.Bytes(r)
      case Load(r) => [0x8B] + mem.Bytes(r)
      case StoreImm(imm) => [0xC7] + mem.Bytes(0) + imm
    }

    function Width(): nat {
      if op.Store8? || op.Load8? then 1 else if prefix.Wide() then 8 else if prefix.Overrides() then 2 else 4
    }

    /** What the run loop must be told. */
    function Expected(): DecodedMmio
      requires Valid()
    {
      DecodedMmio(
        if op.StoreImm? then 0 else op.reg + (if prefix.HighRegister() then 8 else 0),
        Width(),
        if !op.StoreImm? then None
        else if |op.imm| == 2 then Some(Number(op.imm[0], op.imm[1], 0, 0))
        else Some(Number(op.imm[0], op.imm[1], op.imm[2], op.imm[3])),
        |Code()| % 0x100)
    }
  }

  // ---- Forms are what the decoder parses ----------------------------------------------------------

  function SibPart(m: Mem): seq<byte> {
    match m
    case Scaled(sib) => [sib]
    case ScaledNoBase(sib, _) => [sib]
    case ScaledDisp8(sib, _) => [sib]
    case ScaledDisp32(sib, _) => [sib]
    case _ => []
  }

  function DispPart(m: Mem): seq<byte> {
    match m
    case Disp8(_, d) => [d]
    case Disp32(_, d) => d
    case RipRelative(d) => d
    case ScaledNoBase(_, d) => d
    case ScaledDisp8(_, d) => [d]
    case ScaledDisp32(_, d) => d
    case _ => []
  }

  function Opcode(op: Operation): byte {
    match op case Store8(_) => 0x88 case Store(_) => 0x89 case Load8(_) => 0x8A case Load(_) => 0x8B case StoreImm(_) => 0xC7
  }

  function RegField(op: Operation): nat { if op.StoreImm? then 0 else op.reg }

  function ImmPart(op: Operation): seq<byte> { if op.StoreImm? then op.imm else [] }

  /** The same instruction, by its encoded parts. */
  function Parts(f: Form): Insn
    requires f.Valid()
  {
    Insn(f.prefix.Bytes(), Opcode(f.op), f.mem.Bytes(RegField(f.op))[0], SibPart(f.mem), DispPart(f.mem), ImmPart(f.op))
  }

  lemma ModrmParts(mode: nat, reg: nat, rm: nat)
    requires mode < 4 && reg < 8 && rm < 8
    ensures var m := 64 * mode + 8 * reg + rm; ModBits(m) == mode && RegBits(m) == reg && RmBits(m) == rm
  {
  }

  lemma RexParts(w: nat, r: nat, xb: nat)
    requires w < 2 && r < 2 && xb < 4
    ensures var b := 0x40 + 8 * w + 4 * r + xb; IsRex(b) && (RexW(b) <==> w == 1) && RexR(b) == r
  {
    var b := 0x40 + 8 * w + 4 * r + xb;
    assert b / 8 == 8 + w;
    assert b / 4 == 16 + 2 * w + r;
  }

  lemma {:induction false} LastRexSkips(p: seq<byte>, n: nat)
    ensures LastRex(p + seq(n, _ => 0x66)) == LastRex(p)
  {
    var q := p + seq(n, _ => 0x66);
    if n == 0 {
      assert q == p;
    } else {
      assert q[..|q| - 1] == p + seq(n - 1, _ => 0x66);
      LastRexSkips(p, n - 1);
    }
  }

  lemma PrefixFacts(p: Prefix)
    requires p.Valid()
    ensures forall i :: 0 <= i < |p.Bytes()| ==> IsPrefix(p.Bytes()[i])
    ensures 0x66 in p.Bytes() <==> p.Overrides()
    ensures RexW(LastRex(p.Bytes())) <==> p.Wide()
    ensures RexR(LastRex(p.Bytes())) == if p.HighRegister() then 1 else 0
  {
    hide LastRex, RexW, RexR;
    match p
    case NoRex(n) =>
      LastRexSkips([], n);
      assert [] + seq(n, _ => 0x66) == p.Bytes();
      NoRexBits();
      if n > 0 {
        assert p.Bytes()[0] == 0x66;
      }
    case WithRex(b, w, r, xb, n) =>
      RexFacts(p);
  }

  lemma NoRexBits()
    ensures LastRex([]) == 0 && !RexW(0) && RexR(0) == 0
  {
  }

  lemma RexFacts(p: Prefix)
    requires p.Valid() && p.WithRex?
    ensures forall i :: 0 <= i < |p.Bytes()| ==> IsPrefix(p.Bytes()[i])
    ensures 0x66 in p.Bytes() <==> p.Overrides()
    ensures RexW(LastRex(p.Bytes())) <==> p.w
    ensures RexR(LastRex(p.Bytes())) == if p.r then 1 else 0
  {
    hide RexW, RexR;
    var rex := 0x40 + (if p.w then 8 else 0) + (if p.r then 4 else 0) + p.xb;
    RexParts(if p.w then 1 else 0, if p.r then 1 else 0, p.xb);
    LastRexSkips(p.before + [rex], p.after);
    if p.after > 0 {
      assert p.Bytes()[|p.before| + 1] == 0x66;
    }
  }

  /** SIB and displacement lengths, form by form. */
  lemma MemFacts(m: Mem, reg: nat)
    requires m.Valid() && reg < 8
    ensures var modrm := m.Bytes(reg)[0];
            && RegBits(modrm) == reg
            && |SibPart(m)| == (if NeedsSib(modrm) then 1 else 0)
            && |DispPart(m)| == DisplacementSize(modrm, NeedsSib(modrm), if NeedsSib(modrm) then SibPart(m)[0] else 0)
            && m.Bytes(reg) == [modrm] + SibPart(m) + DispPart(m)
  {
    hide RegBits, ModBits, RmBits;
    var (mode, rm) := match m
      case Indirect(b) => (0, b)
      case Disp8(b, _) => (1, b)
      case Disp32(b, _) => (2, b)
      case RipRelative(_) => (0, 5)
      case Scaled(_) => (0, 4)
      case ScaledNoBase(_, _) => (0, 4)
      case ScaledDisp8(_, _) => (1, 4)
      case ScaledDisp32(_, _) => (2, 4)
      case Register(r) => (3, r);
    ModrmParts(mode, reg, rm);
  }

  lemma ImmValue(imm: seq<byte>)
    ensures |imm| == 2 ==> FromLe(imm) == Number(imm[0], imm[1], 0, 0)
    ensures |imm| == 4 ==> FromLe(imm) == Number(imm[0], imm[1], imm[2], imm[3])
  {
    if |imm| == 2 || |imm| == 4 {
      assert imm[1..][1..] == imm[2..];
      assert FromLe(imm) == imm[0] as nat + 0x100 * (imm[1] as nat + 0x100 * FromLe(imm[2..]));
      if |imm| == 4 {
        assert imm[2..][1..] == imm[3..] && imm[3..][1..] == [];
      } else {
        assert imm[2..] == [];
      }
    }
  }

  /** A form and its parts have the same bytes and the same meaning. */
  lemma FormIsParts(f: Form)
    requires f.Valid()
    ensures Parts(f).WellFormed() && Parts(f).Encode() == f.Code() && Parts(f).Meaning() == f.Expected()
  {
    hide RegBits, NeedsSib, DisplacementSize, RexW, RexR, LastRex, FromLe, IsPrefix, Prefix.Bytes, Mem.Bytes;
    PrefixFacts(f.prefix);
    MemFacts(f.mem, RegField(f.op));
    ImmValue(ImmPart(f.op));
    CodeOrder(f);
  }

  lemma CodeOrder(f: Form)
    requires f.Valid()
    ensures f.Code() == f.prefix.Bytes() + [Opcode(f.op)] + f.mem.Bytes(RegField(f.op)) + ImmPart(f.op)
  {
    hide Prefix.Bytes, Mem.Bytes;
  }

  /** Every form, followed by any bytes, decodes to its register, width, immediate and length. */
  lemma FormDecodes(f: Form, tail: seq<byte>)
    requires f.Valid()
    ensures Decode(f.Code() + tail) == Some(f.Expected())
  {
    hide Decode, Form.Code, Form.Expected, Parts, Insn.WellFormed, Insn.Encode, Insn.Meaning;
    FormIsParts(f);
    RoundTrip(Parts(f), tail);
  }

  // ---- And the decoder parses nothing else ---------------------------------------------------------

  lemma RexSplit(b: byte)
    requires IsRex(b)
    ensures 0x40 + (if b / 8 % 2 == 1 then 8 else 0) + (if b / 4 % 2 == 1 then 4 else 0) + b % 4 == b
  {
    var low := b - 0x40;
    assert b / 8 == 8 + low / 8 && b / 4 == 16 + low / 4 && b % 4 == low % 4;
  }

  /** The prefix list `p`, split at its last REX byte. */
  function PrefixOf(p: seq<byte>): Prefix {
    if p == [] then NoRex(0)
    else
      var b, front := p[|p| - 1], p[..|p| - 1];
      if b != 0x66 then WithRex(front, b / 8 % 2 == 1, b / 4 % 2 == 1, b % 4, 0)
      else
        match PrefixOf(front)
        case NoRex(n) => NoRex(n + 1)
        case WithRex(x, w, r, xb, n) => WithRex(x, w, r, xb, n + 1)
  }

  lemma {:induction false} PrefixOfBytes(p: seq<byte>)
    requires forall i :: 0 <= i < |p| ==> IsPrefix(p[i])
    ensures PrefixOf(p).Valid() && PrefixOf(p).Bytes() == p
  {
    if p != [] {
      var b, front := p[|p| - 1], p[..|p| - 1];
      assert p == front + [b];
      if b != 0x66 {
        RexSplit(b);
      } else {
        PrefixOfBytes(front);
        OneMore(PrefixOf(front));
      }
    }
  }

  lemma OneMore(p: Prefix)
    requires p.Valid()
    ensures var q := if p.NoRex? then NoRex(p.overrides + 1) else p.(after := p.after + 1);
            q.Valid() && q.Bytes() == p.Bytes() + [0x66]
  {
    var n := if p.NoRex? then p.overrides else p.after;
    assert seq(n + 1, _ => 0x66) == seq(n, _ => 0x66) + [0x66];
  }

  function MemOf(i: Insn): (m: Mem)
    requires i.WellFormed()
    ensures m.Valid() && m.Bytes(RegBits(i.modrm)) == [i.modrm] + i.sib + i.disp
  {
    var rm := RmBits(i.modrm);
    match ModBits(i.modrm)
    case 0 =>
      if rm == 4 then (if i.sib[0] % 8 == 5 then ScaledNoBase(i.sib[0], i.disp) else Scaled(i.sib[0]))
      else if rm == 5 then RipRelative(i.disp)
      else Indirect(rm)
    case 1 => if rm == 4 then ScaledDisp8(i.sib[0], i.disp[0]) else Disp8(rm, i.disp[0])
    case 2 => if rm == 4 then ScaledDisp32(i.sib[0], i.disp) else Disp32(rm, i.disp)
    case _ => Register(rm)
  }

  function FormOf(i: Insn): Form
    requires i.WellFormed()
  {
    var r := RegBits(i.modrm);
    Form(PrefixOf(i.prefixes),
         match i.opcode
         case 0x88 => Store8(r)
         case 0x89 => Store(r)
         case 0x8A => Load8(r)
         case 0x8B => Load(r)
         case _ => StoreImm(i.imm),
         MemOf(i))
  }

  lemma InsnIsForm(i: Insn)
    requires i.WellFormed()
    ensures FormOf(i).Valid() && FormOf(i).Code() == i.Encode()
  {
    hide MemOf, PrefixOf, RexW, LastRex, DisplacementSize, NeedsSib, Prefix.Bytes, Mem.Bytes;
    PrefixOfBytes(i.prefixes);
    PrefixFacts(PrefixOf(i.prefixes));
    RegBound(i.modrm);
    CodeOrder(FormOf(i));
  }

  lemma RegBound(modrm: byte)
    ensures RegBits(modrm) < 8
  {
  }

  /** `f` stands at the front of `bytes` and means `d`. */
  predicate Stands(bytes: seq<byte>, f: Form, d: DecodedMmio) {
    f.Valid() && f.Code() <= bytes && d == f.Expected()
  }

  /** The decoder gives an answer exactly when one of the forms stands at the front, and that form's. */
  lemma DecodesIffForm(bytes: seq<byte>, d: DecodedMmio)
    ensures Decode(bytes) == Some(d) <==> exists f :: Stands(bytes, f, d)
  {
    hide Decode, Form.Code, Form.Expected, Form.Valid, Insn.WellFormed, Insn.Encode, FormOf;
    if Decode(bytes) == Some(d) {
      DecodedForm(bytes, d);
    }
    if f :| Stands(bytes, f, d) {
      var tail := bytes[|f.Code()|..];
      assert bytes == f.Code() + tail;
      FormDecodes(f, tail);
    }
  }

  lemma DecodedForm(bytes: seq<byte>, d: DecodedMmio)
    requires Decode(bytes) == Some(d)
    ensures exists f :: Stands(bytes, f, d)
  {
    hide Form.Code, Form.Expected, Form.Valid, Insn.WellFormed, Insn.Encode, Insn.Meaning, FormOf, InsnAt, Fits;
    ParsedIsThere(bytes);
    var i := InsnAt(bytes);
    InsnIsForm(i);
    var f := FormOf(i);
    var tail := bytes[|f.Code()|..];
    assert bytes == f.Code() + tail;
    FormDecodes(f, tail);
    assert Stands(bytes, f, d);
  }

  // ---- The usual instructions ----------------------------------------------------------------------

  /** The prefix bytes for an operand of `width` bytes and register `reg` of sixteen. */
  function UsualPrefix(width: nat, reg: nat): seq<byte> {
    (if width == 2 then [0x66] else []) +
    (if width == 8 && reg >= 8 then [0x4C] else if width == 8 then [0x48] else if reg >= 8 then [0x44] else [])
  }

  function UsualForm(width: nat, reg: nat): Prefix {
    if width == 8 || reg >= 8 then WithRex(if width == 2 then [0x66] else [], width == 8, reg >= 8, 0, 0)
    else NoRex(if width == 2 then 1 else 0)
  }

  lemma UsualPrefixBytes(width: nat, reg: nat)
    requires width in {2, 4, 8}
    ensures UsualForm(width, reg).Valid() && UsualForm(width, reg).Bytes() == UsualPrefix(width, reg)
    ensures UsualForm(width, reg).Wide() <==> width == 8
    ensures UsualForm(width, reg).HighRegister() <==> reg >= 8
    ensures width != 8 ==> (UsualForm(width, reg).Overrides() <==> width == 2)
    ensures |UsualPrefix(width, reg)| <= 2
  {
  }

  lemma MemLength(m: Mem, reg: nat)
    requires m.Valid() && reg < 8
    ensures 1 <= |m.Bytes(reg)| <= 6
  {
  }

  /** A load or store of 2, 4 or 8 bytes between any of the sixteen registers and memory. */
  lemma UsualMovDecodes(isLoad: bool, width: nat, reg: nat, mem: Mem, tail: seq<byte>)
    requires width in {2, 4, 8} && reg < 16 && mem.Valid()
    ensures var code := UsualPrefix(width, reg) + [if isLoad then 0x8B else 0x89] + mem.Bytes(reg % 8);
            Decode(code + tail) == Some(DecodedMmio(reg, width, None, |code|))
  {
    hide Decode, Prefix.Bytes, Prefix.Wide, Prefix.HighRegister, Prefix.Overrides, Mem.Bytes, UsualPrefix, UsualForm;
    UsualPrefixBytes(width, reg);
    MemLength(mem, reg % 8);
    var f := Form(UsualForm(width, reg), if isLoad then Load(reg % 8) else Store(reg % 8), mem);
    CodeOrder(f);
    assert f.Code() == UsualPrefix(width, reg) + [if isLoad then 0x8B else 0x89] + mem.Bytes(reg % 8);
    FormDecodes(f, tail);
  }
}
