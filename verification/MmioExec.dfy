/**
 * Emulating a decoded MMIO exit (`handle_mmio` and its read and write halves) against the
 * architectural effect of the MOV instruction that caused it.
 *
 * `ArchMov` is the instruction by the book: partial register writes, high-byte registers, sign
 * extension, and a REX byte that counts only directly before the opcode.  The emulation has that
 * effect on every machine state exactly for the instructions that satisfy `Emulated`.
 */
module MmioExec {
  import opened Bytes
  import opened MmioDecode

  /** General-purpose registers, instruction pointer and flags (`StandardRegs`). */
  datatype Regs = Regs(
    rax: nat, rcx: nat, rdx: nat, rbx: nat, rsp: nat, rbp: nat, rsi: nat, rdi: nat,
    r8: nat, r9: nat, r10: nat, r11: nat, r12: nat, r13: nat, r14: nat, r15: nat,
    rip: nat, rflags: nat)

  datatype Access = ReadAt(gpa: nat, size: nat) | WriteAt(gpa: nat, data: seq<byte>)

  /** The registers in x86 encoding order. */
  function File(r: Regs): (f: seq<nat>)
    ensures |f| == 16
  {
    [r.rax, r.rcx, r.rdx, r.rbx, r.rsp, r.rbp, r.rsi, r.rdi, r.r8, r.r9, r.r10, r.r11, r.r12, r.r13, r.r14, r.r15]
  }

  /** `register_value`. */
  function RegisterValue(r: Regs, idx: nat): (v: nat)
    ensures idx < 16 ==> v == File(r)[idx]
  {
    match idx
    case 0 => r.rax
    case 1 => r.rcx
    case 2 => r.rdx
    case 3 => r.rbx
    case 4 => r.rsp
    case 5 => r.rbp
    case 6 => r.rsi
    case 7 => r.rdi
    case 8 => r.r8
    case 9 => r.r9
    case 10 => r.r10
    case 11 => r.r11
    case 12 => r.r12
    case 13 => r.r13
    case 14 => r.r14
    case 15 => r.r15
    case _ => 0
  }

  /** `set_register`: exactly one register changes. */
  function SetRegister(r: Regs, idx: nat, v: nat): (r': Regs)
    ensures File(r') == (if idx < 16 then File(r)[idx := v] else File(r))
    ensures r'.rip == r.rip && r'.rflags == r.rflags
  {
    match idx
    case 0 => r.(rax := v)
    case 1 => r.(rcx := v)
    case 2 => r.(rdx := v)
    case 3 => r.(rbx := v)
    case 4 => r.(rsp := v)
    case 5 => r.(rbp := v)
    case 6 => r.(rsi := v)
    case 7 => r.(rdi := v)
    case 8 => r.(r8 := v)
    case 9 => r.(r9 := v)
    case 10 => r.(r10 := v)
    case 11 => r.(r11 := v)
    case 12 => r.(r12 := v)
    case 13 => r.(r13 := v)
    case 14 => r.(r14 := v)
    case 15 => r.(r15 := v)
    case _ => r
  }

  function AdvanceRip(r: Regs, len: nat): (r': Regs)
    ensures File(r') == File(r) && r'.rflags == r.rflags && r'.rip == (r.rip + len) % U64_RANGE
  {
    r.(rip := (r.rip + len) % U64_RANGE)
  }

  /** An MMIO exit: the faulting bytes, the hypervisor's own length, and the device's answer. */
  datatype Exit = Exit(bytes: seq<byte>, whpLen: nat, gpa: nat, isWrite: bool, answer: seq<byte>)

  /** The effect of `handle_mmio`: new registers and device accesses. */
  function Emulate(exit: Exit, regs: Regs): (Regs, seq<Access>)
    requires |exit.answer| == 8
  {
    match Decode(exit.bytes)
    case None => (AdvanceRip(regs, exit.whpLen), [])
    case Some(d) => if exit.isWrite then EmulateWrite(d, exit.gpa, regs) else EmulateRead(d, exit.gpa, exit.answer, regs)
  }

  /** `handle_mmio_write`, up to the interrupt. */
  function EmulateWrite(d: DecodedMmio, gpa: nat, regs: Regs): (Regs, seq<Access>) {
    var value := if d.immediate.Some? then d.immediate.value else RegisterValue(regs, d.register);
    (AdvanceRip(regs, d.instructionLen), [WriteAt(gpa, ToLe(value, 8)[..Min(d.size, 8)])])
  }

  /** `handle_mmio_read`. */
  function EmulateRead(d: DecodedMmio, gpa: nat, answer: seq<byte>, regs: Regs): (Regs, seq<Access>)
    requires |answer| == 8
  {
    var data := answer[..Min(d.size, 8)] + Zeroes(8 - Min(d.size, 8));
    (AdvanceRip(SetRegister(regs, d.register, FromLe(data)), d.instructionLen), [ReadAt(gpa, Min(d.size, 8))])
  }

  /** The vCPU registers and the devices, as the handlers change them. */
  class Machine {
    var regs: Regs
    var accesses: seq<Access>

    method HandleMmio(exit: Exit)
      requires |exit.answer| == 8
      modifies this
      ensures Decode(exit.bytes).None? ==>
                && accesses == old(accesses) && File(regs) == File(old(regs)) && regs.rflags == old(regs).rflags
                && regs.rip == (old(regs).rip + exit.whpLen) % 0x1_0000_0000_0000_0000
      ensures (regs, accesses) == (Emulate(exit, old(regs)).0, old(accesses) + Emulate(exit, old(regs)).1)
    {
      var decoded := DecodeMmioInstruction(exit.bytes);
      if decoded.None? {
        regs := AdvanceRip(regs, exit.whpLen);
        assert accesses == old(accesses) + [];
        return;
      }
      var size := Min(decoded.value.size, 8);
      if exit.isWrite {
        var value := 0;
        if decoded.value.immediate.Some? {
          value := decoded.value.immediate.value;
        } else {
          value := RegisterValue(regs, decoded.value.register);
        }
        accesses := accesses + [WriteAt(exit.gpa, ToLe(value, 8)[..size])];
        regs := AdvanceRip(regs, decoded.value.instructionLen);
      } else {
        accesses := accesses + [ReadAt(exit.gpa, size)];
        var data := exit.answer[..size] + Zeroes(8 - size);
        regs := SetRegister(regs, decoded.value.register, FromLe(data));
        regs := AdvanceRip(regs, decoded.value.instructionLen);
      }
    }
  }

  // ---- The architecture ------------------------------------------------------------------

  /** A REX byte counts only as the last prefix, directly before the opcode. */
  function ArchRex(prefixes: seq<byte>): byte {
    if prefixes != [] && IsRex(prefixes[|prefixes| - 1]) then prefixes[|prefixes| - 1] else 0
  }

  predicate IsLoad(opcode: byte) { opcode == 0x8A || opcode == 0x8B }

  predicate IsByteOp(opcode: byte) { opcode == 0x88 || opcode == 0x8A }

  /** Operand width: one byte for the byte opcodes, else by REX.W and then by the 0x66 prefix. */
  function ArchSize(i: Insn): (size: nat)
    ensures size in {1, 2, 4, 8}
  {
    if IsByteOp(i.opcode) then 1
    else if ArchRex(i.prefixes) / 8 % 2 == 1 then 8
    else if 0x66 in i.prefixes then 2
    else 4
  }

  /** The register operand: bits 5 to 3 of ModR/M, and REX.R above them. */
  function ArchReg(i: Insn): (r: nat)
    ensures r < 16
  {
    i.modrm / 8 % 8 + (if ArchRex(i.prefixes) / 4 % 2 == 1 then 8 else 0)
  }

  /** Byte registers 4..7 without REX are AH, CH, DH and BH. */
  predicate IsHighByte(i: Insn) {
    IsByteOp(i.opcode) && ArchRex(i.prefixes) == 0 && 4 <= i.modrm / 8 % 8
  }

  /** The architectural operand in the decoder's terms. */
  lemma ArchInDecoderTerms(i: Insn)
    ensures ArchSize(i) == OperandSize(IsByteOp(i.opcode), RexW(ArchRex(i.prefixes)), 0x66 in i.prefixes)
    ensures ArchReg(i) == RegBits(i.modrm) + 8 * RexR(ArchRex(i.prefixes))
    ensures IsHighByte(i) ==> ArchReg(i) == RegBits(i.modrm) && 4 <= ArchReg(i) < 8
  {
  }

  function ArchOperand(i: Insn, file: seq<nat>): nat
    requires |file| == 16
  {
    if IsMovImm(i.opcode) then
      var imm := FromLe(i.imm);
      if ArchSize(i) == 8 && imm >= 0x8000_0000 then imm + (U64_RANGE - U32_RANGE) else imm
    else if IsHighByte(i) then file[ArchReg(i) % 8 - 4] / 256
    else file[ArchReg(i)]
  }

  function ArchLoad(i: Insn, file: seq<nat>, v: nat): (f: seq<nat>)
    requires |file| == 16
    ensures |f| == 16
  {
    var r := ArchReg(i);
    match ArchSize(i)
    case 8 => file[r := v]
    case 4 => file[r := v]
    case 2 => file[r := file[r] / 0x1_0000 * 0x1_0000 + v % 0x1_0000]
    case _ =>
      if IsHighByte(i) then
        var h := r % 8 - 4;
        file[h := file[h] / 0x1_0000 * 0x1_0000 + v % 0x100 * 0x100 + file[h] % 0x100]
      else file[r := file[r] / 0x100 * 0x100 + v % 0x100]
  }

  datatype ArchState = ArchState(file: seq<nat>, rip: nat, rflags: nat)

  function Abs(r: Regs): (a: ArchState)
    ensures |a.file| == 16
  {
    ArchState(File(r), r.rip, r.rflags)
  }

  /** One MOV between a register or immediate and the device at `gpa`. */
  function ArchMov(i: Insn, gpa: nat, answer: seq<byte>, a: ArchState): (ArchState, seq<Access>)
    requires |a.file| == 16 && |answer| == 8
  {
    var rip := (a.rip + |i.Encode()|) % U64_RANGE;
    if IsLoad(i.opcode) then
      (ArchState(ArchLoad(i, a.file, FromLe(answer[..ArchSize(i)])), rip, a.rflags), [ReadAt(gpa, ArchSize(i))])
    else
      (a.(rip := rip), [WriteAt(gpa, ToLe(ArchOperand(i, a.file), ArchSize(i)))])
  }

  // ---- The comparison --------------------------------------------------------------------

  function ExitOf(i: Insn, tail: seq<byte>, whpLen: nat, gpa: nat, answer: seq<byte>): Exit {
    Exit(i.Encode() + tail, whpLen, gpa, !IsLoad(i.opcode), answer)
  }

  /** On one exit and machine state, the emulation has the architectural effect. */
  predicate Matches(i: Insn, tail: seq<byte>, whpLen: nat, gpa: nat, answer: seq<byte>, regs: Regs)
    requires |answer| == 8
  {
    var e := Emulate(ExitOf(i, tail, whpLen, gpa, answer), regs);
    (Abs(e.0), e.1) == ArchMov(i, gpa, answer, Abs(regs))
  }

  ghost predicate MatchesAlways(i: Insn) {
    forall tail, whpLen, gpa, answer: seq<byte>, regs | |answer| == 8 :: Matches(i, tail, whpLen, gpa, answer, regs)
  }

  /**
   * What can be read off the instruction: the REX byte in force agrees with the architectural
   * one as far as it matters; loads are 4 or 8 bytes wide; byte stores do not name a high-byte
   * register; and no immediate needs sign extension.
   */
  predicate Emulated(i: Insn) {
    && i.Meaning().size == ArchSize(i)
    && (IsMovImm(i.opcode) || RexR(LastRex(i.prefixes)) == RexR(ArchRex(i.prefixes)))
    && (IsLoad(i.opcode) ==> ArchSize(i) in {4, 8})
    && (IsMovReg(i.opcode) && !IsLoad(i.opcode) ==> !IsHighByte(i))
    && (IsMovImm(i.opcode) ==> ArchSize(i) == 8 ==> FromLe(i.imm) < 0x8000_0000)
  }

  lemma {:induction false} ToLePrefix(v: nat, n: nat, k: nat)
    requires k <= n
    ensures ToLe(v, n)[..k] == ToLe(v, k)
  {
    if k > 0 {
      ToLePrefix(v / 256, n - 1, k - 1);
      assert ToLe(v, n)[..k] == [v % 256] + ToLe(v / 256, n - 1)[..k - 1];
    }
  }

  lemma MeaningBounds(i: Insn)
    ensures i.Meaning().register < 16 && i.Meaning().size in {1, 2, 4, 8}
    ensures i.Meaning().immediate == if IsMovImm(i.opcode) then Some(FromLe(i.imm)) else None
  {
  }

  lemma EmulateWriteEffect(d: DecodedMmio, gpa: nat, regs: Regs)
    requires d.size <= 8
    ensures EmulateWrite(d, gpa, regs) ==
            (AdvanceRip(regs, d.instructionLen),
             [WriteAt(gpa, ToLe(if d.immediate.Some? then d.immediate.value else RegisterValue(regs, d.register), d.size))])
  {
    ToLePrefix(if d.immediate.Some? then d.immediate.value else RegisterValue(regs, d.register), 8, d.size);
  }

  lemma EmulateReadEffect(d: DecodedMmio, gpa: nat, answer: seq<byte>, regs: Regs)
    requires d.size <= 8 && |answer| == 8
    ensures EmulateRead(d, gpa, answer, regs) ==
            (AdvanceRip(SetRegister(regs, d.register, FromLe(answer[..d.size])), d.instructionLen), [ReadAt(gpa, d.size)])
  {
    FromLePadded(answer[..d.size], Zeroes(8 - d.size));
  }

  /** The machine state after an emulated exit, by the decoded operand. */
  function EmulatedState(i: Insn, answer: seq<byte>, regs: Regs): ArchState
    requires |answer| == 8 && i.Meaning().register < 16 && i.Meaning().size <= 8
  {
    var d := i.Meaning();
    ArchState(if IsLoad(i.opcode) then File(regs)[d.register := FromLe(answer[..d.size])] else File(regs),
              (regs.rip + |i.Encode()|) % U64_RANGE, regs.rflags)
  }

  function EmulatedAccess(i: Insn, gpa: nat, regs: Regs): Access
    requires i.Meaning().register < 16
  {
    var d := i.Meaning();
    if IsLoad(i.opcode) then ReadAt(gpa, d.size)
    else WriteAt(gpa, ToLe(if IsMovImm(i.opcode) then FromLe(i.imm) else File(regs)[d.register], d.size))
  }

  /** The effect of an emulated exit. */
  lemma EmulateInsn(i: Insn, tail: seq<byte>, whpLen: nat, gpa: nat, answer: seq<byte>, regs: Regs)
    requires i.WellFormed() && |i.Encode()| <= 16 && |answer| == 8
    ensures i.Meaning().register < 16 && i.Meaning().size in {1, 2, 4, 8}
    ensures var e := Emulate(ExitOf(i, tail, whpLen, gpa, answer), regs);
            (Abs(e.0), e.1) == (EmulatedState(i, answer, regs), [EmulatedAccess(i, gpa, regs)])
  {
    hide Decode, File, RegisterValue, SetRegister, AdvanceRip, ToLe, FromLe, Zeroes;
    hide Insn.Encode, Insn.WellFormed, Insn.Meaning, EmulateWrite, EmulateRead;
    RoundTrip(i, tail);
    MeaningBounds(i);
    if IsLoad(i.opcode) {
      EmulateReadEffect(i.Meaning(), gpa, answer, regs);
    } else {
      EmulateWriteEffect(i.Meaning(), gpa, regs);
    }
  }

  lemma EmulatedMatches(i: Insn, tail: seq<byte>, whpLen: nat, gpa: nat, answer: seq<byte>, regs: Regs)
    requires i.WellFormed() && |i.Encode()| <= 16 && |answer| == 8 && Emulated(i)
    ensures Matches(i, tail, whpLen, gpa, answer, regs)
  {
    hide Emulate, ToLe, FromLe, Insn.Encode, File, LastRex, ArchRex, RegBits, RexR, RexW, ArchReg, ArchSize, IsHighByte;
    ArchInDecoderTerms(i);
    EmulateInsn(i, tail, whpLen, gpa, answer, regs);
  }

  /** All sixteen registers hold `x`, except that register `k` holds `y`. */
  function AllBut(x: nat, k: nat, y: nat): (r: Regs)
    ensures k < 16 ==> forall j :: 0 <= j < 16 ==> File(r)[j] == if j == k then y else x
  {
    SetRegister(Regs(x, x, x, x, x, x, x, x, x, x, x, x, x, x, x, x, 0, 0), k, y)
  }

  /** A machine state on which an instruction outside `Emulated` is emulated wrongly. */
  function Witness(i: Insn): (seq<byte>, Regs) {
    if IsLoad(i.opcode) && i.Meaning().size == ArchSize(i) && ArchSize(i) !in {4, 8} then
      (Zeroes(8), AllBut(0x1_0000_0000, 0, 0x1_0000_0000))
    else
      ([1] + Zeroes(7), AllBut(0, i.Meaning().register, if IsLoad(i.opcode) then 0 else 1))
  }

  /** The decoded and the architectural operand differ. */
  predicate Differs(i: Insn, answer: seq<byte>, regs: Regs)
    requires |answer| == 8 && i.Meaning().register < 16 && i.Meaning().size <= 8
  {
    var a := ArchMov(i, 0, answer, Abs(regs));
    EmulatedState(i, answer, regs).file != a.0.file || [EmulatedAccess(i, 0, regs)] != a.1
  }

  lemma WidthMismatch(i: Insn, answer: seq<byte>, regs: Regs)
    requires |answer| == 8 && i.Meaning().register < 16 && i.Meaning().size <= 8
    requires i.Meaning().size != ArchSize(i)
    ensures Differs(i, answer, regs)
  {
    hide Insn.Meaning, ArchSize, ArchOperand, ArchLoad, File, ToLe, FromLe;
    var a, e := ArchMov(i, 0, answer, Abs(regs)).1[0], EmulatedAccess(i, 0, regs);
    assert a.ReadAt? ==> e != a;
    assert a.WriteAt? ==> |a.data| == ArchSize(i);
    assert e.WriteAt? ==> |e.data| == i.Meaning().size;
  }

  /** A 1- or 2-byte load overwrites the upper bits that the architecture keeps. */
  lemma NarrowLoadMismatch(i: Insn, regs: Regs)
    requires i.Meaning().register < 16 && i.Meaning().size == ArchSize(i)
    requires IsLoad(i.opcode) && ArchSize(i) !in {4, 8}
    requires forall j :: 0 <= j < 16 ==> File(regs)[j] == 0x1_0000_0000
    ensures Differs(i, Zeroes(8), regs)
  {
    hide Insn.Meaning, File, LastRex, ArchRex, RexR, RexW, ArchReg, ArchSize, IsHighByte;
    ArchInDecoderTerms(i);
    var k := i.Meaning().register;
    FromLeZeroes(Zeroes(8)[..ArchSize(i)]);
    assert EmulatedState(i, Zeroes(8), regs).file[k] == 0;
    assert ArchLoad(i, File(regs), 0)[k] >= 0x1_0000_0000;
  }

  /** A load into the wrong register. */
  lemma LoadRegisterMismatch(i: Insn, answer: seq<byte>, regs: Regs)
    requires |answer| == 8 && answer[0] == 1
    requires i.Meaning().register < 16 && i.Meaning().size == ArchSize(i)
    requires IsLoad(i.opcode) && ArchSize(i) in {4, 8} && i.Meaning().register != ArchReg(i)
    requires forall j :: 0 <= j < 16 ==> File(regs)[j] == 0
    ensures Differs(i, answer, regs)
  {
    hide Insn.Meaning, File, LastRex, ArchRex, RexR, RexW, ArchReg;
    var k, v := i.Meaning().register, FromLe(answer[..ArchSize(i)]);
    assert v != 0;
    assert EmulatedState(i, answer, regs).file[k] == v;
    assert ArchLoad(i, File(regs), v)[k] == 0;
  }

  /** A store from the wrong register, or from the low byte instead of the high one. */
  lemma StoreRegisterMismatch(i: Insn, answer: seq<byte>, regs: Regs)
    requires |answer| == 8 && i.Meaning().register < 16 && i.Meaning().size == ArchSize(i)
    requires IsMovReg(i.opcode) && !IsLoad(i.opcode)
    requires i.Meaning().register != ArchReg(i) || IsHighByte(i)
    requires forall j :: 0 <= j < 16 ==> File(regs)[j] == if j == i.Meaning().register then 1 else 0
    ensures Differs(i, answer, regs)
  {
    hide Insn.Meaning, File, LastRex, ArchRex, RexR, RexW, ArchReg, ArchSize, IsHighByte;
    ArchInDecoderTerms(i);
    assert ArchOperand(i, File(regs)) == 0;
    assert ToLe(1, ArchSize(i))[0] == 1 && ToLe(0, ArchSize(i))[0] == 0;
  }

  /** A 64-bit store of an immediate that should have been sign-extended. */
  lemma ImmediateMismatch(i: Insn, answer: seq<byte>, regs: Regs)
    requires |answer| == 8 && i.Meaning().register < 16 && i.Meaning().size == ArchSize(i)
    requires IsMovImm(i.opcode) && ArchSize(i) == 8 && |i.imm| <= 4 && FromLe(i.imm) >= 0x8000_0000
    ensures Differs(i, answer, regs)
  {
    hide Insn.Meaning, File, FromLe, ToLe;
    var imm := FromLe(i.imm);
    FromLeBound(i.imm);
    Pow256Values();
    Pow256Monotone(|i.imm|, 4);
    LeRoundTrip(imm, 8);
    LeRoundTrip(imm + (U64_RANGE - U32_RANGE), 8);
  }

  lemma {:induction false} Pow256Monotone(n: nat, m: nat)
    requires n <= m
    ensures Pow256(n) <= Pow256(m)
  {
    if n < m {
      Pow256Monotone(n, m - 1);
    }
  }

  /** The decoder's register and the architectural one differ exactly in REX.R. */
  lemma RegisterDiffersIff(i: Insn)
    requires IsMovReg(i.opcode)
    ensures i.Meaning().register != ArchReg(i) <==> RexR(LastRex(i.prefixes)) != RexR(ArchRex(i.prefixes))
  {
    hide ArchReg, ArchSize, LastRex, ArchRex;
    ArchInDecoderTerms(i);
  }

  lemma NotEmulatedMismatch(i: Insn)
    requires i.WellFormed() && |i.Encode()| <= 16 && !Emulated(i)
    ensures |Witness(i).0| == 8 && !Matches(i, [], 0, 0, Witness(i).0, Witness(i).1)
  {
    var (answer, regs) := Witness(i);
    EmulateInsn(i, [], 0, 0, answer, regs);
    hide Emulate, Insn.Encode, Insn.Meaning, File, LastRex, ArchRex, RexR, RexW, ArchMov, ArchReg, IsHighByte, ArchSize;
    if i.Meaning().size != ArchSize(i) {
      WidthMismatch(i, answer, regs);
    } else if IsLoad(i.opcode) {
      if ArchSize(i) !in {4, 8} {
        NarrowLoadMismatch(i, regs);
      } else {
        RegisterDiffersIff(i);
        LoadRegisterMismatch(i, answer, regs);
      }
    } else if IsMovReg(i.opcode) {
      RegisterDiffersIff(i);
      StoreRegisterMismatch(i, answer, regs);
    } else {
      ImmediateMismatch(i, answer, regs);
    }
  }

  /**
   * Emulating an instruction has the architectural effect on every machine state (one device
   * access of the right size and bytes, the target register and RIP changed, nothing else)
   * if and only if the instruction satisfies `Emulated`.
   */
  lemma EmulatesMovIff(i: Insn)
    requires i.WellFormed() && |i.Encode()| <= 16
    ensures MatchesAlways(i) <==> Emulated(i)
  {
    if Emulated(i) {
      forall tail, whpLen, gpa, answer: seq<byte>, regs | |answer| == 8
        ensures Matches(i, tail, whpLen, gpa, answer, regs)
      {
        EmulatedMatches(i, tail, whpLen, gpa, answer, regs);
      }
    } else {
      NotEmulatedMismatch(i);
    }
  }

  /** The plain forms: at most 0x66 prefixes, then at most one REX byte. */
  predicate Canonical(prefixes: seq<byte>) {
    forall k :: 0 <= k < |prefixes| - 1 ==> prefixes[k] == 0x66
  }

  lemma {:induction false} NoRexAmongOverrides(prefixes: seq<byte>)
    requires forall k :: 0 <= k < |prefixes| ==> prefixes[k] == 0x66
    ensures LastRex(prefixes) == 0
  {
    if prefixes != [] {
      NoRexAmongOverrides(prefixes[..|prefixes| - 1]);
    }
  }

  /** Compilers emit canonical prefixes, and on those the decoder reads REX by the book. */
  lemma CanonicalRexInForce(prefixes: seq<byte>)
    requires Canonical(prefixes)
    ensures LastRex(prefixes) == ArchRex(prefixes)
  {
    if prefixes != [] {
      NoRexAmongOverrides(prefixes[..|prefixes| - 1]);
    }
  }
}
