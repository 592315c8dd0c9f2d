/**
 * The ELF64 loader (`load_elf`): header parsing and copying of PT_LOAD segments into guest memory.
 *
 * `Loads` are the segments a kernel image asks for and `ElfWrites` the writes they amount to; the
 * loader performs exactly those writes, or fails.
 */
module ElfLoader {
  import opened Bytes
  import opened GuestMem
  import opened WriteLog

  const ELF_HEADER_SIZE: nat := 64
  const PROGRAM_HEADER_SIZE: nat := 56
  const PT_LOAD: nat := 1
  const EM_X86_64: nat := 62

  datatype Header = Header(entry: nat, phoff: nat, phentsize: nat, phnum: nat)

  datatype Phdr = Phdr(ty: nat, offset: nat, paddr: nat, filesz: nat, memsz: nat)

  datatype KernelLoadResult = KernelLoadResult(kernelLoad: nat, kernelEnd: nat, entryPoint: nat)

  /** `read_u16`, `read_u32` and `read_u64`: `n` little-endian bytes at `offset`. */
  function ReadLe(data: seq<byte>, offset: nat, n: nat): (r: Option<nat>)
    ensures r.Some? <==> offset + n <= |data|
    ensures r.Some? ==> r.value < Pow256(n)
  {
    if offset + n <= |data| then
      FromLeBound(data[offset..offset + n]);
      Some(FromLe(data[offset..offset + n]))
    else None
  }

  function ParseElfHeader(data: seq<byte>): (r: Option<Header>)
    ensures r.Some? ==> r.value.entry < U64_RANGE && r.value.phoff < U64_RANGE
  {
    Pow256Values();
    if |data| < ELF_HEADER_SIZE then None
    else if data[..4] != [0x7F, 0x45, 0x4C, 0x46] then None
    else if data[4] != 2 then None
    else if data[5] != 1 then None
    else if ReadLe(data, 18, 2) != Some(EM_X86_64) then None
    else Some(Header(ReadLe(data, 24, 8).value, ReadLe(data, 32, 8).value,
                     ReadLe(data, 54, 2).value, ReadLe(data, 56, 2).value))
  }

  function ParseProgramHeader(data: seq<byte>, base: nat): (r: Option<Phdr>)
    ensures r.Some? ==> r.value.paddr < U64_RANGE
  {
    Pow256Values();
    if |data| < base + PROGRAM_HEADER_SIZE then None
    else Some(Phdr(ReadLe(data, base, 4).value, ReadLe(data, base + 8, 8).value, ReadLe(data, base + 24, 8).value,
                   ReadLe(data, base + 32, 8).value, ReadLe(data, base + 40, 8).value))
  }

  /** Program header `i`; `None` if its offset overflows or it runs past the file. */
  function PhdrAt(data: seq<byte>, h: Header, i: nat): (r: Option<Phdr>)
    ensures r.Some? ==> r.value.paddr < U64_RANGE
  {
    if h.phoff + i * h.phentsize >= U64_RANGE then None
    else ParseProgramHeader(data, h.phoff + i * h.phentsize)
  }

  /** The range checks on one PT_LOAD segment. */
  predicate Loadable(kernel: seq<byte>, ph: Phdr) {
    && (ph.filesz > 0 ==> ph.offset + ph.filesz <= |kernel| && ph.offset + ph.filesz < U64_RANGE)
    && (ph.memsz > ph.filesz ==> ph.paddr + ph.filesz < U64_RANGE)
    && ph.paddr + ph.memsz < U64_RANGE
  }

  /** The PT_LOAD segments among the first `n` program headers, if all of them are sound. */
  function LoadsUpTo(kernel: seq<byte>, h: Header, n: nat): (r: Option<seq<Phdr>>)
    ensures r.Some? ==> forall i :: 0 <= i < |r.value| ==> Loadable(kernel, r.value[i]) && r.value[i].paddr < U64_RANGE
  {
    if n == 0 then Some([])
    else
      var before := LoadsUpTo(kernel, h, n - 1);
      var ph := PhdrAt(kernel, h, n - 1);
      if before.None? || ph.None? then None
      else if ph.value.ty != PT_LOAD then before
      else if Loadable(kernel, ph.value) then Some(before.value + [ph.value])
      else None
  }

  /** All segments of a kernel image; `None` if the image is refused whatever the memory. */
  function Loads(kernel: seq<byte>): (r: Option<seq<Phdr>>)
    ensures r.Some? ==> r.value != [] && ParseElfHeader(kernel).Some?
    ensures r.Some? ==> forall i :: 0 <= i < |r.value| ==> Loadable(kernel, r.value[i]) && r.value[i].paddr < U64_RANGE
  {
    var h := ParseElfHeader(kernel);
    if h.None? then None
    else
      var loads := LoadsUpTo(kernel, h.value, h.value.phnum);
      if loads.Some? && loads.value != [] then loads else None
  }

  /** File bytes, then zeroes up to the memory size. */
  function SegmentWrites(kernel: seq<byte>, ph: Phdr): seq<MemWrite>
    requires Loadable(kernel, ph)
  {
    (if ph.filesz > 0 then [MemWrite(ph.paddr, kernel[ph.offset..ph.offset + ph.filesz])] else []) +
    (if ph.memsz > ph.filesz then [MemWrite(ph.paddr + ph.filesz, Zeroes(ph.memsz - ph.filesz))] else [])
  }

  ghost predicate AllLoadable(kernel: seq<byte>, loads: seq<Phdr>) {
    forall i :: 0 <= i < |loads| ==> Loadable(kernel, loads[i])
  }

  function ElfWrites(kernel: seq<byte>, loads: seq<Phdr>): seq<MemWrite>
    requires AllLoadable(kernel, loads)
  {
    if loads == [] then []
    else ElfWrites(kernel, loads[..|loads| - 1]) + SegmentWrites(kernel, loads[|loads| - 1])
  }

  function MinStart(loads: seq<Phdr>): (m: nat)
    requires loads != []
    ensures forall i :: 0 <= i < |loads| ==> m <= loads[i].paddr
    ensures exists i :: 0 <= i < |loads| && m == loads[i].paddr
  {
    var last := loads[|loads| - 1];
    assert forall i :: 0 <= i < |loads| - 1 ==> loads[i] == loads[..|loads| - 1][i];
    if |loads| == 1 then last.paddr else Min(MinStart(loads[..|loads| - 1]), last.paddr)
  }

  function MaxEnd(loads: seq<Phdr>): (m: nat)
    ensures forall i :: 0 <= i < |loads| ==> loads[i].paddr + loads[i].memsz <= m
    ensures loads != [] ==> exists i :: 0 <= i < |loads| && m == loads[i].paddr + loads[i].memsz
  {
    if loads == [] then 0
    else
      var last := loads[|loads| - 1];
      assert forall i :: 0 <= i < |loads| - 1 ==> loads[i] == loads[..|loads| - 1][i];
      Max(MaxEnd(loads[..|loads| - 1]), last.paddr + last.memsz)
  }

  /** Guest memory takes both writes of a segment. */
  ghost predicate Accepts(rs: seq<RegionVal>, ph: Phdr) {
    && (ph.filesz > 0 ==> Inside(rs, ph.paddr, ph.filesz))
    && (ph.memsz > ph.filesz ==> ChunksInside(rs, ph.paddr + ph.filesz, ph.memsz - ph.filesz, ph.memsz - ph.filesz))
  }

  ghost predicate AcceptsAll(rs: seq<RegionVal>, loads: seq<Phdr>) {
    forall i :: 0 <= i < |loads| ==> Accepts(rs, loads[i])
  }

  // ---- What the writes amount to ----------------------------------------------------------

  predicate InSegment(ph: Phdr, a: nat) {
    ph.paddr <= a < ph.paddr + Max(ph.filesz, ph.memsz)
  }

  lemma SegmentCovers(kernel: seq<byte>, ph: Phdr, a: nat)
    requires Loadable(kernel, ph)
    ensures LastByte(SegmentWrites(kernel, ph), a) ==
            if !InSegment(ph, a) then None
            else if a < ph.paddr + ph.filesz then Some(kernel[ph.offset + (a - ph.paddr)])
            else Some(0)
  {
    hide LastByte;
    var first := MemWrite(ph.paddr, if ph.filesz > 0 then kernel[ph.offset..ph.offset + ph.filesz] else []);
    var second := MemWrite(ph.paddr + ph.filesz, if ph.memsz > ph.filesz then Zeroes(ph.memsz - ph.filesz) else []);
    var file := if ph.filesz > 0 then [first] else [];
    var bss := if ph.memsz > ph.filesz then [second] else [];
    LastByteConcat(file, bss, a);
    LastByteOne(first, a);
    LastByteOne(second, a);
    LastByteNone([], a);
  }

  /** The loader touches exactly the addresses of the segments. */
  lemma {:induction false} ElfFootprint(kernel: seq<byte>, loads: seq<Phdr>, a: nat)
    requires AllLoadable(kernel, loads)
    ensures LastByte(ElfWrites(kernel, loads), a).Some? <==> exists i :: 0 <= i < |loads| && InSegment(loads[i], a)
  {
    hide LastByte, SegmentWrites, Loadable;
    if loads == [] {
      LastByteNone([], a);
    } else {
      var n := |loads| - 1;
      ElfFootprint(kernel, loads[..n], a);
      SegmentCovers(kernel, loads[n], a);
      LastByteConcat(ElfWrites(kernel, loads[..n]), SegmentWrites(kernel, loads[n]), a);
      assert forall i :: 0 <= i < n ==> loads[..n][i] == loads[i];
    }
  }

  ghost predicate DisjointSegments(loads: seq<Phdr>) {
    forall i, j, a :: 0 <= i < |loads| && 0 <= j < |loads| && InSegment(loads[i], a) && InSegment(loads[j], a) ==> i == j
  }

  /** With disjoint segments, each holds its file bytes and then zeroes. */
  lemma {:induction false} SegmentContents(kernel: seq<byte>, loads: seq<Phdr>, k: nat, a: nat)
    requires AllLoadable(kernel, loads) && DisjointSegments(loads) && k < |loads| && InSegment(loads[k], a)
    ensures var ph := loads[k];
            LastByte(ElfWrites(kernel, loads), a) ==
            if a < ph.paddr + ph.filesz then Some(kernel[ph.offset + (a - ph.paddr)]) else Some(0)
  {
    hide LastByte, SegmentWrites, Loadable;
    var n := |loads| - 1;
    LastByteConcat(ElfWrites(kernel, loads[..n]), SegmentWrites(kernel, loads[n]), a);
    SegmentCovers(kernel, loads[n], a);
    if k < n {
      assert loads[..n][k] == loads[k];
      SegmentContents(kernel, loads[..n], k, a);
    }
  }

  /** Loading an image a second time leaves every byte as it was, overlapping segments included. */
  lemma LoadTwiceIsLoadOnce(kernel: seq<byte>, loads: seq<Phdr>, rs: seq<RegionVal>, once: seq<RegionVal>, twice: seq<RegionVal>)
    requires AllLoadable(kernel, loads)
    requires Applied(rs, once, ElfWrites(kernel, loads)) && Applied(once, twice, ElfWrites(kernel, loads))
    ensures forall a: nat :: ByteAt(twice, a) == ByteAt(once, a)
  {
    hide ByteAt, LastByte;
  }

  // ---- The loader -------------------------------------------------------------------------

  lemma {:induction false} LoadsUpToMonotone(kernel: seq<byte>, h: Header, m: nat, n: nat)
    requires m <= n && LoadsUpTo(kernel, h, n).Some?
    ensures LoadsUpTo(kernel, h, m).Some? && LoadsUpTo(kernel, h, m).value <= LoadsUpTo(kernel, h, n).value
  {
    if m < n {
      LoadsUpToMonotone(kernel, h, m, n - 1);
    }
  }

  lemma ElfWritesSnoc(kernel: seq<byte>, loads: seq<Phdr>, ph: Phdr)
    requires AllLoadable(kernel, loads) && Loadable(kernel, ph)
    ensures AllLoadable(kernel, loads + [ph])
    ensures ElfWrites(kernel, loads + [ph]) == ElfWrites(kernel, loads) + SegmentWrites(kernel, ph)
  {
    assert (loads + [ph])[..|loads|] == loads;
  }

  lemma AcceptanceKept(rs: seq<RegionVal>, rs': seq<RegionVal>, gpa: nat, len: nat)
    requires SameShape(rs, rs')
    ensures Inside(rs', gpa, len) <==> Inside(rs, gpa, len)
  {
    if i :| 0 <= i < |rs| && rs[i].start <= gpa && gpa + len <= rs[i].End() && gpa < rs[i].End() {
      assert rs'[i].start <= gpa && gpa + len <= rs'[i].End() && gpa < rs'[i].End();
    }
    if i :| 0 <= i < |rs'| && rs'[i].start <= gpa && gpa + len <= rs'[i].End() && gpa < rs'[i].End() {
      assert rs[i].start <= gpa && gpa + len <= rs[i].End() && gpa < rs[i].End();
    }
  }

  /** The file copy of one segment. */
  method CopyFileBytes(kernel: seq<byte>, ph: Phdr, mem: GuestMemory, ghost rs: seq<RegionVal>) returns (ok: bool)
    requires mem.Valid() && Loadable(kernel, ph) && ph.filesz > 0 && SameShape(rs, mem.Snapshot())
    modifies mem.Repr()
    ensures mem.Valid() && SameShape(rs, mem.Snapshot())
    ensures ok <==> Inside(rs, ph.paddr, ph.filesz)
    ensures ok ==> Wrote(old(mem.Snapshot()), mem.Snapshot(), ph.paddr, kernel[ph.offset..ph.offset + ph.filesz])
  {
    hide ByteAt, Inside;
    var data := kernel[ph.offset..ph.offset + ph.filesz];
    ghost var before := mem.Snapshot();
    mem.SnapshotLayout();
    LocateIffInside(before, ph.paddr, |data|);
    AcceptanceKept(rs, before, ph.paddr, |data|);
    if WriteVal(before, ph.paddr, data).Ok? {
      WriteFrames(before, ph.paddr, data);
    }
    var w := mem.WriteSlice(ph.paddr, data);
    ok := w.Ok?;
  }

  lemma ChunksKept(rs: seq<RegionVal>, rs': seq<RegionVal>, gpa: nat, len: nat, done: nat)
    requires SameShape(rs, rs') && done <= len
    ensures ChunksInside(rs', gpa, len, done) <==> ChunksInside(rs, gpa, len, done)
  {
    hide Inside;
    forall k: nat | k * CHUNK_SIZE < done
      ensures Inside(rs', gpa + k * CHUNK_SIZE, Min(len - k * CHUNK_SIZE, CHUNK_SIZE)) <==>
              Inside(rs, gpa + k * CHUNK_SIZE, Min(len - k * CHUNK_SIZE, CHUNK_SIZE))
    {
      AcceptanceKept(rs, rs', gpa + k * CHUNK_SIZE, Min(len - k * CHUNK_SIZE, CHUNK_SIZE));
    }
  }

  lemma ChunkRefused(rs: seq<RegionVal>, gpa: nat, len: nat, done: nat)
    requires done < len && done % CHUNK_SIZE == 0 && !Inside(rs, gpa + done, Min(len - done, CHUNK_SIZE))
    ensures !ChunksInside(rs, gpa, len, len)
  {
    hide Inside;
    var k := done / CHUNK_SIZE;
    assert k * CHUNK_SIZE == done;
  }

  /** The zero fill of one segment. */
  method FillBss(ph: Phdr, mem: GuestMemory, ghost rs: seq<RegionVal>) returns (ok: bool)
    requires mem.Valid() && ph.memsz > ph.filesz && ph.paddr + ph.filesz < U64_RANGE && SameShape(rs, mem.Snapshot())
    modifies mem.Repr()
    ensures mem.Valid() && SameShape(rs, mem.Snapshot())
    ensures ok <==> ChunksInside(rs, ph.paddr + ph.filesz, ph.memsz - ph.filesz, ph.memsz - ph.filesz)
    ensures ok ==> Wrote(old(mem.Snapshot()), mem.Snapshot(), ph.paddr + ph.filesz, Zeroes(ph.memsz - ph.filesz))
  {
    hide ByteAt, Inside, ChunksInside;
    var start, len := ph.paddr + ph.filesz, ph.memsz - ph.filesz;
    ghost var before := mem.Snapshot();
    ChunksKept(rs, before, start, len, len);
    var w, done := mem.WriteZeroes(start, len);
    ok := w.Ok?;
    if !ok {
      ChunkRefused(before, start, len, done);
    }
  }

  /** Both writes of one segment. */
  method LoadOne(kernel: seq<byte>, ph: Phdr, mem: GuestMemory, ghost rs: seq<RegionVal>, ghost log: seq<MemWrite>) returns (ok: bool)
    requires mem.Valid() && Loadable(kernel, ph) && Applied(rs, mem.Snapshot(), log)
    modifies mem.Repr()
    ensures mem.Valid() && SameShape(rs, mem.Snapshot())
    ensures ok <==> Accepts(rs, ph)
    ensures ok ==> Applied(rs, mem.Snapshot(), log + SegmentWrites(kernel, ph))
  {
    hide ByteAt, LastByte, Inside, ChunksInside, Wrote;
    ghost var log' := log;
    if ph.filesz > 0 {
      ghost var before := mem.Snapshot();
      ok := CopyFileBytes(kernel, ph, mem, rs);
      if !ok {
        return false;
      }
      ghost var w := MemWrite(ph.paddr, kernel[ph.offset..ph.offset + ph.filesz]);
      AppliedWrite(rs, before, mem.Snapshot(), log, w);
      log' := log + [w];
    }
    if ph.memsz > ph.filesz {
      ghost var before := mem.Snapshot();
      ok := FillBss(ph, mem, rs);
      if !ok {
        return false;
      }
      ghost var w := MemWrite(ph.paddr + ph.filesz, Zeroes(ph.memsz - ph.filesz));
      AppliedWrite(rs, before, mem.Snapshot(), log', w);
      log' := log' + [w];
    }
    assert log' == log + SegmentWrites(kernel, ph);
    return true;
  }

  /**
   * `load_elf`: succeeds exactly when the image is sound and every segment is accepted by guest
   * memory, and then has performed exactly the writes of the segments.
   */
  method LoadElf(kernel: seq<byte>, mem: GuestMemory) returns (r: Option<KernelLoadResult>)
    requires mem.Valid()
    modifies mem.Repr()
    ensures mem.Valid() && SameShape(old(mem.Snapshot()), mem.Snapshot())
    ensures r.Some? <==> Loads(kernel).Some? && AcceptsAll(old(mem.Snapshot()), Loads(kernel).value)
    ensures r.Some? ==>
              && Applied(old(mem.Snapshot()), mem.Snapshot(), ElfWrites(kernel, Loads(kernel).value))
              && r.value == KernelLoadResult(MinStart(Loads(kernel).value), MaxEnd(Loads(kernel).value),
                                             ParseElfHeader(kernel).value.entry)
  {
    hide ByteAt, LastByte, Accepts, Applied, SegmentWrites, ElfWrites, ParseElfHeader, PhdrAt, MinStart, MaxEnd, Sorted;
    var header := ParseElfHeader(kernel);
    if header.None? {
      return None;
    }
    var h := header.value;
    ghost var rs := mem.Snapshot();
    AppliedNothing(rs);
    NoWrites(kernel);
    var loads, minAddr, maxAddr := [], None, 0;
    for i := 0 to h.phnum
      invariant mem.Valid() && SameShape(rs, mem.Snapshot())
      invariant LoadsUpTo(kernel, h, i) == Some(loads)
      invariant AllLoadable(kernel, loads)
      invariant AcceptsAll(rs, loads)
      invariant Applied(rs, mem.Snapshot(), ElfWrites(kernel, loads))
      invariant minAddr == if loads == [] then None else Some(MinStart(loads))
      invariant maxAddr == MaxEnd(loads)
    {
      var parsed := PhdrAt(kernel, h, i);
      if parsed.None? || (parsed.value.ty == PT_LOAD && !Loadable(kernel, parsed.value)) {
        RefusedHeader(kernel, h, i);
        return None;
      }
      var ph := parsed.value;
      if ph.ty == PT_LOAD {
        var ok := LoadOne(kernel, ph, mem, rs, ElfWrites(kernel, loads));
        if !ok {
          RefusedSegment(kernel, h, i, rs);
          return None;
        }
        ElfWritesSnoc(kernel, loads, ph);
        BoundsSnoc(loads, ph);
        minAddr := Some(if minAddr.None? then ph.paddr else Min(minAddr.value, ph.paddr));
        maxAddr := Max(maxAddr, ph.paddr + ph.memsz);
        loads := loads + [ph];
      }
    }
    if loads == [] {
      return None;
    }
    return Some(KernelLoadResult(minAddr.value, maxAddr, h.entry));
  }

  /** A bad program header refuses the whole image. */
  lemma RefusedHeader(kernel: seq<byte>, h: Header, i: nat)
    requires ParseElfHeader(kernel) == Some(h) && i < h.phnum && LoadsUpTo(kernel, h, i + 1).None?
    ensures Loads(kernel).None?
  {
    hide LoadsUpTo;
    if Loads(kernel).Some? {
      LoadsUpToMonotone(kernel, h, i + 1, h.phnum);
    }
  }

  /** A segment that memory does not accept refuses the load. */
  lemma RefusedSegment(kernel: seq<byte>, h: Header, i: nat, rs: seq<RegionVal>)
    requires ParseElfHeader(kernel) == Some(h) && i < h.phnum
    requires LoadsUpTo(kernel, h, i + 1).Some? && LoadsUpTo(kernel, h, i + 1).value != []
    requires var loads := LoadsUpTo(kernel, h, i + 1).value; !Accepts(rs, loads[|loads| - 1])
    ensures Loads(kernel).None? || !AcceptsAll(rs, Loads(kernel).value)
  {
    hide LoadsUpTo, Accepts;
    if Loads(kernel).Some? {
      LoadsUpToMonotone(kernel, h, i + 1, h.phnum);
      var loads := LoadsUpTo(kernel, h, i + 1).value;
      assert Loads(kernel).value[|loads| - 1] == loads[|loads| - 1];
    }
  }

  lemma NoWrites(kernel: seq<byte>)
    ensures ElfWrites(kernel, []) == [] && MaxEnd([]) == 0
  {
  }

  lemma BoundsSnoc(loads: seq<Phdr>, ph: Phdr)
    ensures MinStart(loads + [ph]) == if loads == [] then ph.paddr else Min(MinStart(loads), ph.paddr)
    ensures MaxEnd(loads + [ph]) == Max(MaxEnd(loads), ph.paddr + ph.memsz)
  {
    assert (loads + [ph])[..|loads|] == loads;
  }

  // ---- What an image asks for, read off its bytes ---------------------------------------------

  /** `n` bytes at `at` hold `value`, least significant first. */
  predicate Holds(k: seq<byte>, at: nat, n: nat, value: nat) {
    at + n <= |k| && k[at..at + n] == ToLe(value, n)
  }

  /** A 64-bit little-endian x86-64 ELF header with the given entry point and program header table. */
  predicate HeaderSays(k: seq<byte>, entry: nat, phoff: nat, phentsize: nat, phnum: nat) {
    && |k| >= 64 && k[..6] == [0x7F, 0x45, 0x4C, 0x46, 2, 1]
    && Holds(k, 18, 2, 62) && Holds(k, 24, 8, entry) && Holds(k, 32, 8, phoff)
    && Holds(k, 54, 2, phentsize) && Holds(k, 56, 2, phnum)
  }

  /** A program header stands at `at`. */
  predicate PhdrStands(k: seq<byte>, at: nat, ph: Phdr) {
    && at + 56 <= |k|
    && Holds(k, at, 4, ph.ty) && Holds(k, at + 8, 8, ph.offset) && Holds(k, at + 24, 8, ph.paddr)
    && Holds(k, at + 32, 8, ph.filesz) && Holds(k, at + 40, 8, ph.memsz)
  }

  /** The fields fit their width in the file. */
  predicate InRange(ph: Phdr) {
    ph.ty < U32_RANGE && ph.offset < U64_RANGE && ph.paddr < U64_RANGE && ph.filesz < U64_RANGE && ph.memsz < U64_RANGE
  }

  /** The program headers `phs` stand in the image, one after the other. */
  ghost predicate Describes(k: seq<byte>, entry: nat, phoff: nat, phentsize: nat, phs: seq<Phdr>) {
    && |k| < U64_RANGE && entry < U64_RANGE && phoff < U64_RANGE && phentsize < 0x1_0000 && |phs| < 0x1_0000
    && HeaderSays(k, entry, phoff, phentsize, |phs|)
    && forall i :: 0 <= i < |phs| ==> InRange(phs[i]) && PhdrStands(k, phoff + i * phentsize, phs[i])
  }

  /** Those with type 1, in order. */
  function PtLoads(phs: seq<Phdr>): seq<Phdr> {
    if phs == [] then []
    else if phs[|phs| - 1].ty == 1 then PtLoads(phs[..|phs| - 1]) + [phs[|phs| - 1]]
    else PtLoads(phs[..|phs| - 1])
  }

  /** Its file bytes are in the file and its end is a 64-bit address. */
  predicate SegmentSound(k: seq<byte>, ph: Phdr) {
    (ph.filesz > 0 ==> ph.offset + ph.filesz <= |k|) && ph.paddr + ph.memsz < 0x1_0000_0000_0000_0000
  }

  lemma HeldIsRead(k: seq<byte>, at: nat, n: nat, value: nat)
    requires Holds(k, at, n, value) && value < Pow256(n)
    ensures ReadLe(k, at, n) == Some(value)
  {
    LeRoundTrip(value, n);
  }

  lemma HeaderRead(k: seq<byte>, entry: nat, phoff: nat, phentsize: nat, phnum: nat)
    requires HeaderSays(k, entry, phoff, phentsize, phnum)
    requires entry < U64_RANGE && phoff < U64_RANGE && phentsize < 0x1_0000 && phnum < 0x1_0000
    ensures ParseElfHeader(k) == Some(Header(entry, phoff, phentsize, phnum))
  {
    hide ReadLe, Holds;
    Pow256Values();
    hide Pow256;
    HeldIsRead(k, 18, 2, 62);
    HeldIsRead(k, 24, 8, entry);
    HeldIsRead(k, 32, 8, phoff);
    HeldIsRead(k, 54, 2, phentsize);
    HeldIsRead(k, 56, 2, phnum);
    assert k[..4] == k[..6][..4] && k[4] == k[..6][4] && k[5] == k[..6][5];
  }

  lemma PhdrRead(k: seq<byte>, at: nat, ph: Phdr)
    requires PhdrStands(k, at, ph) && InRange(ph)
    ensures ParseProgramHeader(k, at) == Some(ph)
  {
    hide ReadLe, Holds;
    Pow256Values();
    hide Pow256;
    HeldIsRead(k, at, 4, ph.ty);
    HeldIsRead(k, at + 8, 8, ph.offset);
    HeldIsRead(k, at + 24, 8, ph.paddr);
    HeldIsRead(k, at + 32, 8, ph.filesz);
    HeldIsRead(k, at + 40, 8, ph.memsz);
  }

  lemma SoundIsLoadable(k: seq<byte>, ph: Phdr)
    requires |k| < U64_RANGE && InRange(ph)
    ensures Loadable(k, ph) <==> SegmentSound(k, ph)
  {
  }

  ghost predicate AllSound(k: seq<byte>, phs: seq<Phdr>) {
    forall i :: 0 <= i < |phs| && phs[i].ty == 1 ==> SegmentSound(k, phs[i])
  }

  /** Header `i` is read where it stands. */
  lemma DescribedAt(k: seq<byte>, entry: nat, phoff: nat, phentsize: nat, phs: seq<Phdr>, i: nat)
    requires Describes(k, entry, phoff, phentsize, phs) && i < |phs|
    ensures PhdrAt(k, Header(entry, phoff, phentsize, |phs|), i) == Some(phs[i])
    ensures Loadable(k, phs[i]) <==> SegmentSound(k, phs[i])
  {
    hide ParseProgramHeader, PhdrStands, HeaderSays, Loadable, SegmentSound, InRange;
    var at := phoff + i * phentsize;
    PhdrRead(k, at, phs[i]);
    PhdrInside(k, at, phs[i]);
    SoundIsLoadable(k, phs[i]);
  }

  lemma {:induction false} DescribedUpTo(k: seq<byte>, entry: nat, phoff: nat, phentsize: nat, phs: seq<Phdr>, n: nat)
    requires Describes(k, entry, phoff, phentsize, phs) && n <= |phs|
    ensures LoadsUpTo(k, Header(entry, phoff, phentsize, |phs|), n) ==
            if AllSound(k, phs[..n]) then Some(PtLoads(phs[..n])) else None
  {
    hide Describes, PhdrAt, Loadable, SegmentSound, AllSound;
    if n > 0 {
      DescribedUpTo(k, entry, phoff, phentsize, phs, n - 1);
      DescribedAt(k, entry, phoff, phentsize, phs, n - 1);
      assert phs[..n][..n - 1] == phs[..n - 1] && phs[..n][n - 1] == phs[n - 1];
      SoundSnoc(k, phs, n);
    } else {
      SoundNone(k, phs[..n]);
    }
  }

  lemma SoundNone(k: seq<byte>, phs: seq<Phdr>)
    requires phs == []
    ensures AllSound(k, phs)
  {
  }

  lemma PhdrInside(k: seq<byte>, at: nat, ph: Phdr)
    requires PhdrStands(k, at, ph)
    ensures at < |k|
  {
  }

  lemma SoundSnoc(k: seq<byte>, phs: seq<Phdr>, n: nat)
    requires 0 < n <= |phs|
    ensures AllSound(k, phs[..n]) <==> AllSound(k, phs[..n - 1]) && (phs[n - 1].ty == 1 ==> SegmentSound(k, phs[n - 1]))
  {
    hide SegmentSound;
    assert forall i :: 0 <= i < n - 1 ==> phs[..n][i] == phs[..n - 1][i];
    assert phs[..n][n - 1] == phs[n - 1];
    var front := phs[..n - 1];
    if AllSound(k, phs[..n]) {
      forall i | 0 <= i < |front| && front[i].ty == 1 ensures SegmentSound(k, front[i]) {
        assert phs[..n][i].ty == 1;
      }
    }
  }

  /**
   * For every list of program headers that an image holds, wherever its table is and however far
   * apart its entries: the image asks for exactly the PT_LOAD ones, in order; it is refused if one
   * of these fails its range check or there is none.
   */
  lemma LoadsAreThePtLoads(k: seq<byte>, entry: nat, phoff: nat, phentsize: nat, phs: seq<Phdr>)
    requires Describes(k, entry, phoff, phentsize, phs)
    ensures Loads(k) == if AllSound(k, phs) && PtLoads(phs) != [] then Some(PtLoads(phs)) else None
    ensures ParseElfHeader(k).Some? && ParseElfHeader(k).value.entry == entry
  {
    hide ParseElfHeader, LoadsUpTo, HeaderSays, PhdrStands, AllSound;
    HeaderRead(k, entry, phoff, phentsize, |phs|);
    DescribedUpTo(k, entry, phoff, phentsize, phs, |phs|);
    assert phs[..|phs|] == phs;
  }

  /** A program header that runs past the end of the file refuses the image. */
  lemma CutTableRefused(k: seq<byte>, entry: nat, phoff: nat, phentsize: nat, phnum: nat, i: nat)
    requires HeaderSays(k, entry, phoff, phentsize, phnum)
    requires entry < U64_RANGE && phoff < U64_RANGE && phentsize < 0x1_0000 && phnum < 0x1_0000
    requires i < phnum && |k| < phoff + i * phentsize + 56
    ensures Loads(k).None?
  {
    hide ParseElfHeader, HeaderSays;
    HeaderRead(k, entry, phoff, phentsize, phnum);
    RefusedHeader(k, Header(entry, phoff, phentsize, phnum), i);
  }

  /** Nothing but a 64-bit little-endian x86-64 ELF image is loaded. */
  lemma OnlyElfIsLoaded(k: seq<byte>)
    requires Loads(k).Some?
    ensures |k| >= 64 && k[..6] == [0x7F, 0x45, 0x4C, 0x46, 2, 1] && k[18] == 62 && k[19] == 0
  {
    assert k[..6] == k[..4] + [k[4], k[5]];
    var m := k[18..20];
    assert FromLe(m) == m[0] as nat + 256 * (m[1] as nat + 256 * FromLe(m[1..][1..]));
  }

  // ---- Images built from their segments ---------------------------------------------------------

  function PhdrBytes(ph: Phdr): (s: seq<byte>)
    ensures |s| == 56
  {
    ToLe(ph.ty, 4) + Zeroes(4) + ToLe(ph.offset, 8) + Zeroes(8) + ToLe(ph.paddr, 8) +
    ToLe(ph.filesz, 8) + ToLe(ph.memsz, 8) + Zeroes(8)
  }

  /** The program header table; entries are `56 + gap` bytes apart. */
  function Table(phs: seq<Phdr>, gap: nat): (s: seq<byte>)
    ensures |s| == |phs| * (56 + gap)
  {
    if phs == [] then []
    else Table(phs[..|phs| - 1], gap) + (PhdrBytes(phs[|phs| - 1]) + Zeroes(gap))
  }

  function HeaderBytes(entry: nat, phentsize: nat, phnum: nat): (s: seq<byte>)
    ensures |s| == 64
  {
    [0x7F, 0x45, 0x4C, 0x46, 2, 1] + Zeroes(12) + ToLe(62, 2) + Zeroes(4) + ToLe(entry, 8) + ToLe(64, 8) +
    Zeroes(14) + ToLe(phentsize, 2) + ToLe(phnum, 2) + Zeroes(6)
  }

  /** Header, table, and then any bytes. */
  function ElfImage(entry: nat, phs: seq<Phdr>, gap: nat, body: seq<byte>): (k: seq<byte>)
    ensures |k| == 64 + |phs| * (56 + gap) + |body|
  {
    HeaderBytes(entry, 56 + gap, |phs|) + Table(phs, gap) + body
  }

  lemma HeldInFront(front: seq<byte>, rest: seq<byte>, at: nat, n: nat, value: nat)
    requires Holds(front, at, n, value)
    ensures Holds(front + rest, at, n, value)
  {
    assert (front + rest)[at..at + n] == front[at..at + n];
  }

  lemma HeldBehind(front: seq<byte>, rest: seq<byte>, at: nat, n: nat, value: nat)
    requires Holds(rest, at, n, value)
    ensures Holds(front + rest, |front| + at, n, value)
  {
    assert (front + rest)[|front| + at..|front| + at + n] == rest[at..at + n];
  }

  lemma HeaderBytesSay(entry: nat, phentsize: nat, phnum: nat, rest: seq<byte>)
    ensures HeaderSays(HeaderBytes(entry, phentsize, phnum) + rest, entry, 64, phentsize, phnum)
  {
    hide ToLe;
    var h := HeaderBytes(entry, phentsize, phnum);
    assert h[18..20] == ToLe(62, 2) && h[24..32] == ToLe(entry, 8) && h[32..40] == ToLe(64, 8);
    assert h[54..56] == ToLe(phentsize, 2) && h[56..58] == ToLe(phnum, 2);
    HeldInFront(h, rest, 18, 2, 62);
    HeldInFront(h, rest, 24, 8, entry);
    HeldInFront(h, rest, 32, 8, 64);
    HeldInFront(h, rest, 54, 2, phentsize);
    HeldInFront(h, rest, 56, 2, phnum);
    assert (h + rest)[..6] == [0x7F, 0x45, 0x4C, 0x46, 2, 1];
  }

  lemma PhdrBytesStand(front: seq<byte>, ph: Phdr, rest: seq<byte>)
    ensures PhdrStands(front + (PhdrBytes(ph) + rest), |front|, ph)
  {
    hide ToLe;
    var p := PhdrBytes(ph);
    var s := p + rest;
    assert p[0..4] == ToLe(ph.ty, 4) && p[8..16] == ToLe(ph.offset, 8) && p[24..32] == ToLe(ph.paddr, 8);
    assert p[32..40] == ToLe(ph.filesz, 8) && p[40..48] == ToLe(ph.memsz, 8);
    HeldInFront(p, rest, 0, 4, ph.ty);
    HeldBehind(front, s, 0, 4, ph.ty);
    HeldInFront(p, rest, 8, 8, ph.offset);
    HeldBehind(front, s, 8, 8, ph.offset);
    HeldInFront(p, rest, 24, 8, ph.paddr);
    HeldBehind(front, s, 24, 8, ph.paddr);
    HeldInFront(p, rest, 32, 8, ph.filesz);
    HeldBehind(front, s, 32, 8, ph.filesz);
    HeldInFront(p, rest, 40, 8, ph.memsz);
    HeldBehind(front, s, 40, 8, ph.memsz);
  }

  lemma {:induction false} TableStands(front: seq<byte>, phs: seq<Phdr>, gap: nat, rest: seq<byte>, i: nat)
    requires i < |phs|
    ensures PhdrStands(front + Table(phs, gap) + rest, |front| + i * (56 + gap), phs[i])
  {
    hide PhdrStands, PhdrBytes;
    var n := |phs| - 1;
    var t, last := Table(phs[..n], gap), PhdrBytes(phs[n]) + Zeroes(gap);
    if i == n {
      PhdrBytesStand(front + t, phs[n], Zeroes(gap) + rest);
      assert front + Table(phs, gap) + rest == (front + t) + (PhdrBytes(phs[n]) + (Zeroes(gap) + rest));
    } else {
      TableStands(front, phs[..n], gap, last + rest, i);
      assert front + Table(phs, gap) + rest == front + t + (last + rest);
    }
  }

  /** Every such image holds its program headers. */
  lemma ImageDescribes(entry: nat, phs: seq<Phdr>, gap: nat, body: seq<byte>)
    requires entry < U64_RANGE && 56 + gap < 0x1_0000 && |phs| < 0x1_0000 && 64 + |phs| * (56 + gap) + |body| < U64_RANGE
    requires forall i :: 0 <= i < |phs| ==> InRange(phs[i])
    ensures Describes(ElfImage(entry, phs, gap, body), entry, 64, 56 + gap, phs)
  {
    hide PhdrStands, HeaderSays, Table, HeaderBytes, InRange;
    var h := HeaderBytes(entry, 56 + gap, |phs|);
    HeaderBytesSay(entry, 56 + gap, |phs|, Table(phs, gap) + body);
    assert h + (Table(phs, gap) + body) == ElfImage(entry, phs, gap, body);
    forall i | 0 <= i < |phs| ensures PhdrStands(ElfImage(entry, phs, gap, body), 64 + i * (56 + gap), phs[i]) {
      TableStands(h, phs, gap, body, i);
    }
  }

  /** So for every list of program headers there is an image, and it asks for the PT_LOAD ones. */
  lemma ImageLoads(entry: nat, phs: seq<Phdr>, gap: nat, body: seq<byte>)
    requires entry < U64_RANGE && 56 + gap < 0x1_0000 && |phs| < 0x1_0000 && 64 + |phs| * (56 + gap) + |body| < U64_RANGE
    requires forall i :: 0 <= i < |phs| ==> InRange(phs[i])
    ensures var k := ElfImage(entry, phs, gap, body);
            && Loads(k) == (if AllSound(k, phs) && PtLoads(phs) != [] then Some(PtLoads(phs)) else None)
            && ParseElfHeader(k).Some? && ParseElfHeader(k).value.entry == entry
  {
    hide Describes, Loads, ElfImage, AllSound, PtLoads, ParseElfHeader;
    ImageDescribes(entry, phs, gap, body);
    LoadsAreThePtLoads(ElfImage(entry, phs, gap, body), entry, 64, 56 + gap, phs);
  }

  /** An image that loads `data` at `addr`, followed by `bss` zero bytes. */
  function SegmentImage(addr: nat, data: seq<byte>, bss: nat): (k: seq<byte>)
    ensures |k| == 120 + |data|
  {
    ElfImage(addr, [Phdr(PT_LOAD, 120, addr, |data|, |data| + bss)], 0, data)
  }

  /** Such an image asks for its segment and nothing else. */
  lemma SegmentImageLoads(addr: nat, data: seq<byte>, bss: nat)
    requires addr + |data| + bss < U64_RANGE && 120 + |data| < U64_RANGE
    ensures var k := SegmentImage(addr, data, bss);
            Loads(k) == Some([Phdr(PT_LOAD, 120, addr, |data|, |data| + bss)]) && ParseElfHeader(k).value.entry == addr
  {
    hide Loads, ElfImage, ParseElfHeader;
    var ph := Phdr(PT_LOAD, 120, addr, |data|, |data| + bss);
    ImageLoads(addr, [ph], 0, data);
    assert [ph][..0] == [];
    assert PtLoads([ph]) == [] + [ph] && [] + [ph] == [ph];
  }
}
