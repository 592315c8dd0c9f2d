/**
 * The guest memory image that `boot_and_run` builds before the first vCPU runs: page tables,
 * kernel, initramfs, boot_params, ACPI tables, command line and GDT, and then the kernel again.
 *
 * boot_params, the ACPI tables, the command line and the GDT entries are byte strings of known
 * address and length.
 */
module BootImage {
  import opened Bytes
  import opened GuestMem
  import opened WriteLog
  import opened PageTables
  import opened ElfLoader

  const GDT_GPA: nat := 0x500
  const BOOT_PARAMS_GPA: nat := 0x7000
  const CMDLINE_GPA: nat := 0x2_0000
  const RSDP_GPA: nat := 0xE_0000
  const XSDT_GPA: nat := 0xE_1000
  const MADT_GPA: nat := 0xE_2000
  const KERNEL_LOAD_GPA: nat := 0x10_0000
  const MIB: nat := 0x10_0000
  const VIRTIO_MMIO_BASE: nat := 0xD000_0000
  const VIRTIO_MMIO_SIZE: nat := 0x1000

  /** What the boot pipeline is given, with the byte strings it derives. */
  datatype Input = Input(
    ramMib: nat, cpus: nat, kernel: seq<byte>, initramfs: Option<seq<byte>>,
    bootParams: seq<byte>, bootParamsAcpi: seq<byte>,
    rsdp: seq<byte>, xsdt: seq<byte>, madt: seq<byte>,
    cmdline: seq<byte>, gdt: seq<seq<byte>>)
  {
    function RamBytes(): nat { ramMib * MIB }

    function GibCount(): nat { Max((ramMib + 1023) / 1024, 1) }

    /** Sizes the builders guarantee; the command line ends in NUL and is UTF-8. */
    predicate Sized() {
      && ramMib < U32_RANGE && 1 <= cpus <= 255
      && |bootParams| == 4096 && |bootParamsAcpi| == 4096
      && |rsdp| == 36 && |xsdt| == 44 && |madt| == 44 + 8 * cpus
      && 0 < |cmdline| && !(0x80 <= cmdline[0] < 0xC0)
      && |gdt| == 5 && forall i :: 0 <= i < 5 ==> |gdt[i]| == 8
    }

    function GdtWrites(): (ws: seq<MemWrite>)
      requires |gdt| == 5
      ensures |ws| == 5
    {
      seq(5, i requires 0 <= i < 5 => MemWrite(GDT_GPA + 8 * i, gdt[i]))
    }

    function AcpiWrites(): seq<MemWrite> {
      if cpus > 1 then
        [MemWrite(RSDP_GPA, rsdp), MemWrite(XSDT_GPA, xsdt), MemWrite(MADT_GPA, madt),
         MemWrite(BOOT_PARAMS_GPA, bootParamsAcpi)]
      else []
    }

    function InitramfsWrites(kernelEnd: nat): seq<MemWrite> {
      if initramfs.None? then [] else [MemWrite(PageAlign(kernelEnd), initramfs.value)]
    }

    function CmdlineWrite(): MemWrite { MemWrite(CMDLINE_GPA, cmdline) }

    /** The boot_params the guest must see. */
    function FinalBootParams(): MemWrite {
      MemWrite(BOOT_PARAMS_GPA, if cpus > 1 then bootParamsAcpi else bootParams)
    }
  }

  /** The fixed areas, spelled out. */
  lemma LowWrites(b: Input)
    requires b.Sized()
    ensures b.AcpiWrites() ==
            if b.cpus > 1 then
              [MemWrite(0xE_0000, b.rsdp), MemWrite(0xE_1000, b.xsdt), MemWrite(0xE_2000, b.madt), MemWrite(0x7000, b.bootParamsAcpi)]
            else []
    ensures b.GdtWrites() ==
            [MemWrite(0x500, b.gdt[0]), MemWrite(0x508, b.gdt[1]), MemWrite(0x510, b.gdt[2]),
             MemWrite(0x518, b.gdt[3]), MemWrite(0x520, b.gdt[4])]
    ensures b.FinalBootParams() == MemWrite(0x7000, if b.cpus > 1 then b.bootParamsAcpi else b.bootParams)
    ensures b.CmdlineWrite() == MemWrite(0x2_0000, b.cmdline)
  {
  }

  /** The image is a sound kernel. */
  predicate HasKernel(b: Input) { Loads(b.kernel).Some? }

  function Kernel(b: Input): seq<MemWrite>
    requires HasKernel(b)
  {
    ElfWrites(b.kernel, Loads(b.kernel).value)
  }

  function KernelEnd(b: Input): nat
    requires HasKernel(b)
  {
    MaxEnd(Loads(b.kernel).value)
  }

  /** Every write of the boot sequence, in order. */
  function BootLog(b: Input, tables: seq<MemWrite>): seq<MemWrite>
    requires HasKernel(b) && b.Sized()
  {
    tables + Kernel(b) + b.InitramfsWrites(KernelEnd(b)) + [MemWrite(BOOT_PARAMS_GPA, b.bootParams)] +
    b.AcpiWrites() + [b.CmdlineWrite()] + b.GdtWrites() + Kernel(b)
  }

  /** Kernel segments lie at or above 1 MiB and are no longer in the file than in memory. */
  ghost predicate KernelAboveLowMemory(b: Input)
    requires HasKernel(b)
  {
    forall i :: 0 <= i < |Loads(b.kernel).value| ==>
      var ph := Loads(b.kernel).value[i]; KERNEL_LOAD_GPA <= ph.paddr && ph.filesz <= ph.memsz
  }

  // ---- Which write a byte comes from ------------------------------------------------------

  function Pick(later: Option<byte>, earlier: Option<byte>): Option<byte> {
    if later.Some? then later else earlier
  }

  /** The byte at `a` after booting, piece by piece from the last. */
  lemma BootByte(b: Input, tables: seq<MemWrite>, a: nat)
    requires HasKernel(b) && b.Sized()
    ensures LastByte(BootLog(b, tables), a) ==
            Pick(LastByte(Kernel(b), a),
            Pick(LastByte(b.GdtWrites(), a),
            Pick(LastByte([b.CmdlineWrite()], a),
            Pick(LastByte(b.AcpiWrites(), a),
            Pick(LastByte([MemWrite(BOOT_PARAMS_GPA, b.bootParams)], a),
            Pick(LastByte(b.InitramfsWrites(KernelEnd(b)), a),
            Pick(LastByte(Kernel(b), a), LastByte(tables, a))))))))
  {
    hide LastByte, Input.GdtWrites, Input.AcpiWrites, Input.InitramfsWrites, Kernel, KernelEnd;
    var l1 := tables + Kernel(b);
    var l2 := l1 + b.InitramfsWrites(KernelEnd(b));
    var l3 := l2 + [MemWrite(BOOT_PARAMS_GPA, b.bootParams)];
    var l4 := l3 + b.AcpiWrites();
    var l5 := l4 + [b.CmdlineWrite()];
    var l6 := l5 + b.GdtWrites();
    LastByteConcat(l6, Kernel(b), a);
    LastByteConcat(l5, b.GdtWrites(), a);
    LastByteConcat(l4, [b.CmdlineWrite()], a);
    LastByteConcat(l3, b.AcpiWrites(), a);
    LastByteConcat(l2, [MemWrite(BOOT_PARAMS_GPA, b.bootParams)], a);
    LastByteConcat(l1, b.InitramfsWrites(KernelEnd(b)), a);
    LastByteConcat(tables, Kernel(b), a);
  }

  /** The kernel occupies addresses from 1 MiB up to its reported end. */
  lemma KernelBounds(b: Input, a: nat)
    requires HasKernel(b) && KernelAboveLowMemory(b) && LastByte(Kernel(b), a).Some?
    ensures KERNEL_LOAD_GPA <= a < KernelEnd(b)
  {
    var loads := Loads(b.kernel).value;
    ElfFootprint(b.kernel, loads, a);
    var i :| 0 <= i < |loads| && InSegment(loads[i], a);
    assert KERNEL_LOAD_GPA <= loads[i].paddr && loads[i].filesz <= loads[i].memsz;
  }

  lemma InitramfsBounds(b: Input, a: nat)
    requires HasKernel(b) && KernelAboveLowMemory(b) && LastByte(b.InitramfsWrites(KernelEnd(b)), a).Some?
    ensures KERNEL_LOAD_GPA <= KernelEnd(b) <= a
  {
    var loads := Loads(b.kernel).value;
    assert KERNEL_LOAD_GPA <= loads[0].paddr + loads[0].memsz <= MaxEnd(loads);
    LastByteOne(MemWrite(PageAlign(KernelEnd(b)), b.initramfs.value), a);
  }

  lemma AcpiBounds(b: Input, a: nat)
    requires b.Sized() && LastByte(b.AcpiWrites(), a).Some?
    ensures b.cpus > 1 && (BOOT_PARAMS_GPA <= a < BOOT_PARAMS_GPA + 4096 || RSDP_GPA <= a < KERNEL_LOAD_GPA)
  {
    var ws := b.AcpiWrites();
    var i :| 0 <= i < |ws| && ws[i].Covers(a);
  }

  lemma GdtBounds(b: Input, a: nat)
    requires b.Sized() && LastByte(b.GdtWrites(), a).Some?
    ensures GDT_GPA <= a < GDT_GPA + 40
  {
    var ws := b.GdtWrites();
    var i :| 0 <= i < |ws| && ws[i].Covers(a);
  }

  lemma TableBounds(tables: seq<MemWrite>, gib: nat, a: nat)
    requires AreTables(tables, gib) && LastByte(tables, a).Some?
    ensures PML4_GPA <= a < PML4_GPA + (gib + 2) * PAGE_SIZE
  {
    hide IsPd, IsPdpt, IsPml4;
    var i :| 0 <= i < |tables| && tables[i].Covers(a);
    TableSize(tables, gib, i);
  }

  lemma TableSize(tables: seq<MemWrite>, gib: nat, i: nat)
    requires AreTables(tables, gib) && i < |tables|
    ensures |tables[i].data| == PAGE_SIZE && tables[i].gpa == PML4_GPA + i * PAGE_SIZE
  {
    if i >= 2 {
      assert IsPd(tables[i].data, i - 2);
    }
  }

  /** Every piece at once, by address. */
  lemma WhoWrites(b: Input, tables: seq<MemWrite>, a: nat)
    requires HasKernel(b) && KernelAboveLowMemory(b) && b.Sized() && AreTables(tables, b.GibCount())
    ensures LastByte(Kernel(b), a).Some? ==> KERNEL_LOAD_GPA <= a < KernelEnd(b)
    ensures LastByte(b.InitramfsWrites(KernelEnd(b)), a).Some? ==> KERNEL_LOAD_GPA <= KernelEnd(b) <= a
    ensures LastByte(b.AcpiWrites(), a).Some? ==>
              b.cpus > 1 && (BOOT_PARAMS_GPA <= a < BOOT_PARAMS_GPA + 4096 || RSDP_GPA <= a < KERNEL_LOAD_GPA)
    ensures LastByte(b.GdtWrites(), a).Some? ==> GDT_GPA <= a < GDT_GPA + 40
    ensures LastByte(tables, a).Some? ==> PML4_GPA <= a < PML4_GPA + (b.GibCount() + 2) * PAGE_SIZE
  {
    hide LastByte, Input.GdtWrites, Input.AcpiWrites, Input.InitramfsWrites, AreTables, Kernel, KernelEnd, KernelAboveLowMemory;
    if LastByte(Kernel(b), a).Some? { KernelBounds(b, a); }
    if LastByte(b.InitramfsWrites(KernelEnd(b)), a).Some? { InitramfsBounds(b, a); }
    if LastByte(b.AcpiWrites(), a).Some? { AcpiBounds(b, a); }
    if LastByte(b.GdtWrites(), a).Some? { GdtBounds(b, a); }
    if LastByte(tables, a).Some? { TableBounds(tables, b.GibCount(), a); }
  }

  // ---- Every area at once -----------------------------------------------------------------

  /** The log leaves `w` as written. */
  ghost predicate Keeps(log: seq<MemWrite>, w: MemWrite) {
    forall a: nat :: w.Covers(a) ==> LastByte(log, a) == Some(w.data[a - w.gpa])
  }

  /** Page tables survive the whole sequence: nothing else is written below the command line. */
  lemma TableByte(b: Input, tables: seq<MemWrite>, k: nat, a: nat)
    requires HasKernel(b) && KernelAboveLowMemory(b) && b.Sized() && AreTables(tables, b.GibCount()) && b.GibCount() <= 22
    requires k < |tables| && tables[k].Covers(a)
    ensures LastByte(BootLog(b, tables), a) == Some(tables[k].data[a - tables[k].gpa])
  {
    hide IsPd, IsPdpt, IsPml4, LastByte, Kernel, KernelEnd, BootLog, KernelAboveLowMemory;
    hide Input.GdtWrites, Input.AcpiWrites, Input.InitramfsWrites;
    forall i | 0 <= i < |tables| && tables[i].Covers(a)
      ensures i == k
    {
      TableSize(tables, b.GibCount(), i);
      TableSize(tables, b.GibCount(), k);
    }
    LastByteAgreed(tables, a, k, tables[k].data[a - tables[k].gpa]);
    BootByte(b, tables, a);
    WhoWrites(b, tables, a);
    LastByteOne(b.CmdlineWrite(), a);
    LastByteOne(MemWrite(BOOT_PARAMS_GPA, b.bootParams), a);
  }

  lemma InitramfsByte(b: Input, tables: seq<MemWrite>, a: nat)
    requires HasKernel(b) && KernelAboveLowMemory(b) && b.Sized() && AreTables(tables, b.GibCount())
    requires CMDLINE_GPA + |b.cmdline| <= RSDP_GPA
    requires b.initramfs.Some? && MemWrite(PageAlign(KernelEnd(b)), b.initramfs.value).Covers(a)
    ensures LastByte(BootLog(b, tables), a) == Some(b.initramfs.value[a - PageAlign(KernelEnd(b))])
  {
    hide LastByte, Kernel, KernelEnd, BootLog, AreTables, KernelAboveLowMemory, Input.GdtWrites, Input.AcpiWrites;
    LastByteOne(MemWrite(PageAlign(KernelEnd(b)), b.initramfs.value), a);
    BootByte(b, tables, a);
    WhoWrites(b, tables, a);
    LastByteOne(b.CmdlineWrite(), a);
    LastByteOne(MemWrite(BOOT_PARAMS_GPA, b.bootParams), a);
  }

  /** No two ACPI writes share an address, and neither do two GDT entries. */
  lemma AcpiPiece(b: Input, k: nat, a: nat)
    requires b.Sized() && k < |b.AcpiWrites()| && b.AcpiWrites()[k].Covers(a)
    ensures LastByte(b.AcpiWrites(), a) == Some(b.AcpiWrites()[k].data[a - b.AcpiWrites()[k].gpa])
  {
    hide LastByte;
    LastByteAgreed(b.AcpiWrites(), a, k, b.AcpiWrites()[k].data[a - b.AcpiWrites()[k].gpa]);
  }

  lemma GdtPiece(b: Input, k: nat, a: nat)
    requires b.Sized() && k < 5 && b.GdtWrites()[k].Covers(a)
    ensures LastByte(b.GdtWrites(), a) == Some(b.GdtWrites()[k].data[a - b.GdtWrites()[k].gpa])
  {
    hide LastByte;
    LastByteAgreed(b.GdtWrites(), a, k, b.GdtWrites()[k].data[a - b.GdtWrites()[k].gpa]);
  }

  lemma BootParamsByte(b: Input, tables: seq<MemWrite>, a: nat)
    requires HasKernel(b) && KernelAboveLowMemory(b) && b.Sized() && AreTables(tables, b.GibCount())
    requires b.FinalBootParams().Covers(a)
    ensures LastByte(BootLog(b, tables), a) == Some(b.FinalBootParams().data[a - BOOT_PARAMS_GPA])
  {
    if b.cpus > 1 {
      assert b.AcpiWrites()[3] == b.FinalBootParams();
      AcpiPiece(b, 3, a);
    }
    hide LastByte, Kernel, KernelEnd, BootLog, AreTables, KernelAboveLowMemory;
    hide Input.GdtWrites, Input.AcpiWrites, Input.InitramfsWrites;
    BootByte(b, tables, a);
    WhoWrites(b, tables, a);
    LastByteOne(b.CmdlineWrite(), a);
    LastByteOne(MemWrite(BOOT_PARAMS_GPA, b.bootParams), a);
  }

  lemma AcpiByte(b: Input, tables: seq<MemWrite>, k: nat, a: nat)
    requires HasKernel(b) && KernelAboveLowMemory(b) && b.Sized() && AreTables(tables, b.GibCount())
    requires CMDLINE_GPA + |b.cmdline| <= RSDP_GPA && k < |b.AcpiWrites()| && b.AcpiWrites()[k].Covers(a)
    ensures LastByte(BootLog(b, tables), a) == Some(b.AcpiWrites()[k].data[a - b.AcpiWrites()[k].gpa])
  {
    hide LastByte, Kernel, KernelEnd, BootLog, AreTables, KernelAboveLowMemory;
    hide Input.GdtWrites, Input.AcpiWrites, Input.InitramfsWrites;
    AcpiPiece(b, k, a);
    BootByte(b, tables, a);
    WhoWrites(b, tables, a);
    LastByteOne(b.CmdlineWrite(), a);
  }

  lemma CmdlineByte(b: Input, tables: seq<MemWrite>, a: nat)
    requires HasKernel(b) && KernelAboveLowMemory(b) && b.Sized() && AreTables(tables, b.GibCount())
    requires CMDLINE_GPA <= a < CMDLINE_GPA + |b.cmdline| && a < KERNEL_LOAD_GPA
    ensures LastByte(BootLog(b, tables), a) == Some(b.cmdline[a - CMDLINE_GPA])
  {
    hide LastByte, Kernel, KernelEnd, BootLog, AreTables, KernelAboveLowMemory;
    hide Input.GdtWrites, Input.AcpiWrites, Input.InitramfsWrites;
    BootByte(b, tables, a);
    WhoWrites(b, tables, a);
    LastByteOne(b.CmdlineWrite(), a);
  }

  lemma GdtByte(b: Input, tables: seq<MemWrite>, k: nat, a: nat)
    requires HasKernel(b) && KernelAboveLowMemory(b) && b.Sized() && AreTables(tables, b.GibCount())
    requires k < 5 && b.GdtWrites()[k].Covers(a)
    ensures LastByte(BootLog(b, tables), a) == Some(b.GdtWrites()[k].data[a - b.GdtWrites()[k].gpa])
  {
    hide LastByte, Kernel, KernelEnd, BootLog, AreTables, KernelAboveLowMemory;
    hide Input.GdtWrites, Input.AcpiWrites, Input.InitramfsWrites;
    GdtPiece(b, k, a);
    BootByte(b, tables, a);
    WhoWrites(b, tables, a);
  }

  /** The second `load_elf` has the last word, so the kernel image is always whole. */
  lemma KernelByte(b: Input, tables: seq<MemWrite>, a: nat)
    requires HasKernel(b) && b.Sized() && LastByte(Kernel(b), a).Some?
    ensures LastByte(BootLog(b, tables), a) == LastByte(Kernel(b), a)
  {
    hide LastByte;
    BootByte(b, tables, a);
  }

  lemma AcpiKept(b: Input, tables: seq<MemWrite>)
    requires HasKernel(b) && KernelAboveLowMemory(b) && b.Sized() && AreTables(tables, b.GibCount())
    requires CMDLINE_GPA + |b.cmdline| <= RSDP_GPA
    ensures b.cpus > 1 ==>
              && Keeps(BootLog(b, tables), MemWrite(0xE_0000, b.rsdp)) && Keeps(BootLog(b, tables), MemWrite(0xE_1000, b.xsdt))
              && Keeps(BootLog(b, tables), MemWrite(0xE_2000, b.madt)) && Keeps(BootLog(b, tables), MemWrite(0x7000, b.bootParamsAcpi))
  {
    hide LastByte, Kernel, KernelEnd, BootLog, AreTables, KernelAboveLowMemory, Input.AcpiWrites, Keeps;
    LowWrites(b);
    var ws := b.AcpiWrites();
    forall k | 0 <= k < |ws| ensures Keeps(BootLog(b, tables), ws[k]) {
      forall a: nat | ws[k].Covers(a) ensures LastByte(BootLog(b, tables), a) == Some(ws[k].data[a - ws[k].gpa]) {
        AcpiByte(b, tables, k, a);
      }
      KeepsEach(BootLog(b, tables), ws[k]);
    }
    if b.cpus > 1 {
      assert ws[0].gpa == 0xE_0000 && ws[1].gpa == 0xE_1000 && ws[2].gpa == 0xE_2000 && ws[3].gpa == 0x7000;
    }
  }

  lemma GdtKept(b: Input, tables: seq<MemWrite>)
    requires HasKernel(b) && KernelAboveLowMemory(b) && b.Sized() && AreTables(tables, b.GibCount())
    ensures forall i :: 0 <= i < 5 ==> Keeps(BootLog(b, tables), MemWrite(0x500 + 8 * i, b.gdt[i]))
  {
    hide LastByte, Kernel, KernelEnd, BootLog, AreTables, KernelAboveLowMemory, Input.GdtWrites, Keeps;
    LowWrites(b);
    var ws := b.GdtWrites();
    forall i | 0 <= i < 5 ensures Keeps(BootLog(b, tables), MemWrite(0x500 + 8 * i, b.gdt[i])) {
      assert ws[i] == MemWrite(0x500 + 8 * i, b.gdt[i]);
      forall a: nat | ws[i].Covers(a) ensures LastByte(BootLog(b, tables), a) == Some(ws[i].data[a - ws[i].gpa]) {
        GdtByte(b, tables, i, a);
      }
      KeepsEach(BootLog(b, tables), ws[i]);
    }
  }

  lemma BootParamsKept(b: Input, tables: seq<MemWrite>)
    requires HasKernel(b) && KernelAboveLowMemory(b) && b.Sized() && AreTables(tables, b.GibCount())
    ensures Keeps(BootLog(b, tables), MemWrite(0x7000, if b.cpus > 1 then b.bootParamsAcpi else b.bootParams))
  {
    hide LastByte, Kernel, KernelEnd, BootLog, AreTables, KernelAboveLowMemory;
    LowWrites(b);
    forall a: nat | b.FinalBootParams().Covers(a)
      ensures LastByte(BootLog(b, tables), a) == Some(b.FinalBootParams().data[a - BOOT_PARAMS_GPA])
    {
      BootParamsByte(b, tables, a);
    }
  }

  lemma KeepsEach(log: seq<MemWrite>, w: MemWrite)
    requires forall a: nat :: w.Covers(a) ==> LastByte(log, a) == Some(w.data[a - w.gpa])
    ensures Keeps(log, w)
  {
  }

  /**
   * After the whole boot sequence every area is intact at once: for at most 22 GiB of RAM, a
   * kernel at or above 1 MiB, and a command line that ends below the ACPI tables.
   */
  lemma EverythingIntact(b: Input, tables: seq<MemWrite>)
    requires HasKernel(b) && KernelAboveLowMemory(b) && b.Sized() && AreTables(tables, b.GibCount())
    requires b.GibCount() <= 22 && CMDLINE_GPA + |b.cmdline| <= RSDP_GPA
    ensures forall k :: 0 <= k < |tables| ==> Keeps(BootLog(b, tables), tables[k])
    ensures forall k :: 0 <= k < |tables| ==> tables[k].gpa == 0x8000 + 0x1000 * k
    ensures b.cpus > 1 ==>
              && Keeps(BootLog(b, tables), MemWrite(0xE_0000, b.rsdp)) && Keeps(BootLog(b, tables), MemWrite(0xE_1000, b.xsdt))
              && Keeps(BootLog(b, tables), MemWrite(0xE_2000, b.madt)) && Keeps(BootLog(b, tables), MemWrite(0x7000, b.bootParamsAcpi))
    ensures b.cpus == 1 ==> Keeps(BootLog(b, tables), MemWrite(0x7000, b.bootParams))
    ensures forall i :: 0 <= i < 5 ==> Keeps(BootLog(b, tables), MemWrite(0x500 + 8 * i, b.gdt[i]))
    ensures Keeps(BootLog(b, tables), MemWrite(0x2_0000, b.cmdline))
    ensures b.initramfs.Some? ==> Keeps(BootLog(b, tables), MemWrite(PageAlign(KernelEnd(b)), b.initramfs.value))
    ensures forall a: nat :: LastByte(Kernel(b), a).Some? ==> LastByte(BootLog(b, tables), a) == LastByte(Kernel(b), a)
  {
    hide LastByte, Kernel, KernelEnd, BootLog, AreTables, KernelAboveLowMemory, Input.AcpiWrites, Input.GdtWrites;
    var log := BootLog(b, tables);
    forall k: nat, a: nat | 0 <= k < |tables| && tables[k].Covers(a)
      ensures LastByte(log, a) == Some(tables[k].data[a - tables[k].gpa])
    {
      TableByte(b, tables, k, a);
    }
    forall k | 0 <= k < |tables| ensures tables[k].gpa == 0x8000 + 0x1000 * k {
      TableSize(tables, b.GibCount(), k);
    }
    AcpiKept(b, tables);
    GdtKept(b, tables);
    BootParamsKept(b, tables);
    forall a: nat | b.CmdlineWrite().Covers(a)
      ensures LastByte(log, a) == Some(b.cmdline[a - CMDLINE_GPA])
    {
      CmdlineByte(b, tables, a);
    }
    if b.initramfs.Some? {
      forall a: nat | MemWrite(PageAlign(KernelEnd(b)), b.initramfs.value).Covers(a)
        ensures LastByte(BootLog(b, tables), a) == Some(b.initramfs.value[a - PageAlign(KernelEnd(b))])
      {
        InitramfsByte(b, tables, a);
      }
    }
    forall a: nat | LastByte(Kernel(b), a).Some?
      ensures LastByte(BootLog(b, tables), a) == LastByte(Kernel(b), a)
    {
      KernelByte(b, tables, a);
    }
  }

  ghost predicate TablesIntact(b: Input, tables: seq<MemWrite>)
    requires HasKernel(b) && b.Sized()
  {
    forall k :: 0 <= k < |tables| ==> Keeps(BootLog(b, tables), tables[k])
  }

  /** The first byte of page directory 22 is its flag byte, and lies at the command line. */
  lemma Directory22(tables: seq<MemWrite>, gib: nat)
    requires AreTables(tables, gib) && gib > 22
    ensures |tables| > 24 && tables[24].gpa == CMDLINE_GPA && |tables[24].data| == PAGE_SIZE && tables[24].data[0] == 0x83
  {
    assert IsPd(tables[24].data, 22);
    assert Entry(tables[24].data, 0) == ToLe(PdEntry(22, 0), 8);
    assert Entry(tables[24].data, 0)[0] == PdEntry(22, 0) % 256;
  }

  /** A UTF-8 string does not start with a continuation byte. */
  lemma FirstCharacter(b: Input)
    requires b.Sized()
    ensures 0 < |b.cmdline| && b.cmdline[0] != 0x83
  {
  }

  /** The page tables survive the boot sequence if and only if there are at most 22 of them. */
  lemma TablesIntactIff(b: Input, tables: seq<MemWrite>)
    requires HasKernel(b) && KernelAboveLowMemory(b) && b.Sized() && AreTables(tables, b.GibCount())
    ensures TablesIntact(b, tables) <==> b.GibCount() <= 22
    ensures b.GibCount() <= 22 <==> b.ramMib <= 22 * 1024
  {
    hide LastByte, Kernel, KernelEnd, BootLog, AreTables, KernelAboveLowMemory, Input.Sized;
    if b.GibCount() <= 22 {
      forall k: nat, a: nat | 0 <= k < |tables| && tables[k].Covers(a)
        ensures LastByte(BootLog(b, tables), a) == Some(tables[k].data[a - tables[k].gpa])
      {
        TableByte(b, tables, k, a);
      }
    } else {
      Directory22(tables, b.GibCount());
      FirstCharacter(b);
      CmdlineByte(b, tables, CMDLINE_GPA);
      assert tables[24].Covers(CMDLINE_GPA);
      assert !Keeps(BootLog(b, tables), tables[24]);
    }
  }

  // ---- The sequence -----------------------------------------------------------------------

  ghost predicate Fits(rs: seq<RegionVal>, w: MemWrite) {
    w.data == [] || Inside(rs, w.gpa, |w.data|)
  }

  /** A run of `write_slice` calls that stops at the first failure. */
  method WriteAll(mem: GuestMemory, ws: seq<MemWrite>, ghost rs: seq<RegionVal>, ghost log: seq<MemWrite>) returns (ok: bool)
    requires mem.Valid() && Applied(rs, mem.Snapshot(), log)
    modifies mem.Repr()
    ensures mem.Valid() && SameShape(rs, mem.Snapshot())
    ensures ok <==> forall i :: 0 <= i < |ws| ==> Fits(rs, ws[i])
    ensures ok ==> Applied(rs, mem.Snapshot(), log + ws)
  {
    hide ByteAt, LastByte, Inside, WriteVal, Wrote, Sorted;
    assert log + ws[..0] == log;
    for i := 0 to |ws|
      invariant mem.Valid() && SameShape(rs, mem.Snapshot())
      invariant Applied(rs, mem.Snapshot(), log + ws[..i])
      invariant forall k :: 0 <= k < i ==> Fits(rs, ws[k])
    {
      ghost var before := mem.Snapshot();
      mem.SnapshotLayout();
      WriteFits(rs, before, ws[i]);
      var w := mem.WriteSlice(ws[i].gpa, ws[i].data);
      if w.Err? {
        return false;
      }
      AppliedWrite(rs, before, mem.Snapshot(), log + ws[..i], ws[i]);
      assert log + ws[..i] + [ws[i]] == log + ws[..i + 1];
    }
    assert ws[..|ws|] == ws;
    return true;
  }

  lemma WriteFits(rs: seq<RegionVal>, before: seq<RegionVal>, w: MemWrite)
    requires SameShape(rs, before) && Layout(before)
    ensures WriteVal(before, w.gpa, w.data).Ok? <==> Fits(rs, w)
    ensures WriteVal(before, w.gpa, w.data).Ok? ==> Wrote(before, WriteVal(before, w.gpa, w.data).value, w.gpa, w.data)
    ensures WriteVal(before, w.gpa, w.data).Ok? ==> SameShape(rs, WriteVal(before, w.gpa, w.data).value)
  {
    hide ByteAt, Inside;
    LocateIffInside(before, w.gpa, |w.data|);
    AcceptanceKept(rs, before, w.gpa, |w.data|);
    if WriteVal(before, w.gpa, w.data).Ok? {
      WriteFrames(before, w.gpa, w.data);
    }
  }

  /** When `load_initramfs` and `set_initramfs_params` accept the archive. */
  predicate InitramfsAccepted(b: Input)
    requires HasKernel(b)
  {
    b.initramfs.Some? ==>
      && b.initramfs.value != []
      && PageAlign(KernelEnd(b)) + |b.initramfs.value| <= b.RamBytes()
      && PageAlign(KernelEnd(b)) < U32_RANGE && |b.initramfs.value| < U32_RANGE
  }

  /** One region at 0 holding `m`. */
  function Flat(m: seq<byte>): seq<RegionVal> { [RegionVal(0, m)] }

  lemma FlatInside(m: seq<byte>, gpa: nat, len: nat)
    requires 0 < len
    ensures Inside(Flat(m), gpa, len) <==> gpa + len <= |m|
  {
    if gpa + len <= |m| {
      assert Flat(m)[0].start <= gpa && gpa + len <= Flat(m)[0].End() && gpa < Flat(m)[0].End();
    }
  }

  /** Exactly when the boot image is built. */
  ghost predicate Bootable(b: Input) {
    && b.GibCount() <= MAX_GIB && b.ramMib >= 2 && b.RamBytes() + 4095 < U64_RANGE
    && HasKernel(b) && AcceptsAll(Flat(Zeroes(b.RamBytes())), Loads(b.kernel).value)
    && InitramfsAccepted(b)
    && CMDLINE_GPA + |b.cmdline| <= b.RamBytes()
  }

  /** The fixed areas below 1 MiB and the page tables always fit. */
  lemma FixedAreasFit(b: Input, tables: seq<MemWrite>, w: MemWrite)
    requires b.Sized() && b.ramMib >= 2 && b.GibCount() <= MAX_GIB && AreTables(tables, b.GibCount())
    requires w in tables || w in b.AcpiWrites() || w in b.GdtWrites() || w == MemWrite(BOOT_PARAMS_GPA, b.bootParams)
    ensures Fits(Flat(Zeroes(b.RamBytes())), w)
  {
    hide Inside, IsPd, IsPdpt, IsPml4;
    if w in tables {
      var k :| 0 <= k < |tables| && tables[k] == w;
      TableSize(tables, b.GibCount(), k);
    }
    assert w.End() <= b.RamBytes();
    if w.data != [] {
      FlatInside(Zeroes(b.RamBytes()), w.gpa, |w.data|);
    }
  }

  lemma AcceptsAllKept(rs: seq<RegionVal>, rs': seq<RegionVal>, loads: seq<Phdr>)
    requires SameShape(rs, rs')
    ensures AcceptsAll(rs', loads) <==> AcceptsAll(rs, loads)
  {
    hide Inside, ChunksInside;
    forall i | 0 <= i < |loads|
      ensures Accepts(rs', loads[i]) <==> Accepts(rs, loads[i])
    {
      var ph := loads[i];
      AcceptanceKept(rs, rs', ph.paddr, ph.filesz);
      if ph.memsz > ph.filesz {
        ChunksKept(rs, rs', ph.paddr + ph.filesz, ph.memsz - ph.filesz, ph.memsz - ph.filesz);
      }
    }
  }

  /** `load_elf` as one step of a longer sequence. */
  method LoadKernel(b: Input, mem: GuestMemory, ghost rs: seq<RegionVal>, ghost log: seq<MemWrite>) returns (r: Option<nat>)
    requires mem.Valid() && Applied(rs, mem.Snapshot(), log)
    modifies mem.Repr()
    ensures mem.Valid() && SameShape(rs, mem.Snapshot())
    ensures r.Some? <==> HasKernel(b) && AcceptsAll(rs, Loads(b.kernel).value)
    ensures r.Some? ==> r.value == KernelEnd(b) && Applied(rs, mem.Snapshot(), log + Kernel(b))
  {
    hide ByteAt, LastByte, AcceptsAll, Sorted, ElfWrites, MaxEnd, MinStart, Loads;
    ghost var before := mem.Snapshot();
    if HasKernel(b) {
      AcceptsAllKept(rs, before, Loads(b.kernel).value);
    }
    var loaded := LoadElf(b.kernel, mem);
    if loaded.None? {
      return None;
    }
    AppliedConcat(rs, before, mem.Snapshot(), log, Kernel(b));
    return Some(loaded.value.kernelEnd);
  }

  /** `load_initramfs` and `set_initramfs_params`. */
  method LoadInitramfs(b: Input, kernelEnd: nat, mem: GuestMemory, ghost log: seq<MemWrite>) returns (ok: bool)
    requires mem.Valid() && HasKernel(b) && kernelEnd == KernelEnd(b)
    requires Applied(Flat(Zeroes(b.RamBytes())), mem.Snapshot(), log)
    modifies mem.Repr()
    ensures mem.Valid()
    ensures ok <==> InitramfsAccepted(b)
    ensures ok <==> b.initramfs.None? ||
                    (&& 0 < |b.initramfs.value| < 0x1_0000_0000
                     && PageAlign(kernelEnd) + |b.initramfs.value| <= b.ramMib * 0x10_0000
                     && PageAlign(kernelEnd) < 0x1_0000_0000)
    ensures ok ==> Applied(Flat(Zeroes(b.RamBytes())), mem.Snapshot(), log + b.InitramfsWrites(kernelEnd))
    ensures ok && b.initramfs.Some? ==>
              Applied(Flat(Zeroes(b.RamBytes())), mem.Snapshot(), log + [MemWrite(PageAlign(kernelEnd), b.initramfs.value)])
  {
    hide Applied, Inside, Sorted, KernelEnd, Loads;
    if b.initramfs.None? {
      assert log + [] == log;
      return true;
    }
    var data := b.initramfs.value;
    if data == [] {
      return false;
    }
    var gpa := PageAlign(kernelEnd);
    if gpa + |data| > b.RamBytes() {
      return false;
    }
    FlatInside(Zeroes(b.RamBytes()), gpa, |data|);
    ok := WriteAll(mem, [MemWrite(gpa, data)], Flat(Zeroes(b.RamBytes())), log);
    if gpa >= U32_RANGE || |data| >= U32_RANGE {
      return false;
    }
  }

  /** The writes after the kernel and initramfs, up to the GDT. */
  method WriteLowAreas(b: Input, mem: GuestMemory, ghost tables: seq<MemWrite>, ghost log: seq<MemWrite>) returns (ok: bool)
    requires b.Sized() && b.ramMib >= 2 && b.GibCount() <= MAX_GIB && AreTables(tables, b.GibCount())
    requires mem.Valid() && Applied(Flat(Zeroes(b.RamBytes())), mem.Snapshot(), log)
    modifies mem.Repr()
    ensures mem.Valid() && SameShape(Flat(Zeroes(b.RamBytes())), mem.Snapshot())
    ensures ok <==> CMDLINE_GPA + |b.cmdline| <= b.RamBytes()
    ensures ok ==> Applied(Flat(Zeroes(b.RamBytes())), mem.Snapshot(),
                           log + [MemWrite(BOOT_PARAMS_GPA, b.bootParams)] + b.AcpiWrites() + [b.CmdlineWrite()] + b.GdtWrites())
    ensures ok ==> Applied(Flat(Zeroes(b.RamBytes())), mem.Snapshot(),
                           log + [MemWrite(0x7000, b.bootParams)] +
                           (if b.cpus > 1 then
                              [MemWrite(0xE_0000, b.rsdp), MemWrite(0xE_1000, b.xsdt), MemWrite(0xE_2000, b.madt),
                               MemWrite(0x7000, b.bootParamsAcpi)]
                            else []) +
                           [MemWrite(0x2_0000, b.cmdline)] +
                           [MemWrite(0x500, b.gdt[0]), MemWrite(0x508, b.gdt[1]), MemWrite(0x510, b.gdt[2]),
                            MemWrite(0x518, b.gdt[3]), MemWrite(0x520, b.gdt[4])])
  {
    hide Applied, Fits, Inside, Sorted, AreTables, Input.Sized, Input.GdtWrites, Input.AcpiWrites, Input.RamBytes, Input.GibCount;
    ghost var rs := Flat(Zeroes(b.RamBytes()));
    SizedBounds(b);
    LowWrites(b);
    forall w | w in b.AcpiWrites() || w in b.GdtWrites()
      ensures Fits(rs, w)
    {
      FixedAreasFit(b, tables, w);
    }
    FixedAreasFit(b, tables, MemWrite(BOOT_PARAMS_GPA, b.bootParams));
    assert forall i :: 0 <= i < |b.AcpiWrites()| ==> Fits(rs, b.AcpiWrites()[i]);
    assert forall i :: 0 <= i < |b.GdtWrites()| ==> Fits(rs, b.GdtWrites()[i]);
    CmdlineFits(b);
    assert [b.CmdlineWrite()][0] == b.CmdlineWrite();
    ok := WriteAll(mem, [MemWrite(BOOT_PARAMS_GPA, b.bootParams)], rs, log);
    ghost var l := log + [MemWrite(BOOT_PARAMS_GPA, b.bootParams)];
    ok := WriteAll(mem, b.AcpiWrites(), rs, l);
    l := l + b.AcpiWrites();
    ok := WriteAll(mem, [b.CmdlineWrite()], rs, l);
    if !ok {
      return;
    }
    l := l + [b.CmdlineWrite()];
    ok := WriteAll(mem, b.GdtWrites(), rs, l);
  }

  lemma CmdlineFits(b: Input)
    requires b.Sized()
    ensures Fits(Flat(Zeroes(b.RamBytes())), b.CmdlineWrite()) <==> CMDLINE_GPA + |b.cmdline| <= b.RamBytes()
  {
    FlatInside(Zeroes(b.RamBytes()), CMDLINE_GPA, |b.cmdline|);
  }

  /**
   * The memory half of `boot_and_run`.  It succeeds exactly for bootable inputs, and then guest
   * memory is zero except for the writes of `BootLog`; if the input is laid out safely, every
   * area is intact in it.
   */
  method BuildImage(b: Input, allocOk: bool) returns (ok: bool, mem: GuestMemory, ghost tables: seq<MemWrite>)
    requires b.Sized()
    ensures fresh(mem) && mem.Valid()
    ensures ok <==> allocOk && Bootable(b)
    ensures ok ==>
              && AreTables(tables, b.GibCount())
              && Applied(Flat(Zeroes(b.RamBytes())), mem.Snapshot(), BootLog(b, tables))
              && (LaidOutSafely(b) ==> AreasIntact(b, tables, mem.Snapshot()))
  {
    hide Applied, AcceptsAll, AreTables, Inside, Sorted, Loads, KernelEnd, Kernel, InitramfsAccepted, Input.Sized;
    hide Input.GdtWrites, Input.AcpiWrites, Input.InitramfsWrites, ByteAt, LastByte, LaidOutSafely, AreasIntact;
    mem := new GuestMemory();
    tables := [];
    if b.ramMib < 2 {
      return false, mem, tables;
    }
    SizedBounds(b);
    var added, pos := mem.AddRegion(0, b.RamBytes(), allocOk);
    assert PageAlign(b.RamBytes()) == b.RamBytes() by { WholePages(b.ramMib); }
    if added.Err? {
      return false, mem, tables;
    }
    ghost var rs := Flat(Zeroes(b.RamBytes()));
    assert mem.Snapshot() == rs;
    var built := BuildPageTables(b.GibCount());
    if built.None? {
      return false, mem, tables;
    }
    tables := built.value.1;
    assert mem.Snapshot() == rs;
    AppliedNothing(rs);
    forall k | 0 <= k < |built.value.1|
      ensures Fits(rs, built.value.1[k])
    {
      FixedAreasFit(b, tables, tables[k]);
    }
    ok := WriteAll(mem, built.value.1, rs, []);
    assert [] + tables == tables;
    var kernelEnd := LoadKernel(b, mem, rs, tables);
    if kernelEnd.None? {
      return false, mem, tables;
    }
    ghost var log := tables + Kernel(b);
    ok := LoadInitramfs(b, kernelEnd.value, mem, log);
    if !ok {
      return false, mem, tables;
    }
    log := log + b.InitramfsWrites(KernelEnd(b));
    ok := WriteLowAreas(b, mem, tables, log);
    if !ok {
      return false, mem, tables;
    }
    log := log + [MemWrite(BOOT_PARAMS_GPA, b.bootParams)] + b.AcpiWrites() + [b.CmdlineWrite()] + b.GdtWrites();
    var again := LoadKernel(b, mem, rs, log);
    ok := again.Some?;
    if ok && LaidOutSafely(b) {
      BootedAreasIntact(b, tables, mem.Snapshot());
    }
  }

  /** What the boot sequence needs of its input beyond being bootable, so that no area is hit twice. */
  ghost predicate LaidOutSafely(b: Input)
    requires HasKernel(b)
  {
    b.GibCount() <= 22 && KernelAboveLowMemory(b) && CMDLINE_GPA + |b.cmdline| <= RSDP_GPA
  }

  /** Memory holds `data` from `gpa` on. */
  predicate HeldAt(m: seq<byte>, gpa: nat, data: seq<byte>) {
    gpa + |data| <= |m| && m[gpa..gpa + |data|] == data
  }

  /** Every area, at its address, in memory `rs`. */
  ghost predicate AreasIntact(b: Input, tables: seq<MemWrite>, rs: seq<RegionVal>)
    requires HasKernel(b) && b.Sized()
  {
    && |rs| == 1 && rs[0].start == 0
    && var m := rs[0].bytes;
       && (forall k :: 0 <= k < |tables| ==> HeldAt(m, 0x8000 + 0x1000 * k, tables[k].data))
       && (b.cpus > 1 ==>
             && HeldAt(m, 0xE_0000, b.rsdp) && HeldAt(m, 0xE_1000, b.xsdt) && HeldAt(m, 0xE_2000, b.madt)
             && HeldAt(m, 0x7000, b.bootParamsAcpi))
       && (b.cpus == 1 ==> HeldAt(m, 0x7000, b.bootParams))
       && (forall i :: 0 <= i < 5 ==> HeldAt(m, 0x500 + 8 * i, b.gdt[i]))
       && HeldAt(m, 0x2_0000, b.cmdline)
       && (b.initramfs.Some? && b.initramfs.value != [] ==> HeldAt(m, PageAlign(KernelEnd(b)), b.initramfs.value))
       && (forall a: nat :: LastByte(Kernel(b), a).Some? ==> a < |m| && Some(m[a]) == LastByte(Kernel(b), a))
  }

  /** A write that the log keeps is there, byte for byte, in the memory the log leaves. */
  lemma KeptIsIntact(rs0: seq<RegionVal>, m: seq<byte>, log: seq<MemWrite>, w: MemWrite)
    requires Applied(rs0, Flat(m), log) && Keeps(log, w) && w.data != []
    ensures Intact(m, w) && HeldAt(m, w.gpa, w.data)
  {
    hide LastByte, ByteAt;
    forall a: nat | w.Covers(a)
      ensures a < |m| && m[a] == w.data[a - w.gpa]
    {
      FlatByteAt(m, a);
    }
    assert w.Covers(w.End() - 1);
    assert forall i :: 0 <= i < |w.data| ==> w.Covers(w.gpa + i) && m[w.gpa..w.End()][i] == m[w.gpa + i];
  }

  /** The memory that the boot log leaves holds every area at once. */
  lemma BootedAreasIntact(b: Input, tables: seq<MemWrite>, rs: seq<RegionVal>)
    requires b.Sized() && HasKernel(b) && LaidOutSafely(b) && AreTables(tables, b.GibCount())
    requires Applied(Flat(Zeroes(b.RamBytes())), rs, BootLog(b, tables))
    ensures AreasIntact(b, tables, rs)
  {
    hide LastByte, ByteAt, Kernel, KernelEnd, BootLog, AreTables, KernelAboveLowMemory, Keeps, Intact, HeldAt, Applied;
    var rs0, log := Flat(Zeroes(b.RamBytes())), BootLog(b, tables);
    EverythingIntact(b, tables);
    AppliedShape(rs0, rs, log);
    var m := rs[0].bytes;
    forall k | 0 <= k < |tables| ensures HeldAt(m, 0x8000 + 0x1000 * k, tables[k].data) {
      TableSize(tables, b.GibCount(), k);
      KeptIsIntact(rs0, m, log, tables[k]);
    }
    if b.cpus > 1 {
      KeptIsIntact(rs0, m, log, MemWrite(0xE_0000, b.rsdp));
      KeptIsIntact(rs0, m, log, MemWrite(0xE_1000, b.xsdt));
      KeptIsIntact(rs0, m, log, MemWrite(0xE_2000, b.madt));
      KeptIsIntact(rs0, m, log, MemWrite(0x7000, b.bootParamsAcpi));
    } else {
      KeptIsIntact(rs0, m, log, MemWrite(0x7000, b.bootParams));
    }
    forall i | 0 <= i < 5 ensures HeldAt(m, 0x500 + 8 * i, b.gdt[i]) {
      KeptIsIntact(rs0, m, log, MemWrite(0x500 + 8 * i, b.gdt[i]));
    }
    KeptIsIntact(rs0, m, log, MemWrite(0x2_0000, b.cmdline));
    if b.initramfs.Some? && b.initramfs.value != [] {
      KeptIsIntact(rs0, m, log, MemWrite(PageAlign(KernelEnd(b)), b.initramfs.value));
    }
    forall a: nat | LastByte(Kernel(b), a).Some? ensures a < |m| && Some(m[a]) == LastByte(Kernel(b), a) {
      AppliedByte(rs0, m, log, a);
    }
  }

  lemma AppliedShape(rs0: seq<RegionVal>, rs: seq<RegionVal>, log: seq<MemWrite>)
    requires Applied(rs0, rs, log) && |rs0| == 1 && rs0[0].start == 0
    ensures |rs| == 1 && rs[0].start == 0 && rs == Flat(rs[0].bytes)
  {
  }

  lemma AppliedByte(rs0: seq<RegionVal>, m: seq<byte>, log: seq<MemWrite>, a: nat)
    requires Applied(rs0, Flat(m), log) && LastByte(log, a).Some?
    ensures a < |m| && Some(m[a]) == LastByte(log, a)
  {
    hide LastByte, ByteAt;
    FlatByteAt(m, a);
  }

  /** In such memory each segment of a kernel without overlaps holds its file bytes and then zeroes. */
  lemma BootedKernel(b: Input, tables: seq<MemWrite>, rs: seq<RegionVal>, k: nat, a: nat)
    requires HasKernel(b) && b.Sized() && AreasIntact(b, tables, rs) && DisjointSegments(Loads(b.kernel).value)
    requires k < |Loads(b.kernel).value| && InSegment(Loads(b.kernel).value[k], a)
    ensures var ph := Loads(b.kernel).value[k];
            var m := rs[0].bytes;
            a < |m| && m[a] == if a < ph.paddr + ph.filesz then b.kernel[ph.offset + (a - ph.paddr)] else 0
  {
    hide LastByte, Loads, DisjointSegments, HeldAt;
    SegmentContents(b.kernel, Loads(b.kernel).value, k, a);
    assert LastByte(Kernel(b), a).Some?;
  }

  lemma SizedBounds(b: Input)
    requires b.Sized()
    ensures b.ramMib < U32_RANGE && |b.gdt| == 5
  {
  }

  lemma WholePages(mib: nat)
    ensures PageAlign(mib * MIB) == mib * MIB
  {
    assert mib * MIB == 4096 * (mib * 256);
  }

  // ---- What the guest sees ----------------------------------------------------------------

  /**
   * With at most 22 GiB, the page tables in the finished image translate every address below
   * the RAM size rounded up to GiB to itself, and no other 48-bit address.
   */
  lemma BootedWalkIsIdentity(b: Input, tables: seq<MemWrite>, m: seq<byte>, va: nat)
    requires b.Sized() && b.ramMib >= 2 && HasKernel(b) && KernelAboveLowMemory(b)
    requires AreTables(tables, b.GibCount()) && b.GibCount() <= 22
    requires |m| == b.RamBytes() && Applied(Flat(Zeroes(b.RamBytes())), Flat(m), BootLog(b, tables))
    requires va < 0x1_0000_0000_0000
    ensures Walk(m, PML4_GPA, va) ==
            if va < b.GibCount() * ONE_GIB then Some(Mapping(va, true, HUGE_PAGE_SIZE)) else None
  {
    TablesIntactIff(b, tables);
    hide AreTables, BootLog, Applied, Keeps, KernelAboveLowMemory, Walk, Input.Sized;
    forall k | 0 <= k < |tables|
      ensures Intact(m, tables[k])
    {
      TableSize(tables, b.GibCount(), k);
      TableCount(tables, b.GibCount());
      KeptIsIntact(Flat(Zeroes(b.RamBytes())), m, BootLog(b, tables), tables[k]);
    }
    WalkIsIdentity(m, tables, b.GibCount(), va);
  }

  /**
   * In terms of the RAM size: an address is mapped, to itself, exactly when it is in the first GiB
   * or in one that starts below the end of RAM; so all of RAM is, and less than 1 GiB above it.
   */
  lemma BootedWalkCoversRam(b: Input, tables: seq<MemWrite>, m: seq<byte>, va: nat)
    requires b.Sized() && b.ramMib >= 2 && HasKernel(b) && KernelAboveLowMemory(b)
    requires AreTables(tables, b.GibCount()) && b.ramMib <= 22 * 1024
    requires |m| == b.RamBytes() && Applied(Flat(Zeroes(b.RamBytes())), Flat(m), BootLog(b, tables))
    requires va < 0x1_0000_0000_0000
    ensures Walk(m, 0x8000, va) ==
            if va < 0x4000_0000 || va / 0x4000_0000 * 0x4000_0000 < b.ramMib * 0x10_0000
            then Some(Mapping(va, true, 0x20_0000)) else None
    ensures va < b.ramMib * 0x10_0000 ==> Walk(m, 0x8000, va) == Some(Mapping(va, true, 0x20_0000))
  {
    hide AreTables, BootLog, Applied, KernelAboveLowMemory, Walk, Input.Sized, Input.GibCount;
    GibsOfRam(b, va);
    BootedWalkIsIdentity(b, tables, m, va);
  }

  lemma GibsOfRam(b: Input, va: nat)
    ensures b.ramMib <= 22 * 1024 ==> b.GibCount() <= 22
    ensures va < b.GibCount() * 0x4000_0000 <==>
            va < 0x4000_0000 || va / 0x4000_0000 * 0x4000_0000 < b.ramMib * 0x10_0000
    ensures va < b.ramMib * 0x10_0000 ==> va < b.GibCount() * 0x4000_0000
  {
    var g := va / 0x4000_0000;
    assert va < b.GibCount() * 0x4000_0000 <==> g < b.GibCount();
    assert g < (b.ramMib + 1023) / 1024 <==> g * 1024 < b.ramMib;
  }

  /**
   * A machine of any size with a small kernel at 1 MiB and no initramfs: it boots exactly with 2 MiB
   * to 512 GiB, and up to 22 GiB it meets every premise of `EverythingIntact` and
   * `BootedWalkIsIdentity`.
   */
  method SmallMachine(ramMib: nat, kernelBytes: seq<byte>, bootParams: seq<byte>, cmdline: seq<byte>)
    returns (b: Input, tables: seq<MemWrite>)
    requires ramMib < U32_RANGE && |kernelBytes| < MIB && |bootParams| == 4096
    requires 0 < |cmdline| <= 4096 && !(0x80 <= cmdline[0] < 0xC0)
    ensures b.ramMib == ramMib && b.Sized() && HasKernel(b) && KernelAboveLowMemory(b)
    ensures Bootable(b) <==> 2 <= ramMib <= 512 * 1024
    ensures LaidOutSafely(b) <==> ramMib <= 22 * 1024
    ensures Bootable(b) ==> AreTables(tables, b.GibCount())
  {
    hide AreTables, AcceptsAll, Loads, SegmentImage, KernelEnd;
    b := Input(ramMib, 1, SegmentImage(KERNEL_LOAD_GPA, kernelBytes, 0), None, bootParams, bootParams,
               Zeroes(36), Zeroes(44), Zeroes(52), cmdline, seq(5, _ => Zeroes(8)));
    OneSegmentKernel(kernelBytes, ramMib);
    var built := BuildPageTables(b.GibCount());
    tables := if built.Some? then built.value.1 else [];
  }

  /** A kernel of one small segment at 1 MiB is loaded by any machine with 2 MiB or more. */
  lemma OneSegmentKernel(data: seq<byte>, ramMib: nat)
    requires |data| < MIB
    ensures var k := SegmentImage(KERNEL_LOAD_GPA, data, 0);
            && Loads(k).Some? && (2 <= ramMib ==> AcceptsAll(Flat(Zeroes(ramMib * MIB)), Loads(k).value))
            && Loads(k).value == [Phdr(PT_LOAD, 120, KERNEL_LOAD_GPA, |data|, |data|)]
  {
    hide Inside, ChunksInside, Loads, SegmentImage;
    SegmentImageLoads(KERNEL_LOAD_GPA, data, 0);
    if data != [] {
      FlatInside(Zeroes(ramMib * MIB), KERNEL_LOAD_GPA, |data|);
    }
  }

  /** No address of the three device windows is backed by RAM, so that accesses to them exit. */
  ghost predicate DevicesReachable(b: Input) {
    forall a: nat :: VIRTIO_MMIO_BASE <= a < VIRTIO_MMIO_BASE + 3 * VIRTIO_MMIO_SIZE ==>
      ByteAt(Flat(Zeroes(b.RamBytes())), a).None?
  }

  /** RAM runs into the device windows above 3328 MiB, which no validation refuses. */
  lemma DevicesReachableIff(b: Input)
    ensures DevicesReachable(b) <==> b.ramMib <= 3328
  {
    hide ByteAt;
    FlatByteAt(Zeroes(b.RamBytes()), VIRTIO_MMIO_BASE);
    if b.ramMib <= 3328 {
      forall a: nat | VIRTIO_MMIO_BASE <= a
        ensures ByteAt(Flat(Zeroes(b.RamBytes())), a).None?
      {
        FlatByteAt(Zeroes(b.RamBytes()), a);
      }
    } else {
      var a: nat := VIRTIO_MMIO_BASE;
      assert ByteAt(Flat(Zeroes(b.RamBytes())), a).Some?;
    }
  }
}
