/**
 * Identity-mapped page tables (`build_page_tables`) against a 4-level page walk
 * (Intel SDM Vol. 3A, section 4.5).
 *
 * Flag bits are disjoint from the addresses they are combined with, so `|` is written `+`.
 */
module PageTables {
  import opened Bytes
  import opened WriteLog

  const PML4_GPA: nat := 0x8000
  const PDPT_GPA: nat := 0x9000
  const PD_BASE_GPA: nat := 0xA000
  const TABLE_FLAGS: nat := 0x3
  const HUGE_PAGE_FLAGS: nat := 0x83
  const PAGE_SIZE: nat := 4096
  const ENTRIES_PER_TABLE: nat := 512
  const HUGE_PAGE_SIZE: nat := 0x20_0000
  const ONE_GIB: nat := 0x4000_0000
  const MAX_GIB: nat := 512

  /** The bytes of entry `k` of a table. */
  function Entry(table: seq<byte>, k: nat): seq<byte>
    requires |table| == PAGE_SIZE && k < ENTRIES_PER_TABLE
  {
    table[8 * k..8 * k + 8]
  }

  function Pml4Entry(k: nat): nat {
    if k == 0 then PDPT_GPA + TABLE_FLAGS else 0
  }

  function PdptEntry(gib: nat, k: nat): nat {
    if k < gib then PD_BASE_GPA + k * PAGE_SIZE + TABLE_FLAGS else 0
  }

  function PdEntry(i: nat, k: nat): nat {
    i * ONE_GIB + k * HUGE_PAGE_SIZE + HUGE_PAGE_FLAGS
  }

  ghost predicate IsPml4(t: seq<byte>) {
    |t| == PAGE_SIZE && forall k :: 0 <= k < ENTRIES_PER_TABLE ==> Entry(t, k) == ToLe(Pml4Entry(k), 8)
  }

  ghost predicate IsPdpt(t: seq<byte>, gib: nat) {
    |t| == PAGE_SIZE && forall k :: 0 <= k < ENTRIES_PER_TABLE ==> Entry(t, k) == ToLe(PdptEntry(gib, k), 8)
  }

  ghost predicate IsPd(t: seq<byte>, i: nat) {
    |t| == PAGE_SIZE && forall k :: 0 <= k < ENTRIES_PER_TABLE ==> Entry(t, k) == ToLe(PdEntry(i, k), 8)
  }

  /** PML4 and PDPT, then one page directory per GiB, on consecutive pages. */
  ghost predicate AreTables(writes: seq<MemWrite>, gib: nat) {
    && |writes| == gib + 2
    && (forall k :: 0 <= k < |writes| ==> writes[k].gpa == PML4_GPA + k * PAGE_SIZE)
    && IsPml4(writes[0].data) && IsPdpt(writes[1].data, gib)
    && forall k :: 2 <= k < |writes| ==> IsPd(writes[k].data, k - 2)
  }

  /** `write_entry`. */
  method WriteEntry(table: array<byte>, index: nat, value: nat)
    requires table.Length == PAGE_SIZE && index < ENTRIES_PER_TABLE
    modifies table
    ensures Entry(table[..], index) == ToLe(value, 8)
    ensures forall k :: 0 <= k < ENTRIES_PER_TABLE && k != index ==> Entry(table[..], k) == old(Entry(table[..], k))
  {
    var offset := index * 8;
    var bytes := ToLe(value, 8);
    forall b | 0 <= b < 8 { table[offset + b] := bytes[b]; }
    forall k | 0 <= k < ENTRIES_PER_TABLE && k != index
      ensures Entry(table[..], k) == old(Entry(table[..], k))
    {
      assert forall b :: 0 <= b < 8 ==> Entry(table[..], k)[b] == table[8 * k + b];
    }
  }

  lemma {:induction false} ZeroBytes(n: nat)
    ensures ToLe(0, n) == Zeroes(n)
  {
    if n > 0 {
      ZeroBytes(n - 1);
    }
  }

  lemma ZeroTable(k: nat)
    requires k < ENTRIES_PER_TABLE
    ensures Entry(Zeroes(PAGE_SIZE), k) == ToLe(0, 8)
  {
    ZeroBytes(8);
  }

  method ZeroedTable() returns (t: array<byte>)
    ensures fresh(t) && t.Length == PAGE_SIZE
    ensures forall k :: 0 <= k < ENTRIES_PER_TABLE ==> Entry(t[..], k) == ToLe(0, 8)
  {
    t := new byte[PAGE_SIZE](_ => 0);
    assert t[..] == Zeroes(PAGE_SIZE);
    forall k | 0 <= k < ENTRIES_PER_TABLE ensures Entry(t[..], k) == ToLe(0, 8) {
      ZeroTable(k);
    }
  }

  method BuildPdpt(gib: nat) returns (data: seq<byte>)
    requires gib <= MAX_GIB
    ensures IsPdpt(data, gib)
  {
    hide ToLe, Entry;
    var pdpt := ZeroedTable();
    for i := 0 to gib
      invariant forall k :: 0 <= k < ENTRIES_PER_TABLE ==>
                  Entry(pdpt[..], k) == ToLe(if k < i then PdptEntry(gib, k) else 0, 8)
    {
      var pdGpa := PD_BASE_GPA + i * PAGE_SIZE;
      WriteEntry(pdpt, i, pdGpa + TABLE_FLAGS);
    }
    data := pdpt[..];
  }

  method BuildPd(i: nat) returns (data: seq<byte>)
    ensures IsPd(data, i)
  {
    hide ToLe, Entry;
    var pd := ZeroedTable();
    for j := 0 to ENTRIES_PER_TABLE
      invariant forall k :: 0 <= k < j ==> Entry(pd[..], k) == ToLe(PdEntry(i, k), 8)
    {
      var physAddr := i * ONE_GIB + j * HUGE_PAGE_SIZE;
      WriteEntry(pd, j, physAddr + HUGE_PAGE_FLAGS);
    }
    data := pd[..];
  }

  /** `build_page_tables`: the address for CR3 and the table pages to write. */
  method BuildPageTables(gib: nat) returns (r: Option<(nat, seq<MemWrite>)>)
    ensures r.Some? <==> 1 <= gib <= MAX_GIB
    ensures r.Some? ==> r.value.0 == PML4_GPA && AreTables(r.value.1, gib)
  {
    hide IsPdpt, IsPd, ToLe, Entry;
    if gib == 0 || gib > MAX_GIB {
      return None;
    }
    var pml4 := ZeroedTable();
    WriteEntry(pml4, 0, PDPT_GPA + TABLE_FLAGS);
    var writes := [MemWrite(PML4_GPA, pml4[..])];
    var pdpt := BuildPdpt(gib);
    writes := writes + [MemWrite(PDPT_GPA, pdpt)];
    for i := 0 to gib
      invariant |writes| == i + 2
      invariant forall k :: 0 <= k < |writes| ==> writes[k].gpa == PML4_GPA + k * PAGE_SIZE
      invariant writes[0].data == pml4[..] && IsPml4(pml4[..]) && writes[1].data == pdpt
      invariant forall k :: 2 <= k < |writes| ==> IsPd(writes[k].data, k - 2)
    {
      var pd := BuildPd(i);
      writes := writes + [MemWrite(PD_BASE_GPA + i * PAGE_SIZE, pd)];
    }
    return Some((PML4_GPA, writes));
  }

  // ---- The page walk ----------------------------------------------------------------------

  /** The 8-byte entry at physical address `a`; absent memory reads as not present. */
  function ReadEntry(m: seq<byte>, a: nat): nat {
    if a + 8 <= |m| then FromLe(m[a..a + 8]) else 0
  }

  predicate Present(e: nat) { e % 2 == 1 }

  predicate Writable(e: nat) { e / 2 % 2 == 1 }

  /** The page-size bit. */
  predicate IsLeaf(e: nat) { e / 0x80 % 2 == 1 }

  /** Bits 51:12, the address of the next table. */
  function Next(e: nat): nat { e / 0x1000 % 0x100_0000_0000 * 0x1000 }

  datatype Mapping = Mapping(physical: nat, writable: bool, pageSize: nat)

  /** The translation of linear address `va` (48 bits) with page tables at `cr3`. */
  function Walk(m: seq<byte>, cr3: nat, va: nat): Option<Mapping> {
    var e4 := ReadEntry(m, cr3 + 8 * (va / 0x80_0000_0000 % 512));
    if !Present(e4) then None
    else
      var e3 := ReadEntry(m, Next(e4) + 8 * (va / 0x4000_0000 % 512));
      if !Present(e3) then None
      else if IsLeaf(e3) then
        if e3 / 0x2000 % 0x2_0000 != 0 then None
        else Some(Mapping(e3 / 0x4000_0000 % 0x40_0000 * 0x4000_0000 + va % 0x4000_0000, Writable(e4) && Writable(e3), 0x4000_0000))
      else
        var e2 := ReadEntry(m, Next(e3) + 8 * (va / 0x20_0000 % 512));
        var writable := Writable(e4) && Writable(e3) && Writable(e2);
        if !Present(e2) then None
        else if IsLeaf(e2) then
          if e2 / 0x2000 % 0x100 != 0 then None
          else Some(Mapping(e2 / 0x20_0000 % 0x8000_0000 * 0x20_0000 + va % 0x20_0000, writable, 0x20_0000))
        else
          var e1 := ReadEntry(m, Next(e2) + 8 * (va / 0x1000 % 512));
          if !Present(e1) then None
          else Some(Mapping(Next(e1) + va % 0x1000, writable && Writable(e1), 0x1000))
  }

  lemma EntryInMemory(m: seq<byte>, w: MemWrite, k: nat, v: nat)
    requires Intact(m, w) && |w.data| == PAGE_SIZE && k < ENTRIES_PER_TABLE && v < U64_RANGE
    requires Entry(w.data, k) == ToLe(v, 8)
    ensures ReadEntry(m, w.gpa + 8 * k) == v
  {
    SliceOfSlice(m, w.gpa, w.End(), 8 * k, 8 * k + 8);
    Pow256Values();
    LeRoundTrip(v, 8);
  }

  lemma HalfOf(q: nat, r: nat)
    ensures (2 * q + r) / 2 == q + r / 2 && (2 * q + r) % 2 == r % 2
  {
  }

  lemma Shift7(q: nat, r: nat)
    ensures (0x80 * q + r) / 0x80 == q + r / 0x80
  {
  }

  /** The low bits of an entry whose address part is a multiple of the page size. */
  lemma LowBits(q: nat, flags: nat, e: nat)
    requires flags < 0x1000 && e == q * 0x1000 + flags
    ensures Present(e) == Present(flags) && Writable(e) == Writable(flags) && IsLeaf(e) == IsLeaf(flags)
  {
    HalfOf(q * 0x800, flags);
    HalfOf(q * 0x400, flags / 2);
    Shift7(q * 0x20, flags);
    HalfOf(q * 0x10, flags / 0x80);
  }

  lemma LeafDecodes(i: nat, j: nat, e: nat)
    requires i < 512 && j < 512 && e == PdEntry(i, j)
    ensures Present(e) && Writable(e) && IsLeaf(e) && e / 0x2000 % 0x100 == 0
    ensures e / 0x20_0000 % 0x8000_0000 * 0x20_0000 == i * ONE_GIB + j * HUGE_PAGE_SIZE
  {
    var q := i * 512 + j;
    LowBits(q * 512, 0x83, e);
    hide Present, Writable, IsLeaf;
    FlagValues();
    assert e / 0x2000 == q * 0x100;
    assert e / 0x20_0000 == q;
  }

  lemma FlagValues()
    ensures Present(0x83) && Writable(0x83) && IsLeaf(0x83)
    ensures Present(3) && Writable(3) && !IsLeaf(3)
    ensures !Present(0)
  {
  }

  lemma TableDecodes(q: nat, e: nat)
    requires q < 0x100_0000 && e == q * 0x1000 + TABLE_FLAGS
    ensures Present(e) && Writable(e) && !IsLeaf(e) && Next(e) == q * 0x1000
  {
    hide Present, Writable, IsLeaf;
    LowBits(q, TABLE_FLAGS, e);
    FlagValues();
  }

  /**
   * For every supported size, walking memory that holds the tables maps each address below
   * `gib` GiB to itself on a present writable 2 MiB page, and no other 48-bit address at all.
   */
  lemma WalkIsIdentity(m: seq<byte>, writes: seq<MemWrite>, gib: nat, va: nat)
    requires 1 <= gib <= MAX_GIB && AreTables(writes, gib)
    requires forall k :: 0 <= k < |writes| ==> Intact(m, writes[k])
    requires va < 0x1_0000_0000_0000
    ensures Walk(m, PML4_GPA, va) ==
            if va < gib * ONE_GIB then Some(Mapping(va, true, HUGE_PAGE_SIZE)) else None
  {
    hide ToLe, FromLe, Entry, ReadEntry, Next, Present, Writable, IsLeaf, AreTables;
    var i4, i3, i2 := va / 0x80_0000_0000 % 512, va / 0x4000_0000 % 512, va / 0x20_0000 % 512;
    TableCount(writes, gib);
    Pml4IsTable(m, writes, gib, i4);
    SplitAddress(va, gib);
    FlagValues();
    if i4 == 0 {
      TableDecodes(9, PDPT_GPA + TABLE_FLAGS);
      PdptIsTable(m, writes, gib, i3);
      if i3 < gib {
        TableDecodes(10 + i3, PdptEntry(gib, i3));
        PdIsTable(m, writes, gib, i3, i2);
        LeafDecodes(i3, i2, PdEntry(i3, i2));
      }
    }
  }

  /** The indices of an address and its offset in a 2 MiB page. */
  lemma SplitAddress(va: nat, gib: nat)
    requires va < 0x1_0000_0000_0000 && gib <= MAX_GIB
    ensures var i4, i3, i2 := va / 0x80_0000_0000 % 512, va / 0x4000_0000 % 512, va / 0x20_0000 % 512;
            && (va < gib * ONE_GIB <==> i4 == 0 && i3 < gib)
            && (i4 == 0 ==> va == i3 * ONE_GIB + i2 * HUGE_PAGE_SIZE + va % 0x20_0000)
  {
    var p := va / 0x20_0000;
    var g := p / 512;
    assert g == va / 0x4000_0000;
    assert g / 512 == va / 0x80_0000_0000;
  }

  lemma TableCount(writes: seq<MemWrite>, gib: nat)
    requires AreTables(writes, gib)
    ensures |writes| == gib + 2
  {
  }

  lemma Pml4IsTable(m: seq<byte>, writes: seq<MemWrite>, gib: nat, k: nat)
    requires AreTables(writes, gib) && k < ENTRIES_PER_TABLE && Intact(m, writes[0])
    ensures ReadEntry(m, PML4_GPA + 8 * k) == Pml4Entry(k)
  {
    hide ToLe, Entry, IsPd, IsPdpt;
    EntryInMemory(m, writes[0], k, Pml4Entry(k));
  }

  lemma PdptIsTable(m: seq<byte>, writes: seq<MemWrite>, gib: nat, k: nat)
    requires AreTables(writes, gib) && gib <= MAX_GIB && k < ENTRIES_PER_TABLE && |writes| > 1 && Intact(m, writes[1])
    ensures ReadEntry(m, PDPT_GPA + 8 * k) == PdptEntry(gib, k)
  {
    hide ToLe, Entry, IsPd, IsPml4;
    EntryInMemory(m, writes[1], k, PdptEntry(gib, k));
  }

  lemma PdIsTable(m: seq<byte>, writes: seq<MemWrite>, gib: nat, i: nat, k: nat)
    requires AreTables(writes, gib) && i < gib <= MAX_GIB && k < ENTRIES_PER_TABLE
    requires i + 2 < |writes| && Intact(m, writes[i + 2])
    ensures ReadEntry(m, PD_BASE_GPA + i * PAGE_SIZE + 8 * k) == PdEntry(i, k)
  {
    hide ToLe, Entry, IsPml4, IsPdpt;
    assert IsPd(writes[i + 2].data, i);
    EntryInMemory(m, writes[i + 2], k, PdEntry(i, k));
  }
}
