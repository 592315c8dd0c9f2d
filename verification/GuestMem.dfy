/**
 * Guest physical memory (`GuestMemory`): a sorted list of disjoint regions, each backed by a
 * byte array, searched by bisection.
 *
 * `RegionVal` is the value of one region; the functions over `seq<RegionVal>` are the
 * specification: a linear scan for the region of an address, and the bytes it holds.
 */
module GuestMem {
  import opened Bytes

  const CHUNK_SIZE: nat := 4096

  datatype MemError = InvalidSize | Overlap | AllocFailed | NotMapped | OutOfBounds

  datatype RegionVal = RegionVal(start: nat, bytes: seq<byte>) {
    function End(): nat { start + |bytes| }

    predicate Contains(a: nat) { start <= a < End() }
  }

  /** Sorted, non-empty, pairwise disjoint and below the end of the 64-bit address space. */
  predicate Layout(rs: seq<RegionVal>) {
    && (forall i :: 0 <= i < |rs| ==> 0 < |rs[i].bytes| && rs[i].End() < U64_RANGE)
    && (forall i, j :: 0 <= i < j < |rs| ==> rs[i].End() <= rs[j].start)
  }

  /** Linear scan: the first region that contains `a`. */
  function Scan(rs: seq<RegionVal>, a: nat): (r: Option<nat>)
    ensures r.Some? ==> r.value < |rs| && rs[r.value].Contains(a)
    ensures r.None? ==> forall i :: 0 <= i < |rs| ==> !rs[i].Contains(a)
  {
    if rs == [] then None
    else if rs[|rs| - 1].Contains(a) && Scan(rs[..|rs| - 1], a).None? then Some(|rs| - 1)
    else Scan(rs[..|rs| - 1], a)
  }

  lemma ScanUnique(rs: seq<RegionVal>, a: nat, i: nat)
    requires Layout(rs) && i < |rs| && rs[i].Contains(a)
    ensures Scan(rs, a) == Some(i)
  {
    assert rs[Scan(rs, a).value].Contains(a);
  }

  /** Where an access of `len` bytes at `gpa` lands: region index and offset. */
  function Locate(rs: seq<RegionVal>, gpa: nat, len: nat): (r: Result<(nat, nat), MemError>)
    ensures r.Ok? ==>
              && r.value.0 < |rs| && rs[r.value.0].Contains(gpa)
              && r.value.1 == gpa - rs[r.value.0].start
              && r.value.1 + len <= |rs[r.value.0].bytes|
  {
    if gpa + len >= U64_RANGE then Err(OutOfBounds)
    else match Scan(rs, gpa)
      case None => Err(NotMapped)
      case Some(i) => if gpa + len > rs[i].End() then Err(OutOfBounds) else Ok((i, gpa - rs[i].start))
  }

  /** The access lies inside one region. */
  ghost predicate Inside(rs: seq<RegionVal>, gpa: nat, len: nat) {
    exists i :: 0 <= i < |rs| && rs[i].start <= gpa && gpa + len <= rs[i].End() && gpa < rs[i].End()
  }

  /** An access resolves exactly when it starts in a region and ends inside the same one. */
  lemma LocateIffInside(rs: seq<RegionVal>, gpa: nat, len: nat)
    requires Layout(rs)
    ensures Locate(rs, gpa, len).Ok? <==> Inside(rs, gpa, len)
  {
    if Locate(rs, gpa, len).Ok? {
      var i := Locate(rs, gpa, len).value.0;
      assert rs[i].start <= gpa && gpa + len <= rs[i].End() && gpa < rs[i].End();
    }
    if Inside(rs, gpa, len) {
      var i :| 0 <= i < |rs| && rs[i].start <= gpa && gpa + len <= rs[i].End() && gpa < rs[i].End();
      ScanUnique(rs, gpa, i);
    }
  }

  /** An address outside every region is not mapped; an access that overflows or leaves its region is out of bounds. */
  lemma LocateErrors(rs: seq<RegionVal>, gpa: nat, len: nat)
    requires Layout(rs)
    ensures Locate(rs, gpa, len) == Err(NotMapped) <==>
            && gpa + len < 0x1_0000_0000_0000_0000
            && forall i :: 0 <= i < |rs| ==> !(rs[i].start <= gpa < rs[i].start + |rs[i].bytes|)
    ensures Locate(rs, gpa, len).Err? ==> Locate(rs, gpa, len).error in {NotMapped, OutOfBounds}
    ensures forall i :: 0 <= i < |rs| && rs[i].start <= gpa && gpa + len <= rs[i].start + |rs[i].bytes| && gpa < rs[i].start + |rs[i].bytes| ==>
              Locate(rs, gpa, len) == Ok((i, gpa - rs[i].start))
  {
    forall i | 0 <= i < |rs| && rs[i].Contains(gpa) ensures Scan(rs, gpa) == Some(i) {
      ScanUnique(rs, gpa, i);
    }
  }

  /** The byte at address `a`, if mapped. */
  function ByteAt(rs: seq<RegionVal>, a: nat): Option<byte> {
    match Scan(rs, a)
    case None => None
    case Some(i) => Some(rs[i].bytes[a - rs[i].start])
  }

  /** The regions after a write of `data` at `gpa`; an empty write always succeeds. */
  function WriteVal(rs: seq<RegionVal>, gpa: nat, data: seq<byte>): (r: Result<seq<RegionVal>, MemError>)
    ensures r.Ok? ==> SameShape(rs, r.value)
  {
    if data == [] then Ok(rs)
    else match Locate(rs, gpa, |data|)
      case Err(e) => Err(e)
      case Ok((i, off)) => Ok(rs[i := RegionVal(rs[i].start, Splice(rs[i].bytes, off, data))])
  }

  function ReadVal(rs: seq<RegionVal>, gpa: nat, len: nat): Result<seq<byte>, MemError> {
    if len == 0 then Ok([])
    else match Locate(rs, gpa, len)
      case Err(e) => Err(e)
      case Ok((i, off)) => Ok(rs[i].bytes[off..off + len])
  }

  /** `rs'` is `rs` with `data` at `gpa`: same mapping, and every other byte unchanged. */
  ghost predicate Wrote(rs: seq<RegionVal>, rs': seq<RegionVal>, gpa: nat, data: seq<byte>) {
    && SameShape(rs, rs')
    && forall a: nat :: ByteAt(rs', a) ==
                        if gpa <= a < gpa + |data| then Some(data[a - gpa]) else ByteAt(rs, a)
  }

  predicate SameShape(rs: seq<RegionVal>, rs': seq<RegionVal>) {
    && |rs'| == |rs|
    && forall i :: 0 <= i < |rs| ==> rs'[i].start == rs[i].start && |rs'[i].bytes| == |rs[i].bytes|
  }

  lemma {:induction false} SameShapeScan(rs: seq<RegionVal>, rs': seq<RegionVal>, a: nat)
    requires SameShape(rs, rs')
    ensures Scan(rs', a) == Scan(rs, a)
  {
    if rs != [] {
      assert rs'[|rs| - 1].Contains(a) <==> rs[|rs| - 1].Contains(a);
      SameShapeScan(rs[..|rs| - 1], rs'[..|rs| - 1], a);
    }
  }

  lemma SameShapeLayout(rs: seq<RegionVal>, rs': seq<RegionVal>)
    requires SameShape(rs, rs') && Layout(rs)
    ensures Layout(rs')
  {
  }

  /** A successful write changes exactly the bytes it names. */
  lemma WriteFrames(rs: seq<RegionVal>, gpa: nat, data: seq<byte>)
    requires Layout(rs) && WriteVal(rs, gpa, data).Ok?
    ensures Wrote(rs, WriteVal(rs, gpa, data).value, gpa, data)
    ensures Layout(WriteVal(rs, gpa, data).value)
  {
    var rs' := WriteVal(rs, gpa, data).value;
    SameShapeLayout(rs, rs');
    forall a: nat
      ensures ByteAt(rs', a) == if gpa <= a < gpa + |data| then Some(data[a - gpa]) else ByteAt(rs, a)
    {
      SameShapeScan(rs, rs', a);
      if data != [] {
        var (i, off) := Locate(rs, gpa, |data|).value;
        if gpa <= a < gpa + |data| {
          ScanUnique(rs, a, i);
        } else if rs[i].Contains(a) {
          ScanUnique(rs, a, i);
        }
      }
    }
  }

  /** Reading back what was written, whatever the memory held before. */
  lemma ReadAfterWrite(rs: seq<RegionVal>, gpa: nat, data: seq<byte>)
    requires Layout(rs) && WriteVal(rs, gpa, data).Ok?
    ensures ReadVal(WriteVal(rs, gpa, data).value, gpa, |data|) == Ok(data)
  {
    if data != [] {
      var rs' := WriteVal(rs, gpa, data).value;
      var (i, off) := Locate(rs, gpa, |data|).value;
      SameShapeScan(rs, rs', gpa);
      assert rs'[i].bytes[off..off + |data|] == data;
    }
  }

  /** A read returns the bytes of the view, one by one. */
  lemma ReadIsView(rs: seq<RegionVal>, gpa: nat, len: nat, k: nat)
    requires Layout(rs) && ReadVal(rs, gpa, len).Ok? && k < len
    ensures |ReadVal(rs, gpa, len).value| == len
    ensures ByteAt(rs, gpa + k) == Some(ReadVal(rs, gpa, len).value[k])
  {
    var (i, off) := Locate(rs, gpa, len).value;
    ScanUnique(rs, gpa + k, i);
  }

  lemma WroteTwice(rs: seq<RegionVal>, mid: seq<RegionVal>, rs': seq<RegionVal>, gpa: nat, d1: seq<byte>, d2: seq<byte>)
    requires Wrote(rs, mid, gpa, d1) && Wrote(mid, rs', gpa + |d1|, d2)
    ensures Wrote(rs, rs', gpa, d1 + d2)
  {
    forall a: nat
      ensures ByteAt(rs', a) == if gpa <= a < gpa + |d1 + d2| then Some((d1 + d2)[a - gpa]) else ByteAt(rs, a)
    {
      assert ByteAt(mid, a) == if gpa <= a < gpa + |d1| then Some(d1[a - gpa]) else ByteAt(rs, a);
    }
  }

  /** `copy_nonoverlapping` into a backing array. */
  method CopyIn(mem: array<byte>, offset: nat, data: seq<byte>)
    requires offset + |data| <= mem.Length
    modifies mem
    ensures mem[..] == Splice(old(mem[..]), offset, data)
  {
    forall k | 0 <= k < |data| { mem[offset + k] := data[k]; }
  }

  datatype Region = Region(start: nat, mem: array<byte>) {
    function End(): nat { start + mem.Length }
  }

  /** The index is sorted by address, and no two regions share addresses or backing. */
  ghost predicate Sorted(regions: seq<Region>) {
    && (forall i :: 0 <= i < |regions| ==> 0 < regions[i].mem.Length && regions[i].End() < U64_RANGE)
    && (forall i, j :: 0 <= i < j < |regions| ==>
          regions[i].End() <= regions[j].start && regions[i].mem != regions[j].mem)
  }

  lemma InsertKeepsSorted(rs: seq<Region>, pos: nat, added: Region)
    requires Sorted(rs) && pos <= |rs|
    requires 0 < added.mem.Length && added.End() < U64_RANGE
    requires forall i :: 0 <= i < |rs| ==> rs[i].mem != added.mem
    requires forall i :: 0 <= i < pos ==> rs[i].End() <= added.start
    requires forall i :: pos <= i < |rs| ==> added.End() <= rs[i].start
    ensures Sorted(rs[..pos] + [added] + rs[pos..])
  {
    var all := rs[..pos] + [added] + rs[pos..];
    forall i, j | 0 <= i < j < |all|
      ensures all[i].End() <= all[j].start && all[i].mem != all[j].mem
    {
      assert i < pos ==> all[i] == rs[i];
      assert i > pos ==> all[i] == rs[i - 1];
      assert j < pos ==> all[j] == rs[j];
      assert j > pos ==> all[j] == rs[j - 1];
    }
  }

  /** Every whole or final chunk that starts before `done` lies inside a region. */
  ghost predicate ChunksInside(rs: seq<RegionVal>, gpa: nat, len: nat, done: nat)
    requires done <= len
  {
    forall k: nat :: k * CHUNK_SIZE < done ==>
      Inside(rs, gpa + k * CHUNK_SIZE, Min(len - k * CHUNK_SIZE, CHUNK_SIZE))
  }

  /** A chunk of `write_zeroes` is accepted exactly when it lies inside a region of the original layout. */
  lemma ZeroChunkAccepted(rs0: seq<RegionVal>, before: seq<RegionVal>, gpa: nat, done: nat, chunk: nat)
    requires Layout(rs0) && 0 < chunk && Wrote(rs0, before, gpa, Zeroes(done))
    ensures WriteVal(before, gpa + done, Zeroes(chunk)).Ok? <==> Inside(rs0, gpa + done, chunk)
  {
    hide ByteAt;
    LocateIffInside(rs0, gpa + done, chunk);
    SameShapeScan(rs0, before, gpa + done);
  }

  lemma StartZeroing(rs: seq<RegionVal>, gpa: nat, len: nat)
    ensures Wrote(rs, rs, gpa, Zeroes(0)) && ChunksInside(rs, gpa, len, 0)
  {
  }

  lemma ChunkInside(rs: seq<RegionVal>, gpa: nat, len: nat, done: nat)
    requires done < len && done % CHUNK_SIZE == 0 && ChunksInside(rs, gpa, len, done)
    requires Inside(rs, gpa + done, Min(len - done, CHUNK_SIZE))
    ensures ChunksInside(rs, gpa, len, done + Min(len - done, CHUNK_SIZE))
  {
    hide Inside;
    var done' := done + Min(len - done, CHUNK_SIZE);
    forall k: nat | k * CHUNK_SIZE < done'
      ensures Inside(rs, gpa + k * CHUNK_SIZE, Min(len - k * CHUNK_SIZE, CHUNK_SIZE))
    {
      if k * CHUNK_SIZE >= done {
        assert k == done / CHUNK_SIZE;
      }
    }
  }

  /** One accepted iteration of `write_zeroes`, after `done` bytes. */
  lemma ZeroChunkWritten(rs0: seq<RegionVal>, before: seq<RegionVal>, gpa: nat, done: nat, chunk: nat)
    requires Layout(rs0) && 0 < chunk && Wrote(rs0, before, gpa, Zeroes(done))
    requires WriteVal(before, gpa + done, Zeroes(chunk)).Ok?
    ensures Wrote(rs0, WriteVal(before, gpa + done, Zeroes(chunk)).value, gpa, Zeroes(done + chunk))
  {
    hide ByteAt;
    SameShapeLayout(rs0, before);
    WriteFrames(before, gpa + done, Zeroes(chunk));
    WroteTwice(rs0, before, WriteVal(before, gpa + done, Zeroes(chunk)).value, gpa, Zeroes(done), Zeroes(chunk));
    assert Zeroes(done) + Zeroes(chunk) == Zeroes(done + chunk);
  }

  class GuestMemory {
    var regions: seq<Region>

    ghost predicate Valid()
      reads this
    {
      Sorted(regions)
    }

    ghost function Repr(): set<object>
      reads this
    {
      set i | 0 <= i < |regions| :: regions[i].mem
    }

    /** The value of the whole memory. */
    ghost function Snapshot(): (rs: seq<RegionVal>)
      reads this, Repr()
      ensures |rs| == |regions|
      ensures forall i :: 0 <= i < |regions| ==> rs[i] == RegionVal(regions[i].start, regions[i].mem[..])
    {
      seq(|regions|, i requires 0 <= i < |regions| reads this, Repr() =>
        RegionVal(regions[i].start, regions[i].mem[..]))
    }

    lemma SnapshotLayout()
      requires Valid()
      ensures Layout(Snapshot())
    {
    }

    constructor ()
      ensures Valid() && regions == []
    {
      regions := [];
    }

    /** The half-open range misses every region. */
    predicate Free(gpa: nat, end: nat)
      reads this
    {
      forall i :: 0 <= i < |regions| ==> regions[i].End() <= gpa || end <= regions[i].start
    }

    /** The scan for overlaps at the head of `add_region`. */
    method IsFree(gpa: nat, end: nat) returns (free: bool)
      ensures free == Free(gpa, end)
    {
      for k := 0 to |regions|
        invariant forall i :: 0 <= i < k ==> regions[i].End() <= gpa || end <= regions[i].start
      {
        if gpa < regions[k].End() && end > regions[k].start {
          assert !(regions[k].End() <= gpa || end <= regions[k].start);
          return false;
        }
      }
      return true;
    }

    /** The index that keeps the regions sorted by start address. */
    method InsertPosition(gpa: nat) returns (pos: nat)
      requires Valid()
      ensures pos <= |regions|
      ensures forall i :: 0 <= i < pos ==> regions[i].start < gpa
      ensures forall i :: pos <= i < |regions| ==> gpa <= regions[i].start
    {
      pos := 0;
      while pos < |regions| && regions[pos].start < gpa
        invariant pos <= |regions|
        invariant forall i :: 0 <= i < pos ==> regions[i].start < gpa
      {
        pos := pos + 1;
      }
      assert forall i :: pos < i < |regions| ==> regions[pos].End() <= regions[i].start;
    }

    /**
     * `add_region`: rounds the size up to a page, refuses overlaps and inserts in order.
     * `allocOk` is the outcome of `VirtualAlloc`, which refuses an empty allocation.
     */
    method AddRegion(gpa: nat, size: nat, allocOk: bool) returns (r: Result<Region, MemError>, pos: nat)
      requires gpa < U64_RANGE && size < U64_RANGE
      requires Valid()
      modifies this
      ensures Valid()
      ensures r.Ok? <==>
                && size + 4095 < U64_RANGE && gpa + PageAlign(size) < U64_RANGE
                && old(Free(gpa, gpa + PageAlign(size)))
                && allocOk && 0 < size
      ensures r.Err? ==>
                && regions == old(regions)
                && r.error == if size + 4095 >= U64_RANGE || gpa + PageAlign(size) >= U64_RANGE then InvalidSize
                              else if !old(Free(gpa, gpa + PageAlign(size))) then Overlap
                              else AllocFailed
      ensures r.Ok? ==>
                && pos <= |old(regions)|
                && regions == old(regions)[..pos] + [r.value] + old(regions)[pos..]
                && r.value.start == gpa && r.value.mem[..] == Zeroes(PageAlign(size)) && fresh(r.value.mem)
    {
      pos := 0;
      if size + 4095 >= U64_RANGE {
        return Err(InvalidSize), pos;
      }
      var aligned := PageAlign(size);
      if gpa + aligned >= U64_RANGE {
        return Err(InvalidSize), pos;
      }
      var free := IsFree(gpa, gpa + aligned);
      if !free {
        return Err(Overlap), pos;
      }
      if !allocOk || aligned == 0 {
        return Err(AllocFailed), pos;
      }
      var mem := new byte[aligned](_ => 0);
      pos := InsertPosition(gpa);
      var region := Region(gpa, mem);
      assert mem[..] == Zeroes(aligned);
      InsertKeepsSorted(regions, pos, region);
      regions := regions[..pos] + [region] + regions[pos..];
      r := Ok(region);
    }

    /** `find_region`: bisection over the sorted regions. */
    method FindRegion(gpa: nat, len: nat) returns (r: Result<(nat, nat), MemError>)
      requires Valid()
      ensures r == Locate(Snapshot(), gpa, len)
    {
      if gpa + len >= U64_RANGE {
        return Err(OutOfBounds);
      }
      ghost var rs := Snapshot();
      assert Layout(rs);
      var lo, hi := 0, |regions|;
      while lo < hi
        invariant 0 <= lo <= hi <= |regions|
        invariant forall i :: 0 <= i < |regions| && (i < lo || hi <= i) ==> !rs[i].Contains(gpa)
      {
        var mid := (lo + hi) / 2;
        if gpa < regions[mid].start {
          hi := mid;
        } else if gpa >= regions[mid].End() {
          assert forall i :: 0 <= i < mid ==> rs[i].End() <= rs[mid].start;
          lo := mid + 1;
        } else {
          ScanUnique(rs, gpa, mid);
          var offset := gpa - regions[mid].start;
          var remaining := regions[mid].mem.Length - offset;
          if len > remaining {
            return Err(OutOfBounds);
          }
          return Ok((mid, offset));
        }
      }
      return Err(NotMapped);
    }

    /** `write_slice`: copies into the backing array of the region found. */
    method WriteSlice(gpa: nat, data: seq<byte>) returns (r: Result<(), MemError>)
      requires Valid()
      modifies Repr()
      ensures Valid()
      ensures match WriteVal(old(Snapshot()), gpa, data)
              case Ok(rs) => r.Ok? && Snapshot() == rs
              case Err(e) => r == Err(e) && Snapshot() == old(Snapshot())
    {
      if data == [] {
        return Ok(());
      }
      var found := FindRegion(gpa, |data|);
      if found.Err? {
        return Err(found.error);
      }
      var (i, off) := found.value;
      var mem := regions[i].mem;
      CopyIn(mem, off, data);
      assert Snapshot() == WriteVal(old(Snapshot()), gpa, data).value;
      return Ok(());
    }

    /** `read_slice`. */
    method ReadSlice(gpa: nat, len: nat) returns (r: Result<seq<byte>, MemError>)
      requires Valid()
      ensures r == ReadVal(Snapshot(), gpa, len)
    {
      if len == 0 {
        return Ok([]);
      }
      var found := FindRegion(gpa, len);
      if found.Err? {
        return Err(found.error);
      }
      var (i, off) := found.value;
      return Ok(regions[i].mem[off..off + len]);
    }

    /**
     * `write_zeroes`: a loop of 4096-byte writes.  On success one fill of the whole range; on
     * failure a zeroed prefix of whole chunks, stopped by the first chunk that is not inside
     * a region.
     */
    method WriteZeroes(gpa: nat, len: nat) returns (r: Result<(), MemError>, done: nat)
      requires Valid() && gpa < U64_RANGE
      modifies Repr()
      ensures Valid()
      ensures done <= len && Wrote(old(Snapshot()), Snapshot(), gpa, Zeroes(done))
      ensures r.Ok? ==> done == len
      ensures r.Err? ==>
                && done % 4096 == 0 && done < len
                && !Inside(old(Snapshot()), gpa + done, Min(len - done, 4096))
      ensures ChunksInside(old(Snapshot()), gpa, len, done)
    {
      hide ByteAt, WriteVal, Wrote, Inside, ChunksInside, Sorted, Layout, SameShape;
      ghost var rs0 := Snapshot();
      StartZeroing(rs0, gpa, len);
      SnapshotLayout();
      ghost var mem, chunks := rs0, 0;
      done := 0;
      while done < len
        invariant Valid()
        invariant done <= len
        invariant done < len ==> done == chunks * CHUNK_SIZE
        invariant Snapshot() == mem && Wrote(rs0, mem, gpa, Zeroes(done))
        invariant ChunksInside(rs0, gpa, len, done)
      {
        var chunk := Min(len - done, CHUNK_SIZE);
        ZeroChunkAccepted(rs0, mem, gpa, done, chunk);
        var w := WriteSlice(gpa + done, Zeroes(chunk));
        if w.Err? {
          return Err(w.error), done;
        }
        ZeroChunkWritten(rs0, mem, gpa, done, chunk);
        ChunkInside(rs0, gpa, len, done);
        mem := Snapshot();
        done := done + chunk;
        chunks := chunks + 1;
      }
      return Ok(()), done;
    }
  }
}
