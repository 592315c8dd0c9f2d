/**
 * Guest memory as a log of writes: the byte at an address is that of the last write covering it.
 */
module WriteLog {
  import opened Bytes
  import opened GuestMem

  datatype MemWrite = MemWrite(gpa: nat, data: seq<byte>) {
    function End(): nat { gpa + |data| }

    predicate Covers(a: nat) { gpa <= a < End() }

    predicate Misses(other: MemWrite) { End() <= other.gpa || other.End() <= gpa }
  }

  /** The byte the log leaves at `a`, if it touches `a`. */
  function LastByte(log: seq<MemWrite>, a: nat): (r: Option<byte>)
    ensures r.Some? <==> exists i :: 0 <= i < |log| && log[i].Covers(a)
  {
    if log == [] then None
    else
      var w := log[|log| - 1];
      assert w.Covers(a) ==> log[|log| - 1].Covers(a);
      assert forall i :: 0 <= i < |log| - 1 ==> log[i] == log[..|log| - 1][i];
      if w.Covers(a) then Some(w.data[a - w.gpa]) else LastByte(log[..|log| - 1], a)
  }

  lemma LastByteNone(log: seq<MemWrite>, a: nat)
    requires forall i :: 0 <= i < |log| ==> !log[i].Covers(a)
    ensures LastByte(log, a).None?
  {
  }

  lemma LastByteOne(w: MemWrite, a: nat)
    ensures LastByte([w], a) == if w.Covers(a) then Some(w.data[a - w.gpa]) else None
  {
    assert [w][..0] == [];
  }

  /** Later writes win; an untouched byte is that of the earlier log. */
  lemma {:induction false} LastByteConcat(xs: seq<MemWrite>, ys: seq<MemWrite>, a: nat)
    ensures LastByte(xs + ys, a) == if LastByte(ys, a).Some? then LastByte(ys, a) else LastByte(xs, a)
  {
    if ys == [] {
      assert xs + ys == xs;
    } else {
      assert (xs + ys)[..|xs + ys| - 1] == xs + ys[..|ys| - 1];
      LastByteConcat(xs, ys[..|ys| - 1], a);
    }
  }

  /** If exactly one write of the log covers `a`, or all that do agree, its byte is there. */
  lemma {:induction false} LastByteAgreed(log: seq<MemWrite>, a: nat, k: nat, b: byte)
    requires k < |log| && log[k].Covers(a)
    requires forall i :: 0 <= i < |log| && log[i].Covers(a) ==> log[i].data[a - log[i].gpa] == b
    ensures LastByte(log, a) == Some(b)
  {
    var n := |log| - 1;
    if !log[n].Covers(a) {
      LastByteAgreed(log[..n], a, k, b);
    }
  }

  /** `rs'` is `rs` after the log: same layout, and at every address the last byte written. */
  ghost predicate Applied(rs: seq<RegionVal>, rs': seq<RegionVal>, log: seq<MemWrite>) {
    && SameShape(rs, rs')
    && forall a: nat :: ByteAt(rs', a) == if LastByte(log, a).Some? then LastByte(log, a) else ByteAt(rs, a)
  }

  lemma AppliedNothing(rs: seq<RegionVal>)
    ensures Applied(rs, rs, [])
  {
  }

  lemma AppliedWrite(rs: seq<RegionVal>, mid: seq<RegionVal>, rs': seq<RegionVal>, log: seq<MemWrite>, w: MemWrite)
    requires Applied(rs, mid, log) && Wrote(mid, rs', w.gpa, w.data)
    ensures Applied(rs, rs', log + [w])
  {
    hide ByteAt;
    forall a: nat
      ensures ByteAt(rs', a) == if LastByte(log + [w], a).Some? then LastByte(log + [w], a) else ByteAt(rs, a)
    {
      LastByteConcat(log, [w], a);
      assert [w][..0] == [];
    }
  }

  lemma AppliedConcat(rs: seq<RegionVal>, mid: seq<RegionVal>, rs': seq<RegionVal>, xs: seq<MemWrite>, ys: seq<MemWrite>)
    requires Applied(rs, mid, xs) && Applied(mid, rs', ys)
    ensures Applied(rs, rs', xs + ys)
  {
    hide ByteAt, LastByte;
    forall a: nat
      ensures ByteAt(rs', a) == if LastByte(xs + ys, a).Some? then LastByte(xs + ys, a) else ByteAt(rs, a)
    {
      LastByteConcat(xs, ys, a);
    }
  }

  /** A memory of one region at address 0 is its byte sequence. */
  lemma FlatByteAt(m: seq<byte>, a: nat)
    ensures ByteAt([RegionVal(0, m)], a) == if a < |m| then Some(m[a]) else None
  {
    var rs := [RegionVal(0, m)];
    assert rs[..0] == [];
  }

  /** Memory still holds a write. */
  predicate Intact(m: seq<byte>, w: MemWrite) {
    w.End() <= |m| && m[w.gpa..w.End()] == w.data
  }
}
