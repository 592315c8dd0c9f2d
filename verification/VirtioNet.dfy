/**
 * The virtio-net backend: gathering transmitted frames from descriptor chains and scattering
 * received ones into them (virtio 1.1, section 5.1.6).  The virtqueue is a source of descriptor
 * chains and a list of returned ones.
 */
module VirtioNet {
  import opened Bytes
  import opened GuestMem
  import opened WriteLog

  const HDR_SIZE: nat := 12
  const MAX_GATHER: nat := 65536

  type Frame = seq<byte>

  datatype Desc = Desc(gpa: nat, len: nat, writable: bool)
  datatype Chain = Chain(head: nat, descs: seq<Desc>)
  datatype Used = Used(head: nat, len: nat)

  class VirtQueue {
    var avail: seq<Chain>
    var used: seq<Used>

    method PopChain() returns (c: Option<Chain>)
      modifies this`avail
      ensures old(avail) == [] ==> c.None? && avail == []
      ensures old(avail) != [] ==> c == Some(old(avail)[0]) && avail == old(avail)[1..]
    {
      if avail == [] {
        return None;
      }
      c, avail := Some(avail[0]), avail[1..];
    }

    method PushUsed(head: nat, len: nat)
      modifies this`used
      ensures used == old(used) + [Used(head, len)]
    {
      used := used + [Used(head, len)];
    }
  }

  // ---- Transmit ---------------------------------------------------------------------------

  /** The bytes the gathering loop ends with, having `acc` already. */
  function Gather(rs: seq<RegionVal>, descs: seq<Desc>, acc: seq<byte>): seq<byte> {
    if descs == [] then acc
    else if descs[0].writable then Gather(rs, descs[1..], acc)
    else if |acc| + descs[0].len > MAX_GATHER then acc
    else
      var b := ReadVal(rs, descs[0].gpa, descs[0].len);
      Gather(rs, descs[1..], if b.Ok? then acc + b.value else acc)
  }

  /** What the driver put in the chain: the contents of its readable, mapped buffers in order. */
  function Sent(rs: seq<RegionVal>, descs: seq<Desc>): seq<byte> {
    if descs == [] then []
    else
      var b := ReadVal(rs, descs[0].gpa, descs[0].len);
      (if descs[0].writable || b.Err? then [] else b.value) + Sent(rs, descs[1..])
  }

  predicate Mapped(rs: seq<RegionVal>, d: Desc) { d.len == 0 || Locate(rs, d.gpa, d.len).Ok? }

  predicate ReadableMapped(rs: seq<RegionVal>, descs: seq<Desc>) {
    forall i :: 0 <= i < |descs| && !descs[i].writable ==> Mapped(rs, descs[i])
  }

  /** The gathered bytes are a prefix of what the driver put there, never more than the cap. */
  lemma {:induction false} GatherIsPrefix(rs: seq<RegionVal>, descs: seq<Desc>, acc: seq<byte>)
    requires |acc| <= MAX_GATHER
    ensures Gather(rs, descs, acc) <= acc + Sent(rs, descs)
    ensures |acc| <= |Gather(rs, descs, acc)| <= MAX_GATHER
  {
    hide ReadVal, Locate, Mapped, Sent;
    if descs == [] {
      SentNothing(rs, acc);
    } else {
      var d := descs[0];
      ReadLength(rs, d);
      SentStep(rs, descs, acc);
      if d.writable {
        GatherIsPrefix(rs, descs[1..], acc);
      } else if |acc| + d.len <= MAX_GATHER {
        var b := ReadVal(rs, d.gpa, d.len);
        GatherIsPrefix(rs, descs[1..], if b.Ok? then acc + b.value else acc);
      }
    }
  }

  lemma SentNothing(rs: seq<RegionVal>, acc: seq<byte>)
    ensures acc + Sent(rs, []) == acc
  {
  }

  lemma SentStep(rs: seq<RegionVal>, descs: seq<Desc>, acc: seq<byte>)
    requires descs != []
    ensures var b := ReadVal(rs, descs[0].gpa, descs[0].len);
            acc + Sent(rs, descs) == (if descs[0].writable || b.Err? then acc else acc + b.value) + Sent(rs, descs[1..])
  {
    hide ReadVal;
    var b := ReadVal(rs, descs[0].gpa, descs[0].len);
    var part := if descs[0].writable || b.Err? then [] else b.value;
    Associates(acc, part, Sent(rs, descs[1..]));
    assert acc + [] == acc;
  }

  lemma Associates(a: seq<byte>, b: seq<byte>, c: seq<byte>)
    ensures a + (b + c) == (a + b) + c
  {
  }

  /** With mapped buffers, all of it is gathered exactly when it fits the cap. */
  lemma {:induction false} GatherWholeIff(rs: seq<RegionVal>, descs: seq<Desc>, acc: seq<byte>)
    requires |acc| <= MAX_GATHER && ReadableMapped(rs, descs)
    ensures Gather(rs, descs, acc) == acc + Sent(rs, descs) <==> |acc + Sent(rs, descs)| <= MAX_GATHER
  {
    hide ReadVal, Locate, Mapped;
    GatherIsPrefix(rs, descs, acc);
    if descs != [] && |acc + Sent(rs, descs)| <= MAX_GATHER {
      var d := descs[0];
      ReadLength(rs, d);
      var next := if d.writable then acc else acc + ReadVal(rs, d.gpa, d.len).value;
      assert next + Sent(rs, descs[1..]) == acc + Sent(rs, descs);
      GatherWholeIff(rs, descs[1..], next);
    }
  }

  /** The room that all readable buffers would take, mapped or not. */
  function ReadableRoom(descs: seq<Desc>): nat {
    if descs == [] then 0 else (if descs[0].writable then 0 else descs[0].len) + ReadableRoom(descs[1..])
  }

  /** Unmapped buffers are skipped and end nothing: with room for all, every mapped one is gathered. */
  lemma {:induction false} GatherSkipsUnmapped(rs: seq<RegionVal>, descs: seq<Desc>, acc: seq<byte>)
    requires |acc| + ReadableRoom(descs) <= 65536
    ensures Gather(rs, descs, acc) == acc + Sent(rs, descs)
  {
    hide ReadVal, Locate, Mapped, Sent;
    if descs == [] {
      SentNothing(rs, acc);
    } else {
      var d := descs[0];
      ReadLength(rs, d);
      SentStep(rs, descs, acc);
      var b := ReadVal(rs, d.gpa, d.len);
      GatherSkipsUnmapped(rs, descs[1..], if d.writable || b.Err? then acc else acc + b.value);
    }
  }

  lemma ReadLength(rs: seq<RegionVal>, d: Desc)
    ensures ReadVal(rs, d.gpa, d.len).Ok? <==> Mapped(rs, d)
    ensures ReadVal(rs, d.gpa, d.len).Ok? ==> |ReadVal(rs, d.gpa, d.len).value| == d.len
  {
  }

  /** The frame, if any, that a chain yields. */
  function FrameOf(rs: seq<RegionVal>, c: Chain): (fs: seq<Frame>)
    ensures |fs| <= 1
  {
    var g := Gather(rs, c.descs, []);
    if |g| > HDR_SIZE then [g[HDR_SIZE..]] else []
  }

  function FramesOf(rs: seq<RegionVal>, cs: seq<Chain>): (fs: seq<Frame>)
    ensures |fs| <= |cs|
  {
    if cs == [] then [] else FramesOf(rs, cs[..|cs| - 1]) + FrameOf(rs, cs[|cs| - 1])
  }

  lemma FramesSnoc(rs: seq<RegionVal>, cs: seq<Chain>, k: nat)
    requires k < |cs|
    ensures FramesOf(rs, cs[..k + 1]) == FramesOf(rs, cs[..k]) + FrameOf(rs, cs[k])
  {
    assert cs[..k + 1][..k] == cs[..k];
  }

  /** A header and a frame, split in any way over mapped buffers, arrive as that frame iff it is non-empty and fits. */
  lemma FrameTransmittedIff(rs: seq<RegionVal>, c: Chain, hdr: seq<byte>, frame: Frame)
    requires ReadableMapped(rs, c.descs) && Sent(rs, c.descs) == hdr + frame && |hdr| == 12
    ensures FrameOf(rs, c) == [frame] <==> frame != [] && 12 + |frame| <= 65536
  {
    GatherIsPrefix(rs, c.descs, []);
    GatherWholeIff(rs, c.descs, []);
    assert [] + Sent(rs, c.descs) == hdr + frame;
    assert (hdr + frame)[HDR_SIZE..] == frame;
  }

  /** Each chain goes back once, in order, with length 0. */
  function Returned(cs: seq<Chain>): (us: seq<Used>)
    ensures |us| == |cs|
    ensures forall i :: 0 <= i < |cs| ==> us[i] == Used(cs[i].head, 0)
  {
    seq(|cs|, i requires 0 <= i < |cs| => Used(cs[i].head, 0))
  }

  // ---- Receive ----------------------------------------------------------------------------

  function Payload(f: Frame): (p: seq<byte>)
    ensures |p| == HDR_SIZE + |f|
  {
    Zeroes(HDR_SIZE) + f
  }

  /** The writes that scatter `payload` over the writable buffers. */
  function Scatter(rs: seq<RegionVal>, descs: seq<Desc>, payload: seq<byte>): seq<MemWrite> {
    if descs == [] then []
    else if !descs[0].writable || payload == [] then Scatter(rs, descs[1..], payload)
    else
      var n := Min(|payload|, descs[0].len);
      if WriteVal(rs, descs[0].gpa, payload[..n]).Ok?
      then [MemWrite(descs[0].gpa, payload[..n])] + Scatter(rs, descs[1..], payload[n..])
      else Scatter(rs, descs[1..], payload)
  }

  function Flat(log: seq<MemWrite>): seq<byte> {
    if log == [] then [] else log[0].data + Flat(log[1..])
  }

  lemma {:induction false} FlatConcat(xs: seq<MemWrite>, ys: seq<MemWrite>)
    ensures Flat(xs + ys) == Flat(xs) + Flat(ys)
  {
    if xs == [] {
      assert xs + ys == ys;
    } else {
      assert (xs + ys)[1..] == xs[1..] + ys;
      FlatConcat(xs[1..], ys);
    }
  }

  function Capacity(descs: seq<Desc>): nat {
    if descs == [] then 0 else (if descs[0].writable then descs[0].len else 0) + Capacity(descs[1..])
  }

  predicate WritableMapped(rs: seq<RegionVal>, descs: seq<Desc>) {
    forall i :: 0 <= i < |descs| && descs[i].writable ==> Mapped(rs, descs[i])
  }

  lemma WriteAccepted(rs: seq<RegionVal>, gpa: nat, data: seq<byte>)
    ensures WriteVal(rs, gpa, data).Ok? <==> data == [] || Locate(rs, gpa, |data|).Ok?
    ensures forall d: Desc :: d.gpa == gpa && |data| <= d.len && Mapped(rs, d) ==> WriteVal(rs, gpa, data).Ok?
  {
  }

  /** The scattered bytes are a prefix of the payload; with mapped buffers, as much as there is room for. */
  lemma {:induction false} ScatterIsPrefix(rs: seq<RegionVal>, descs: seq<Desc>, payload: seq<byte>)
    ensures Flat(Scatter(rs, descs, payload)) <= payload
    ensures WritableMapped(rs, descs) ==>
              |Flat(Scatter(rs, descs, payload))| == Min(|payload|, Capacity(descs))
  {
    hide WriteVal, Mapped;
    if descs != [] {
      var d := descs[0];
      assert WritableMapped(rs, descs) ==> WritableMapped(rs, descs[1..]);
      var n := Min(|payload|, d.len);
      WriteAccepted(rs, d.gpa, payload[..n]);
      if d.writable && payload != [] && WriteVal(rs, d.gpa, payload[..n]).Ok? {
        ScatterIsPrefix(rs, descs[1..], payload[n..]);
        FlatFirst(MemWrite(d.gpa, payload[..n]), Scatter(rs, descs[1..], payload[n..]));
        assert payload == payload[..n] + payload[n..];
      } else {
        ScatterIsPrefix(rs, descs[1..], payload);
      }
    }
  }

  /** The buffers that can be written. */
  function Usable(rs: seq<RegionVal>, descs: seq<Desc>): seq<Desc> {
    if descs == [] then []
    else (if descs[0].writable && Mapped(rs, descs[0]) then [descs[0]] else []) + Usable(rs, descs[1..])
  }

  /** Each writable buffer is mapped as a whole, or not even its first byte is. */
  predicate AllOrNothing(rs: seq<RegionVal>, descs: seq<Desc>) {
    forall i :: 0 <= i < |descs| && descs[i].writable ==> Mapped(rs, descs[i]) || Scan(rs, descs[i].gpa).None?
  }

  lemma NowhereToWrite(rs: seq<RegionVal>, d: Desc, data: seq<byte>)
    requires Scan(rs, d.gpa).None? && data != []
    ensures WriteVal(rs, d.gpa, data).Err?
  {
  }

  lemma {:induction false} ScatterNothing(rs: seq<RegionVal>, descs: seq<Desc>)
    ensures Scatter(rs, descs, []) == []
  {
    if descs != [] {
      ScatterNothing(rs, descs[1..]);
    }
  }

  /** Buffers that cannot be written are skipped and cost nothing: the bytes go to the others. */
  lemma {:induction false} ScatterSkipsUnmapped(rs: seq<RegionVal>, descs: seq<Desc>, payload: seq<byte>)
    requires AllOrNothing(rs, descs)
    ensures Scatter(rs, descs, payload) == Scatter(rs, Usable(rs, descs), payload)
  {
    hide WriteVal, Scan;
    if payload == [] {
      ScatterNothing(rs, descs);
      ScatterNothing(rs, Usable(rs, descs));
    } else if descs != [] {
      var d, rest := descs[0], descs[1..];
      assert AllOrNothing(rs, rest);
      var n := Min(|payload|, d.len);
      ScatterSkipsUnmapped(rs, rest, payload);
      ScatterSkipsUnmapped(rs, rest, payload[n..]);
      if d.writable && Mapped(rs, d) {
        assert Usable(rs, descs)[0] == d && Usable(rs, descs)[1..] == Usable(rs, rest);
      } else {
        assert Usable(rs, descs) == Usable(rs, rest);
        if d.writable {
          NowhereToWrite(rs, d, payload[..n]);
        }
      }
    }
  }

  lemma FlatFirst(w: MemWrite, ws: seq<MemWrite>)
    ensures Flat([w] + ws) == w.data + Flat(ws)
  {
    assert ([w] + ws)[1..] == ws;
  }

  /** A frame arrives whole exactly when the chain has room for it and its header. */
  lemma DeliveredWholeIff(rs: seq<RegionVal>, descs: seq<Desc>, f: Frame)
    requires WritableMapped(rs, descs)
    ensures Flat(Scatter(rs, descs, Payload(f))) == Payload(f) <==> 12 + |f| <= Capacity(descs)
  {
    ScatterIsPrefix(rs, descs, Payload(f));
  }

  /** Two buffers share no address. */
  predicate DisjointBuffers(descs: seq<Desc>) {
    forall i, j :: 0 <= i < j < |descs| ==>
      descs[i].gpa + descs[i].len <= descs[j].gpa || descs[j].gpa + descs[j].len <= descs[i].gpa
  }

  /** The writes touch no address twice. */
  predicate Apart(log: seq<MemWrite>) {
    forall i, j :: 0 <= i < j < |log| ==> log[i].Misses(log[j])
  }

  predicate InBuffer(d: Desc, w: MemWrite) { d.writable && d.gpa == w.gpa && |w.data| <= d.len }

  /** Every write stays in one of the writable buffers. */
  lemma {:induction false} ScatterInBuffers(rs: seq<RegionVal>, descs: seq<Desc>, payload: seq<byte>, w: MemWrite)
    requires w in Scatter(rs, descs, payload)
    ensures exists i :: 0 <= i < |descs| && InBuffer(descs[i], w)
  {
    hide WriteVal, InBuffer;
    if descs != [] {
      var d, rest := descs[0], descs[1..];
      var n := Min(|payload|, d.len);
      if d.writable && payload != [] && w == MemWrite(d.gpa, payload[..n]) {
        FirstInBuffer(d, payload[..n]);
        assert InBuffer(descs[0], w);
      } else {
        var p := if d.writable && payload != [] && WriteVal(rs, d.gpa, payload[..n]).Ok? then payload[n..] else payload;
        ScatterInBuffers(rs, rest, p, w);
        var i :| 0 <= i < |rest| && InBuffer(rest[i], w);
        assert InBuffer(descs[i + 1], w);
      }
    }
  }

  lemma FirstInBuffer(d: Desc, data: seq<byte>)
    requires d.writable && |data| <= d.len
    ensures InBuffer(d, MemWrite(d.gpa, data))
  {
  }

  lemma {:induction false} ScatterApart(rs: seq<RegionVal>, descs: seq<Desc>, payload: seq<byte>)
    requires DisjointBuffers(descs)
    ensures Apart(Scatter(rs, descs, payload))
  {
    hide WriteVal, Apart, InBuffer;
    if descs == [] {
      ApartEmpty();
    } else {
      var d, rest := descs[0], descs[1..];
      var n := Min(|payload|, d.len);
      if d.writable && payload != [] && WriteVal(rs, d.gpa, payload[..n]).Ok? {
        ScatterApart(rs, rest, payload[n..]);
        var first := MemWrite(d.gpa, payload[..n]);
        var later := Scatter(rs, rest, payload[n..]);
        forall w | w in later ensures first.Misses(w) {
          ScatterInBuffers(rs, rest, payload[n..], w);
          var i :| 0 <= i < |rest| && InBuffer(rest[i], w);
          FirstMisses(descs, i + 1, first, w);
        }
        ApartFirst(first, later);
      } else {
        ScatterApart(rs, rest, payload);
      }
    }
  }

  lemma FirstMisses(descs: seq<Desc>, i: nat, first: MemWrite, w: MemWrite)
    requires DisjointBuffers(descs) && 0 < i < |descs|
    requires first.gpa == descs[0].gpa && |first.data| <= descs[0].len && InBuffer(descs[i], w)
    ensures first.Misses(w)
  {
  }

  lemma ApartEmpty()
    ensures Apart([])
  {
  }

  lemma ApartFirst(first: MemWrite, later: seq<MemWrite>)
    requires Apart(later) && forall w :: w in later ==> first.Misses(w)
    ensures Apart([first] + later)
  {
  }

  /** With disjoint buffers the guest reads back, buffer by buffer, exactly what was scattered. */
  lemma GuestReadsBack(rs: seq<RegionVal>, rs': seq<RegionVal>, descs: seq<Desc>, payload: seq<byte>, k: nat)
    requires Layout(rs) && DisjointBuffers(descs)
    requires k < |Scatter(rs, descs, payload)| && Applied(rs, rs', Scatter(rs, descs, payload))
    ensures var w := Scatter(rs, descs, payload)[k]; ReadVal(rs', w.gpa, |w.data|) == Ok(w.data)
  {
    hide ByteAt, LastByte, WriteVal, ReadVal, Locate, DisjointBuffers, Scatter, Apart;
    var log := Scatter(rs, descs, payload);
    var w := log[k];
    ScatterApart(rs, descs, payload);
    ScatterAccepted(rs, descs, payload, k);
    SameShapeLayout(rs, rs');
    ReadAccepted(rs, rs', w);
    var got := ReadVal(rs', w.gpa, |w.data|).value;
    forall j: nat | j < |w.data| ensures got[j] == w.data[j] {
      OnlyCover(log, k, w.gpa + j);
      LastByteAgreed(log, w.gpa + j, k, w.data[j]);
      ReadIsView(rs', w.gpa, |w.data|, j);
    }
    assert got == w.data;
  }

  /** Where byte `k` belongs: walking the writable buffers in chain order. */
  function BufferAddress(descs: seq<Desc>, k: nat): nat
    requires k < Capacity(descs)
  {
    if !descs[0].writable then BufferAddress(descs[1..], k)
    else if k < descs[0].len then descs[0].gpa + k
    else BufferAddress(descs[1..], k - descs[0].len)
  }

  /** Some write puts `b` at address `a`. */
  ghost predicate Puts(log: seq<MemWrite>, a: nat, b: byte) {
    exists j :: 0 <= j < |log| && log[j].Covers(a) && log[j].data[a - log[j].gpa] == b
  }

  lemma PutsLater(w: MemWrite, log: seq<MemWrite>, a: nat, b: byte)
    requires Puts(log, a, b)
    ensures Puts([w] + log, a, b)
  {
    var j :| 0 <= j < |log| && log[j].Covers(a) && log[j].data[a - log[j].gpa] == b;
    assert ([w] + log)[j + 1] == log[j];
  }

  /** With mapped buffers, payload byte `k` is written where it belongs. */
  lemma {:induction false} ScatterFillsInOrder(rs: seq<RegionVal>, descs: seq<Desc>, payload: seq<byte>, k: nat)
    requires WritableMapped(rs, descs) && k < |payload| && k < Capacity(descs)
    ensures Puts(Scatter(rs, descs, payload), BufferAddress(descs, k), payload[k])
  {
    hide WriteVal, Mapped, Puts;
    var d, rest := descs[0], descs[1..];
    assert WritableMapped(rs, rest);
    if !d.writable {
      ScatterFillsInOrder(rs, rest, payload, k);
    } else {
      var n := Min(|payload|, d.len);
      WriteAccepted(rs, d.gpa, payload[..n]);
      var first, later := MemWrite(d.gpa, payload[..n]), Scatter(rs, rest, payload[n..]);
      assert Mapped(rs, descs[0]);
      if k < d.len {
        PutsFirst(first, later, k);
      } else {
        ScatterFillsInOrder(rs, rest, payload[n..], k - d.len);
        PutsLater(first, later, BufferAddress(descs, k), payload[k]);
      }
    }
  }

  lemma PutsFirst(w: MemWrite, log: seq<MemWrite>, k: nat)
    requires k < |w.data|
    ensures Puts([w] + log, w.gpa + k, w.data[k])
  {
    assert ([w] + log)[0] == w && w.Covers(w.gpa + k);
  }

  /**
   * What the guest finds with mapped, disjoint buffers: walking them in order, twelve zero bytes
   * and then the frame, as far as there is room.
   */
  lemma GuestSeesFrame(rs: seq<RegionVal>, rs': seq<RegionVal>, descs: seq<Desc>, f: Frame, k: nat)
    requires WritableMapped(rs, descs) && DisjointBuffers(descs) && k < 12 + |f| && k < Capacity(descs)
    requires Applied(rs, rs', Scatter(rs, descs, Payload(f)))
    ensures ByteAt(rs', BufferAddress(descs, k)) == Some(if k < 12 then 0 else f[k - 12])
  {
    hide ByteAt, LastByte, WriteVal, DisjointBuffers, Scatter, WritableMapped, BufferAddress, Capacity;
    var log, a, b := Scatter(rs, descs, Payload(f)), BufferAddress(descs, k), Payload(f)[k];
    ScatterFillsInOrder(rs, descs, Payload(f), k);
    ScatterApart(rs, descs, Payload(f));
    var j :| 0 <= j < |log| && log[j].Covers(a) && log[j].data[a - log[j].gpa] == b;
    OnlyCover(log, j, a);
    LastByteAgreed(log, a, j, b);
  }

  lemma OnlyCover(log: seq<MemWrite>, k: nat, a: nat)
    requires k < |log| && log[k].Covers(a) && Apart(log)
    ensures forall i :: 0 <= i < |log| && log[i].Covers(a) ==> i == k
  {
    assert forall i :: 0 <= i < |log| && i != k ==> log[i].Misses(log[k]) || log[k].Misses(log[i]);
  }

  lemma {:induction false} ScatterAccepted(rs: seq<RegionVal>, descs: seq<Desc>, payload: seq<byte>, k: nat)
    requires k < |Scatter(rs, descs, payload)|
    ensures var w := Scatter(rs, descs, payload)[k]; WriteVal(rs, w.gpa, w.data).Ok?
  {
    hide WriteVal;
    if descs != [] {
      var n := Min(|payload|, descs[0].len);
      if descs[0].writable && payload != [] && WriteVal(rs, descs[0].gpa, payload[..n]).Ok? {
        if k > 0 {
          ScatterAccepted(rs, descs[1..], payload[n..], k - 1);
        }
      } else {
        ScatterAccepted(rs, descs[1..], payload, k);
      }
    }
  }

  lemma ReadAccepted(rs: seq<RegionVal>, rs': seq<RegionVal>, w: MemWrite)
    requires SameShape(rs, rs') && WriteVal(rs, w.gpa, w.data).Ok?
    ensures ReadVal(rs', w.gpa, |w.data|).Ok? && |ReadVal(rs', w.gpa, |w.data|).value| == |w.data|
  {
    SameShapeScan(rs, rs', w.gpa);
  }

  lemma WriteSameShape(rs: seq<RegionVal>, rs': seq<RegionVal>, gpa: nat, data: seq<byte>)
    requires SameShape(rs, rs')
    ensures WriteVal(rs', gpa, data).Ok? <==> WriteVal(rs, gpa, data).Ok?
  {
    SameShapeScan(rs, rs', gpa);
  }

  // ---- The device -------------------------------------------------------------------------

  /** A frame handed to the guest: its chain's used entry and the writes made. */
  datatype Delivery = Delivery(frame: Frame, used: Used, log: seq<MemWrite>) {
    predicate Honest() {
      && 0 < used.len == |Flat(log)|
      && Flat(log) <= Payload(frame)
    }
  }

  function FramesIn(ds: seq<Delivery>): (fs: seq<Frame>)
    ensures |fs| == |ds|
  {
    seq(|ds|, i requires 0 <= i < |ds| => ds[i].frame)
  }

  class VirtioNetDevice {
    var txChannel: seq<Frame>
    var rxChannel: seq<Frame>
    var rxPending: seq<Frame>
    ghost var hostSent: seq<Frame>
    ghost var delivered: seq<Delivery>

    /** Conservation: delivered, then pending, then queued frames are those the host sent. */
    ghost predicate Valid()
      reads this
    {
      && FramesIn(delivered) + rxPending + rxChannel == hostSent
      && forall i :: 0 <= i < |delivered| ==> delivered[i].Honest()
    }

    constructor ()
      ensures Valid() && hostSent == [] && txChannel == []
    {
      txChannel, rxChannel, rxPending, hostSent, delivered := [], [], [], [], [];
    }

    /** The host's end of the receive channel. */
    method HostSend(f: Frame)
      requires Valid()
      modifies this`rxChannel, this`hostSent
      ensures Valid() && hostSent == old(hostSent) + [f]
    {
      rxChannel, hostSent := rxChannel + [f], hostSent + [f];
      assert FramesIn(delivered) + rxPending + rxChannel == FramesIn(delivered) + rxPending + old(rxChannel) + [f];
    }

    /** The inner loop of `process_tx`. */
    static method GatherChain(mem: GuestMemory, c: Chain) returns (frameData: seq<byte>)
      requires mem.Valid()
      ensures frameData == Gather(mem.Snapshot(), c.descs, [])
    {
      hide ReadVal;
      ghost var rs := mem.Snapshot();
      frameData := [];
      var i := 0;
      assert c.descs[0..] == c.descs;
      while i < |c.descs|
        invariant 0 <= i <= |c.descs|
        invariant mem.Snapshot() == rs
        invariant Gather(rs, c.descs[i..], frameData) == Gather(rs, c.descs, [])
      {
        var desc := c.descs[i];
        assert c.descs[i..][1..] == c.descs[i + 1..];
        if !desc.writable {
          if |frameData| + desc.len > MAX_GATHER {
            break;
          }
          var r := mem.ReadSlice(desc.gpa, desc.len);
          if r.Ok? {
            frameData := frameData + r.value;
          }
        }
        i := i + 1;
      }
    }

    /** `process_tx`: every available chain yields its frame and goes back. */
    method ProcessTx(queue: VirtQueue, mem: GuestMemory)
      requires Valid() && mem.Valid()
      modifies this`txChannel, queue
      ensures Valid()
      ensures queue.avail == [] && queue.used == old(queue.used) + Returned(old(queue.avail))
      ensures txChannel == old(txChannel) + FramesOf(mem.Snapshot(), old(queue.avail))
    {
      hide Gather, FramesOf, Delivery.Honest, Sorted;
      ghost var rs, all := mem.Snapshot(), queue.avail;
      var k := 0;
      while queue.avail != []
        invariant 0 <= k <= |all| && queue.avail == all[k..]
        invariant mem.Snapshot() == rs && Valid()
        invariant queue.used == old(queue.used) + Returned(all[..k])
        invariant txChannel == old(txChannel) + FramesOf(rs, all[..k])
        decreases |queue.avail|
      {
        var popped := queue.PopChain();
        var chain := popped.value;
        assert mem.Snapshot() == rs;
        var frameData := GatherChain(mem, chain);
        assert mem.Snapshot() == rs;
        assert chain == all[k] && frameData == Gather(rs, all[k].descs, []);
        FramesSnoc(rs, all, k);
        if |frameData| > HDR_SIZE {
          txChannel := txChannel + [frameData[HDR_SIZE..]];
        }
        assert txChannel == old(txChannel) + (FramesOf(rs, all[..k]) + FrameOf(rs, all[k]));
        queue.PushUsed(chain.head, 0);
        assert Returned(all[..k]) + [Used(chain.head, 0)] == Returned(all[..k + 1]);
        k := k + 1;
      }
      assert all[..k] == all;
    }

    /** The descriptor loop of `deliver_rx`. */
    static method ScatterChain(mem: GuestMemory, c: Chain, payload: seq<byte>) returns (totalWritten: nat, ghost log: seq<MemWrite>)
      requires mem.Valid()
      modifies mem.Repr()
      ensures mem.Valid()
      ensures log == Scatter(old(mem.Snapshot()), c.descs, payload)
      ensures totalWritten == |Flat(log)|
      ensures Applied(old(mem.Snapshot()), mem.Snapshot(), log)
    {
      hide WriteVal, Wrote, Applied, Sorted, Layout, Flat, Scatter;
      ghost var rs := mem.Snapshot();
      totalWritten, log := 0, [];
      var offset := 0;
      StartScatter(rs);
      assert c.descs[0..] == c.descs && payload[0..] == payload;
      for i := 0 to |c.descs|
        invariant mem.Valid() && mem.regions == old(mem.regions)
        invariant offset == totalWritten == |Flat(log)| <= |payload|
        invariant log + Scatter(rs, c.descs[i..], payload[offset..]) == Scatter(rs, c.descs, payload)
        invariant Applied(rs, mem.Snapshot(), log)
      {
        var desc := c.descs[i];
        assert c.descs[i..][1..] == c.descs[i + 1..];
        if desc.writable && offset < |payload| {
          var remaining := |payload| - offset;
          var toWrite := Min(remaining, desc.len);
          var data := payload[offset..offset + toWrite];
          ghost var before := mem.Snapshot();
          mem.SnapshotLayout();
          StepScatter(rs, before, log, desc.gpa, data);
          ScatterUnfolds(rs, c.descs[i..], payload, offset, log);
          var r := mem.WriteSlice(desc.gpa, data);
          if r.Ok? {
            totalWritten := totalWritten + toWrite;
            offset := offset + toWrite;
            log := log + [MemWrite(desc.gpa, data)];
          }
        } else {
          ScatterSkips(rs, c.descs[i..], payload[offset..]);
        }
      }
      assert c.descs[|c.descs|..] == [];
      ScatterEnds(rs, payload[offset..]);
    }

    static lemma ScatterEnds(rs: seq<RegionVal>, payload: seq<byte>)
      ensures Scatter(rs, [], payload) == []
    {
    }

    static lemma ScatterSkips(rs: seq<RegionVal>, descs: seq<Desc>, payload: seq<byte>)
      requires descs != [] && (!descs[0].writable || payload == [])
      ensures Scatter(rs, descs, payload) == Scatter(rs, descs[1..], payload)
    {
    }

    /** The next buffer of the loop, with `log` written so far. */
    static lemma ScatterUnfolds(rs: seq<RegionVal>, descs: seq<Desc>, payload: seq<byte>, offset: nat, log: seq<MemWrite>)
      requires descs != [] && descs[0].writable && offset < |payload|
      ensures var n := Min(|payload| - offset, descs[0].len);
              var data := payload[offset..offset + n];
              log + Scatter(rs, descs, payload[offset..]) ==
              if WriteVal(rs, descs[0].gpa, data).Ok?
              then log + [MemWrite(descs[0].gpa, data)] + Scatter(rs, descs[1..], payload[offset + n..])
              else log + Scatter(rs, descs[1..], payload[offset..])
    {
      hide WriteVal;
      var n := Min(|payload| - offset, descs[0].len);
      assert payload[offset..][..n] == payload[offset..offset + n] && payload[offset..][n..] == payload[offset + n..];
    }

    static lemma StartScatter(rs: seq<RegionVal>)
      ensures Applied(rs, rs, []) && Flat([]) == []
    {
      AppliedNothing(rs);
    }

    /** One write of the scatter loop: accepted as in the initial memory, and logged. */
    static lemma StepScatter(rs: seq<RegionVal>, before: seq<RegionVal>, log: seq<MemWrite>, gpa: nat, data: seq<byte>)
      requires Layout(before) && Applied(rs, before, log)
      ensures WriteVal(before, gpa, data).Ok? <==> WriteVal(rs, gpa, data).Ok?
      ensures WriteVal(before, gpa, data).Ok? ==>
                Applied(rs, WriteVal(before, gpa, data).value, log + [MemWrite(gpa, data)])
      ensures |Flat(log + [MemWrite(gpa, data)])| == |Flat(log)| + |data|
    {
      hide WriteVal, ByteAt, LastByte;
      WriteSameShape(rs, before, gpa, data);
      if WriteVal(before, gpa, data).Ok? {
        WriteFrames(before, gpa, data);
        AppliedWrite(rs, before, WriteVal(before, gpa, data).value, log, MemWrite(gpa, data));
      }
      FlatConcat(log, [MemWrite(gpa, data)]);
      FlatFirst(MemWrite(gpa, data), []);
      assert [MemWrite(gpa, data)] + [] == [MemWrite(gpa, data)];
    }

    /**
     * `deliver_rx`: scatters the oldest pending frame into the next chain.  The chain goes back
     * with the number of bytes written, and the frame leaves the queue unless that is zero.
     */
    method DeliverRx(queue: VirtQueue, mem: GuestMemory) returns (ok: bool)
      requires Valid() && mem.Valid()
      modifies this`rxPending, this`delivered, queue, mem.Repr()
      ensures Valid() && mem.Valid()
      ensures old(rxPending) == [] || old(queue.avail) == [] ==>
                && !ok && rxPending == old(rxPending) && delivered == old(delivered)
                && queue.avail == old(queue.avail) && queue.used == old(queue.used)
                && mem.Snapshot() == old(mem.Snapshot())
      ensures old(rxPending) != [] && old(queue.avail) != [] ==>
                var f, c := old(rxPending)[0], old(queue.avail)[0];
                var log := Scatter(old(mem.Snapshot()), c.descs, Payload(f));
                var u := Used(c.head, |Flat(log)|);
                && queue.avail == old(queue.avail)[1..] && queue.used == old(queue.used) + [u]
                && Applied(old(mem.Snapshot()), mem.Snapshot(), log)
                && (ok <==> Flat(log) != [])
                && (ok ==> rxPending == old(rxPending)[1..] && delivered == old(delivered) + [Delivery(f, u, log)])
                && (!ok ==> rxPending == old(rxPending) && delivered == old(delivered))
    {
      hide Applied, Scatter, Flat, Sorted, Payload, Delivery.Honest;
      if rxPending == [] {
        return false;
      }
      var rawFrame := rxPending[0];
      var popped := queue.PopChain();
      if popped.None? {
        return false;
      }
      var chain := popped.value;
      var payload := Payload(rawFrame);
      ghost var rs := mem.Snapshot();
      ghost var log;
      var totalWritten;
      totalWritten, log := ScatterChain(mem, chain, payload);
      ScatterIsPrefix(rs, chain.descs, payload);
      queue.PushUsed(chain.head, totalWritten);
      if totalWritten > 0 {
        rxPending := rxPending[1..];
        ghost var d := Delivery(rawFrame, Used(chain.head, totalWritten), log);
        assert d.Honest() by { HonestDelivery(d); }
        HandOver(delivered, d, old(rxPending), rxChannel);
        delivered := delivered + [d];
      }
      ok := totalWritten > 0;
    }

    static lemma HonestDelivery(d: Delivery)
      requires 0 < d.used.len == |Flat(d.log)| && Flat(d.log) <= Payload(d.frame)
      ensures d.Honest()
    {
    }

    static lemma HandOver(ds: seq<Delivery>, d: Delivery, pending: seq<Frame>, queued: seq<Frame>)
      requires pending != [] && pending[0] == d.frame
      ensures FramesIn(ds + [d]) + pending[1..] + queued == FramesIn(ds) + pending + queued
    {
      assert FramesIn(ds + [d]) == FramesIn(ds) + [d.frame];
      assert pending == [d.frame] + pending[1..];
    }

    /** `poll_rx`: moves everything queued to the pending list, then delivers one frame. */
    method PollRx(queue: VirtQueue, mem: GuestMemory) returns (ok: bool)
      requires Valid() && mem.Valid()
      modifies this`rxChannel, this`rxPending, this`delivered, queue, mem.Repr()
      ensures Valid() && mem.Valid() && rxChannel == []
      ensures ok <==> |delivered| == |old(delivered)| + 1
      ensures ok ==> delivered[..|old(delivered)|] == old(delivered) && queue.used == old(queue.used) + [delivered[|old(delivered)|].used]
      ensures !ok ==> delivered == old(delivered) && rxPending == old(rxPending) + old(rxChannel)
    {
      hide Applied, Scatter, Flat, Sorted, Delivery.Honest;
      ghost var all := rxPending + rxChannel;
      while rxChannel != []
        invariant rxPending + rxChannel == all && Valid()
        invariant delivered == old(delivered) && queue.used == old(queue.used)
        decreases |rxChannel|
      {
        ghost var p, c := rxPending, rxChannel;
        rxPending, rxChannel := rxPending + [rxChannel[0]], rxChannel[1..];
        MoveOne(p, c);
        assert FramesIn(delivered) + (p + c) == FramesIn(delivered) + p + c;
        assert FramesIn(delivered) + (rxPending + rxChannel) == FramesIn(delivered) + rxPending + rxChannel;
      }
      assert rxPending == all;
      ok := DeliverRx(queue, mem);
    }

    static lemma MoveOne(p: seq<Frame>, c: seq<Frame>)
      requires c != []
      ensures p + [c[0]] + c[1..] == p + c
    {
    }
  }
}
