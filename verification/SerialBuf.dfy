/**
 * The serial ring buffer (`SerialBuf` and `SerialReader`) refines an append-only log.
 *
 * `RingBuffer.history` is the log: every byte ever written.  The ring itself keeps the last
 * `buf.Length` bytes of it, and a reader is a position in the log.
 */
module SerialBuf {
  import opened Bytes

  /** The position a reader at `r` resumes from: it skips to the oldest byte still held. */
  function ResumeAt(h: seq<byte>, r: nat, cap: nat): (p: nat)
    requires r <= |h|
    ensures r <= p <= |h|
    ensures p == r <==> |h| - r <= cap
    ensures |h| - p == Min(|h| - r, cap)
  {
    Max(r, |h| - cap)
  }

  /** What a reader at log position `r` receives from a ring of capacity `cap`. */
  function LogRead(h: seq<byte>, r: nat, cap: nat): seq<byte>
    requires r <= |h|
  {
    h[ResumeAt(h, r, cap)..]
  }

  /** The ring slot of log position `n`. */
  function Slot(n: nat, c: nat): (p: nat)
    requires 0 < c
    ensures p < c
  {
    n % c
  }

  /** The slot of a number `n + d` is found from the slot of `n` without a division. */
  lemma ModShift(n: nat, d: int, c: nat)
    requires 0 < c && 0 - c <= d <= c && 0 <= n + d
    ensures (n + d) % c == (if n % c + d >= c then n % c + d - c
                            else if n % c + d < 0 then n % c + d + c
                            else n % c + d)
  {
    var p := n % c + d;
    if p >= c {
      assert n + d == c * (n / c + 1) + (p - c) by { assert c * (n / c + 1) == c * (n / c) + c; }
      ModUnique(n + d, c, n / c + 1, p - c);
    } else if p < 0 {
      assert n + d == c * (n / c - 1) + (p + c) by { assert c * (n / c - 1) == c * (n / c) - c; }
      ModUnique(n + d, c, n / c - 1, p + c);
    } else {
      ModUnique(n + d, c, n / c, p);
    }
  }

  lemma ModUnique(x: int, c: nat, q: int, r: nat)
    requires r < c && x == c * q + r
    ensures x % c == r
  {
    var k := x / c - q;
    assert c * k == c * (x / c) - c * q;
    assert c * k == r - x % c;
    MultipleBounds(c, k);
  }

  lemma MultipleBounds(c: nat, k: int)
    ensures k >= 1 ==> c * k >= c
    ensures k <= -1 ==> c * k <= 0 - c
  {
  }

  lemma SlotOfSlot(n: nat, k: nat, c: nat)
    requires 0 < c
    ensures Slot(Slot(n, c) + k, c) == Slot(n + k, c)
  {
    var q := (n + k) / c;
    assert n % c + k == c * (q - n / c) + (n + k) % c by {
      assert c * (q - n / c) == c * q - c * (n / c);
    }
    ModUnique(n % c + k, c, q - n / c, (n + k) % c);
  }

  /** The ring `b` holds exactly the last min(|h|, |b|) bytes of `h`. */
  ghost predicate Holds(b: seq<byte>, h: seq<byte>)
    requires 0 < |b|
  {
    forall i: nat :: |h| - |b| <= i < |h| ==> b[Slot(i, |b|)] == h[i]
  }

  /** `d` laid into the ring from slot `pos`, wrapping at most once. */
  ghost predicate Laid(b: seq<byte>, b': seq<byte>, pos: nat, d: seq<byte>)
    requires 0 < |b| == |b'| && pos < |b| && |d| <= |b|
  {
    forall i :: 0 <= i < |b| ==>
      b'[i] == if pos <= i < pos + |d| then d[i - pos]
               else if i + |b| < pos + |d| then d[i + |b| - pos]
               else b[i]
  }

  /** The part of `data` that a ring of `cap` bytes keeps. */
  function Kept(data: seq<byte>, cap: nat): (d: seq<byte>)
    ensures |d| == Min(|data|, cap)
  {
    if |data| > cap then data[|data| - cap..] else data
  }

  /** Laying what is kept of `data` over a ring that held `h` makes it hold `h + data`. */
  lemma LaidHolds(b: seq<byte>, b': seq<byte>, h: seq<byte>, data: seq<byte>)
    requires 0 < |b| == |b'| && Holds(b, h)
    requires Laid(b, b', Slot(|h| + |data| - |Kept(data, |b|)|, |b|), Kept(data, |b|))
    ensures Holds(b', h + data)
  {
    var d := Kept(data, |b|);
    var n := |h| + |data| - |d|;
    forall i: nat | |h + data| - |b| <= i < |h + data|
      ensures b'[Slot(i, |b|)] == (h + data)[i]
    {
      ModShift(n, i - n, |b|);
      if i < n {
        assert b[Slot(i, |b|)] == h[i];
      } else {
        assert (h + data)[i] == d[i - n];
      }
    }
  }

  /** `len` slots from `start` on, wrapping at the end of the ring. */
  function Slots(b: seq<byte>, start: nat, len: nat): (r: seq<byte>)
    requires start < |b| && len <= |b|
    ensures |r| == len
  {
    if start + len <= |b| then b[start..start + len] else b[start..] + b[..len - (|b| - start)]
  }

  /** The copies of `read_chunk`. */
  method CopyOut(buf: array<byte>, start: nat, len: nat) returns (result: seq<byte>)
    requires start < buf.Length && len <= buf.Length
    ensures result == Slots(buf[..], start, len)
  {
    if start + len <= buf.Length {
      result := buf[start..start + len];
    } else {
      result := buf[start..] + buf[..len - (buf.Length - start)];
    }
  }

  /** The slots from that of `r` on, wrapping at the end of the ring, are the log from `r` on. */
  lemma UnreadSlots(b: seq<byte>, h: seq<byte>, r: nat)
    requires 0 < |b| && Holds(b, h) && r < |h| <= r + |b|
    ensures h[r..] == Slots(b, Slot(r, |b|), |h| - r)
  {
    var len := |h| - r;
    var slots := Slots(b, Slot(r, |b|), len);
    forall k | 0 <= k < len
      ensures slots[k] == h[r..][k]
    {
      ModShift(r, k, |b|);
      assert b[Slot(r + k, |b|)] == h[r + k];
    }
  }

  /** The copies of `write`: one if the data fits before the end of the ring, else two. */
  method CopyWrapped(buf: array<byte>, pos: nat, d: seq<byte>) returns (next: nat)
    requires 0 < buf.Length && pos < buf.Length && |d| <= buf.Length
    modifies buf
    ensures Laid(old(buf[..]), buf[..], pos, d)
    ensures next == Slot(pos + |d|, buf.Length)
  {
    var spaceToEnd := buf.Length - pos;
    if |d| <= spaceToEnd {
      forall k | 0 <= k < |d| { buf[pos + k] := d[k]; }
      next := Slot(pos + |d|, buf.Length);
    } else {
      forall k | pos <= k < buf.Length { buf[k] := d[k - pos]; }
      var remaining := |d| - spaceToEnd;
      forall k | 0 <= k < remaining { buf[k] := d[spaceToEnd + k]; }
      next := remaining;
      ModUnique(pos + |d|, buf.Length, 1, remaining);
    }
  }

  /** The outcome of one pass through the lock section of `read_chunk`. */
  datatype ReadStep = Chunk(bytes: seq<byte>) | Closed | Park

  class RingBuffer {
    const buf: array<byte>
    var writePos: nat
    var totalWritten: nat
    var closed: bool
    ghost var history: seq<byte>

    ghost predicate Valid()
      reads this, buf
    {
      && 0 < buf.Length
      && totalWritten == |history|
      && writePos == Slot(totalWritten, buf.Length)
      && Holds(buf[..], history)
    }

    constructor (capacity: nat)
      requires 0 < capacity
      ensures Valid() && fresh(buf)
      ensures buf.Length == capacity && history == [] && !closed
    {
      buf := new byte[capacity](_ => 0);
      writePos, totalWritten, closed, history := 0, 0, false, [];
    }

    /** `Write::write`: two bulk copies at most, keeping only what fits. */
    method Write(data: seq<byte>) returns (written: nat)
      requires Valid()
      modifies this`writePos, this`totalWritten, this`history, buf
      ensures Valid()
      ensures written == |data|
      ensures history == old(history) + data
    {
      hide Slot, Holds, Laid, Kept;
      var cap := buf.Length;
      var len := |data|;
      var dataToWrite := Kept(data, cap);
      var skipped := if len > cap then len - cap else 0;
      var pos := Slot(writePos + skipped, cap);
      SlotOfSlot(|history|, skipped, cap);
      SlotOfSlot(|history| + skipped, |dataToWrite|, cap);
      ghost var b := buf[..];
      writePos := CopyWrapped(buf, pos, dataToWrite);
      LaidHolds(b, buf[..], history, data);
      totalWritten := totalWritten + len;
      history := history + data;
      written := len;
    }

    /** `close`: readers drain what is left and then end. */
    method Close()
      requires Valid()
      modifies this`closed
      ensures Valid() && closed
    {
      closed := true;
    }
  }

  class SerialReader {
    const ring: RingBuffer
    var readPos: nat

    ghost predicate Valid()
      reads this, ring, ring.buf
    {
      ring.Valid() && readPos <= ring.totalWritten
    }

    /** `SerialBuf::reader`: starts at the current end of the log. */
    constructor (r: RingBuffer)
      requires r.Valid()
      ensures ring == r && Valid() && readPos == |ring.history|
    {
      ring := r;
      readPos := r.totalWritten;
    }

    /** One pass through the loop of `read_chunk`, up to the point where it would park. */
    method ReadChunk() returns (step: ReadStep)
      requires Valid()
      modifies this
      ensures Valid()
      ensures readPos == |ring.history|
      ensures step == if old(readPos) < |ring.history|
                      then Chunk(LogRead(ring.history, old(readPos), ring.buf.Length))
                      else if ring.closed then Closed else Park
      ensures step.Chunk? <==> old(readPos) < |ring.history|
      ensures step.Chunk? ==>
                var h, b := ring.history, step.bytes;
                && |b| == Min(|h| - old(readPos), ring.buf.Length)
                && forall i :: 0 <= i < |b| ==> b[i] == h[|h| - |b| + i]
      ensures step.Closed? ==> ring.closed
      ensures step.Park? ==> !ring.closed
    {
      hide Slot, Holds, Slots;
      var cap := ring.buf.Length;
      if readPos < ring.totalWritten {
        var available := ring.totalWritten - readPos;
        if available > cap {
          readPos := ring.totalWritten - cap;
        }
        var toRead := ring.totalWritten - readPos;
        var start := Slot(ring.writePos + cap - Slot(toRead, cap), cap);
        StartSlot(ring.totalWritten, toRead, cap);
        UnreadSlots(ring.buf[..], ring.history, readPos);
        var result := CopyOut(ring.buf, start, toRead);
        readPos := ring.totalWritten;
        return Chunk(result);
      }
      if ring.closed {
        return Closed;
      }
      return Park;
    }
  }

  /** The unread data starts in the slot of its first log position. */
  lemma StartSlot(n: nat, toRead: nat, c: nat)
    requires 0 < toRead <= c && toRead <= n
    ensures Slot(Slot(n, c) + c - Slot(toRead, c), c) == Slot(n - toRead, c)
  {
    ModShift(n, 0 - toRead, c);
    if toRead == c {
      ModUnique(toRead, c, 1, 0);
      ModShift(n % c, c, c);
      ModUnique(n % c, c, 0, n % c);
    } else {
      ModUnique(toRead, c, 0, toRead);
      ModUnique(n % c, c, 0, n % c);
      var x := n % c + c - toRead;
      if x >= c {
        ModUnique(x, c, 1, x - c);
      } else {
        ModUnique(x, c, 0, x);
      }
    }
  }
}
