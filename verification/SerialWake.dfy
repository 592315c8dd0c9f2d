/**
 * The wake-up protocol between writers, closers and readers of the serial buffer, as atomic
 * steps: each lock section of `write`, `close` and `read_chunk`, each `notify_tx.send`, and
 * each `changed()` on the version counter of the watch channel.
 *
 * The ring is represented by the log it refines (module SerialBuf).
 */
module SerialWake {
  import opened Bytes
  import opened SerialBuf

  /** Between calls, inside the lock section, or waiting in `changed()`. */
  datatype ReaderPc = Idle | Checking | Parked

  /**
   * `start` is the log position at creation, `seen` the last channel version this receiver
   * observed, `got` everything returned so far, `lost` the bytes skipped because the writer
   * lapped this reader, and `ended` whether `None` has been returned.
   */
  datatype Reader = Reader(
    start: nat, readPos: nat, seen: nat, pc: ReaderPc,
    got: seq<byte>, lost: nat, ended: bool)

  /**
   * `owing` counts the writers and closers that have released the lock and not yet sent their
   * notification; `senders` says whether a `SerialBuf` handle (a watch sender) still exists.
   */
  datatype State = State(
    cap: nat, log: seq<byte>, closed: bool, version: nat, owing: nat, senders: bool,
    readers: map<nat, Reader>)

  datatype Label =
    | Write(data: seq<byte>)
    | Close
    | Send
    | DropSenders
    | NewReader(id: nat)
    | Call(id: nat)
    | Check(id: nat)
    | Wake(id: nat)
    | Hangup(id: nat)

  ghost predicate Init(s: State) {
    0 < s.cap && s.log == [] && !s.closed && s.version == 0 && s.owing == 0 && s.senders && s.readers == map[]
  }

  /** The lock section of `read_chunk` for one reader. */
  function CheckReader(s: State, r: Reader): Reader
    requires r.readPos <= |s.log|
  {
    if r.readPos < |s.log| then
      r.(readPos := |s.log|, pc := Idle,
         got := r.got + LogRead(s.log, r.readPos, s.cap),
         lost := r.lost + ResumeAt(s.log, r.readPos, s.cap) - r.readPos)
    else if s.closed then r.(pc := Idle, ended := true)
    else r.(pc := Parked)
  }

  ghost predicate Step(s: State, l: Label, s': State) {
    match l
    case Write(data) =>
      s.senders && s' == s.(log := s.log + data, owing := s.owing + 1)
    case Close =>
      s.senders && s' == s.(closed := true, owing := s.owing + 1)
    case Send =>
      s.owing > 0 && s' == s.(owing := s.owing - 1, version := s.version + 1)
    case DropSenders =>
      // A write or close in progress still borrows its handle.
      s.senders && s.owing == 0 && s' == s.(senders := false)
    case NewReader(id) =>
      // The handle's own receiver never marks a version as seen, so its clones start at 0.
      && s.senders && id !in s.readers
      && s' == s.(readers := s.readers[id := Reader(|s.log|, |s.log|, 0, Idle, [], 0, false)])
    case Call(id) =>
      && id in s.readers && s.readers[id].pc == Idle
      && s' == s.(readers := s.readers[id := s.readers[id].(pc := Checking)])
    case Check(id) =>
      && id in s.readers && s.readers[id].pc == Checking && s.readers[id].readPos <= |s.log|
      && s' == s.(readers := s.readers[id := CheckReader(s, s.readers[id])])
    case Wake(id) =>
      && id in s.readers && s.readers[id].pc == Parked && s.readers[id].seen != s.version
      && s' == s.(readers := s.readers[id := s.readers[id].(pc := Checking, seen := s.version)])
    case Hangup(id) =>
      && id in s.readers && s.readers[id].pc == Parked && s.readers[id].seen == s.version && !s.senders
      && s' == s.(readers := s.readers[id := s.readers[id].(pc := Idle, ended := true)])
  }

  /** An interleaving: states linked by labelled steps. */
  ghost predicate IsRun(run: seq<State>, labels: seq<Label>) {
    && |run| == |labels| + 1
    && Init(run[0])
    && forall i :: 0 <= i < |labels| ==> Step(run[i], labels[i], run[i + 1])
  }

  /** Nothing is written once the buffer is closed. */
  ghost predicate NoWriteAfterClose(run: seq<State>, labels: seq<Label>)
    requires |run| == |labels| + 1
  {
    forall i :: 0 <= i < |labels| && run[i].closed ==> !labels[i].Write?
  }

  /** There is something a call to `read_chunk` would return for. */
  predicate HasWork(s: State, r: Reader) {
    r.readPos < |s.log| || s.closed
  }

  ghost predicate ReaderInv(s: State, r: Reader) {
    && r.start <= r.readPos <= |s.log|
    && r.seen <= s.version
    && (r.pc == Parked && HasWork(s, r) ==> s.owing > 0 || r.seen < s.version)
    && |r.got| + r.lost == r.readPos - r.start
    && (r.lost == 0 ==> r.got == s.log[r.start..r.readPos])
  }

  ghost predicate Inv(s: State) {
    && (!s.senders ==> s.owing == 0)
    && forall id :: id in s.readers ==> ReaderInv(s, s.readers[id])
  }

  lemma LogGrows(log: seq<byte>, data: seq<byte>, a: nat, b: nat)
    requires a <= b <= |log|
    ensures (log + data)[a..b] == log[a..b]
  {
  }

  lemma CheckKeepsInv(s: State, r: Reader)
    requires ReaderInv(s, r)
    ensures ReaderInv(s, CheckReader(s, r))
  {
    if r.readPos < |s.log| && ResumeAt(s.log, r.readPos, s.cap) == r.readPos && r.lost == 0 {
      assert s.log[r.start..r.readPos] + s.log[r.readPos..] == s.log[r.start..|s.log|];
    }
  }

  lemma StepKeepsInv(s: State, l: Label, s': State)
    requires Inv(s) && Step(s, l, s')
    ensures Inv(s')
  {
    forall id | id in s'.readers
      ensures ReaderInv(s', s'.readers[id])
    {
      match l
      case Write(data) =>
        LogGrows(s.log, data, s.readers[id].start, s.readers[id].readPos);
      case Check(i) =>
        CheckKeepsInv(s, s.readers[i]);
      case _ =>
    }
  }

  lemma {:induction false} RunKeepsInv(run: seq<State>, labels: seq<Label>, k: nat)
    requires IsRun(run, labels) && k < |run|
    ensures Inv(run[k])
  {
    if k > 0 {
      RunKeepsInv(run, labels, k - 1);
      StepKeepsInv(run[k - 1], labels[k - 1], run[k]);
    }
  }

  /**
   * No lost wake-up: a reader that waits in `changed()` with nothing new on the channel, while
   * unread data exists or the buffer is closed, is owed a notification by some writer or closer.
   */
  lemma NoLostWakeup(run: seq<State>, labels: seq<Label>, k: nat, id: nat)
    requires IsRun(run, labels) && k < |run|
    requires id in run[k].readers && run[k].readers[id].pc == Parked
    requires run[k].readers[id].seen == run[k].version
    requires HasWork(run[k], run[k].readers[id])
    ensures run[k].owing > 0 && run[k].senders
  {
    RunKeepsInv(run, labels, k);
  }

  /** Once all notifications are sent, every parked reader with work can take its wake step. */
  lemma WakeEnabled(run: seq<State>, labels: seq<Label>, k: nat, id: nat)
    requires IsRun(run, labels) && k < |run|
    requires id in run[k].readers && run[k].readers[id].pc == Parked
    requires HasWork(run[k], run[k].readers[id]) && run[k].owing == 0
    ensures exists s' :: Step(run[k], Wake(id), s') && s'.readers[id].pc == Checking
  {
    RunKeepsInv(run, labels, k);
    var s := run[k];
    var s' := s.(readers := s.readers[id := s.readers[id].(pc := Checking, seen := s.version)]);
    assert Step(s, Wake(id), s') && s'.readers[id].pc == Checking;
  }

  /** `None` is returned only when the reader has drained the whole log. */
  lemma NoneOnlyWhenDrained(run: seq<State>, labels: seq<Label>, k: nat, id: nat)
    requires IsRun(run, labels) && k < |labels|
    requires id in run[k].readers && id in run[k + 1].readers
    requires !run[k].readers[id].ended && run[k + 1].readers[id].ended
    ensures run[k + 1].readers[id].readPos == |run[k + 1].log|
    ensures run[k + 1].closed || !run[k + 1].senders
  {
    RunKeepsInv(run, labels, k);
    assert Step(run[k], labels[k], run[k + 1]);
  }

  ghost predicate EndedDrained(s: State) {
    forall id :: id in s.readers && s.readers[id].ended ==>
      s.readers[id].readPos == |s.log| && (s.closed || !s.senders)
  }

  lemma StepKeepsEnded(s: State, l: Label, s': State)
    requires Inv(s) && EndedDrained(s) && Step(s, l, s') && (s.closed ==> !l.Write?)
    ensures EndedDrained(s')
  {
    hide LogRead, ResumeAt;
    forall id | id in s'.readers && s'.readers[id].ended
      ensures s'.readers[id].readPos == |s'.log| && (s'.closed || !s'.senders)
    {
      if id in s.readers {
        assert ReaderInv(s, s.readers[id]);
      }
    }
  }

  /** `None` is final when nothing is written after close: an ended reader stays drained. */
  lemma {:induction false} NoneIsFinal(run: seq<State>, labels: seq<Label>, k: nat)
    requires IsRun(run, labels) && k < |run| && NoWriteAfterClose(run, labels)
    ensures EndedDrained(run[k])
  {
    hide Step, Inv;
    if k > 0 {
      NoneIsFinal(run, labels, k - 1);
      RunKeepsInv(run, labels, k - 1);
      StepKeepsEnded(run[k - 1], labels[k - 1], run[k]);
    }
  }

  /** Every pass of this reader through the lock came before the writer was a ring ahead of it. */
  ghost predicate NeverLapped(run: seq<State>, labels: seq<Label>, k: nat, id: nat)
    requires |run| == |labels| + 1 && k < |run|
  {
    forall i :: 0 <= i < k && labels[i] == Check(id) && id in run[i].readers ==>
      |run[i].log| - run[i].readers[id].readPos <= run[i].cap
  }

  lemma {:induction false} NoReaderBefore(run: seq<State>, labels: seq<Label>, k: nat, i: nat, id: nat)
    requires IsRun(run, labels) && i <= k < |run| && id !in run[k].readers
    ensures id !in run[i].readers
    decreases k
  {
    if i < k {
      assert Step(run[k - 1], labels[k - 1], run[k]);
      NoReaderBefore(run, labels, k - 1, i, id);
    }
  }

  /** A pass through the lock loses exactly the bytes more than a ring behind, and returns all later ones. */
  lemma CheckLoses(s: State, r: Reader)
    requires r.readPos <= |s.log|
    ensures CheckReader(s, r).lost == r.lost + Max(0, |s.log| - r.readPos - s.cap)
    ensures CheckReader(s, r).got == r.got + s.log[|s.log| - Min(|s.log| - r.readPos, s.cap)..]
  {
  }

  lemma StepLoses(s: State, l: Label, s': State, id: nat)
    requires Inv(s) && Step(s, l, s') && id in s.readers
    ensures id in s'.readers
    ensures s'.readers[id].lost ==
            s.readers[id].lost + if l == Check(id) then Max(0, |s.log| - s.readers[id].readPos - s.cap) else 0
  {
    hide CheckReader;
    assert ReaderInv(s, s.readers[id]);
    CheckLoses(s, s.readers[id]);
  }

  lemma NewReaderIsWhole(s: State, l: Label, s': State, id: nat)
    requires Step(s, l, s') && id !in s.readers && id in s'.readers
    ensures s'.readers[id].lost == 0
  {
  }

  /** A reader has lost bytes exactly when it was lapped. */
  lemma {:induction false} LostIffLapped(run: seq<State>, labels: seq<Label>, k: nat, id: nat)
    requires IsRun(run, labels) && k < |run| && id in run[k].readers
    ensures run[k].readers[id].lost == 0 <==> NeverLapped(run, labels, k, id)
  {
    hide Step, Inv;
    if k > 0 {
      if id in run[k - 1].readers {
        LostIffLapped(run, labels, k - 1, id);
        RunKeepsInv(run, labels, k - 1);
        StepLoses(run[k - 1], labels[k - 1], run[k], id);
      } else {
        NewReaderIsWhole(run[k - 1], labels[k - 1], run[k], id);
        forall i | 0 <= i < k ensures id !in run[i].readers {
          NoReaderBefore(run, labels, k - 1, i, id);
        }
      }
    }
  }

  /**
   * A reader's chunks concatenate to the whole history since its creation exactly when the
   * writer never lapped it; and at its `None` that history is everything written.
   */
  lemma CompleteIffNeverLapped(run: seq<State>, labels: seq<Label>, k: nat, id: nat)
    requires IsRun(run, labels) && k < |run| && NoWriteAfterClose(run, labels)
    requires id in run[k].readers
    ensures var r := run[k].readers[id];
            && r.start <= r.readPos <= |run[k].log|
            && (r.got == run[k].log[r.start..r.readPos] <==> NeverLapped(run, labels, k, id))
            && (r.ended ==> (r.got == run[k].log[r.start..] <==> NeverLapped(run, labels, k, id)))
  {
    RunKeepsInv(run, labels, k);
    NoneIsFinal(run, labels, k);
    LostIffLapped(run, labels, k, id);
    var r := run[k].readers[id];
    assert |run[k].log[r.start..r.readPos]| == r.readPos - r.start;
    if r.ended {
      assert run[k].log[r.start..] == run[k].log[r.start..r.readPos];
    }
  }
}
