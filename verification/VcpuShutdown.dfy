/**
 * Shutting down a multi-vCPU machine (`run_multi_vcpu`): one thread per vCPU, a watchdog, a
 * collector, a shared stop flag, cancel handles and a result channel, as atomic steps.
 *
 * A cancel is latched: issued while the vCPU is outside `run`, it makes the next `run` return.
 * The collector's deadline is a step that can be taken at any time.
 */
module VcpuShutdown {
  import opened Bytes

  /** A thread's result; `Error` is a hypervisor error, reported as unexpected. */
  datatype Reason = Canceled | Halt | Shutdown | Unexpected | Error

  /** Where a vCPU thread is. */
  datatype Pc =
    | LoopTop
    | Ready
    | InRun
    | Dispatch
    | MustStop(r: Reason)
    | Canceling(r: Reason, next: nat)
    | Sending(r: Reason)
    | Done

  /**
   * `latch`: a cancel waits for the next `run`.  Bookkeeping: whether a cancel was ever issued
   * for this thread, how many results it sent, and how often it entered `run` after the stop.
   */
  datatype Thread = Thread(pc: Pc, latch: bool, canceled: bool, sent: nat, runsAfterStop: nat)

  datatype Watchdog = Watching | Sweeping(next: nat) | Swept

  datatype Collector = Collecting(n: nat) | StoreStop | JoinWatchdog | JoinThreads | Returned

  datatype State = State(
    threads: seq<Thread>, stop: bool, watchdog: Watchdog,
    channel: seq<Reason>, received: seq<Reason>, final: Reason, collector: Collector)

  /** A step of one thread that touches no other thread. */
  datatype Move =
    | CheckStop
    | Enter
    | ExitRun(byCancel: bool)
    | Resume
    | Fail(why: Reason)
    | RaiseStop
    | CancelEnd
    | Send

  datatype Label =
    | ExternalStop
    | ThreadMoves(t: nat, m: Move)
    | ThreadCancels(t: nat)
    | WatchdogSees
    | WatchdogCancels
    | WatchdogEnds
    | Receive
    | Timeout
    | AllReceived
    | CollectorStops
    | WatchdogJoined
    | ThreadsJoined

  ghost predicate Init(s: State) {
    && 0 < |s.threads|
    && (forall i :: 0 <= i < |s.threads| ==> s.threads[i] == Thread(LoopTop, false, false, 0, 0))
    && s.watchdog == Watching && s.channel == [] && s.received == []
    && s.final == Canceled && s.collector == Collecting(0)
  }

  /** When a move is possible; `n` is the number of threads. */
  predicate CanMove(t: Thread, m: Move, n: nat) {
    match m
    case CheckStop => t.pc == LoopTop
    case Enter => t.pc == Ready
    case ExitRun(byCancel) => t.pc == InRun && (byCancel ==> t.latch)
    case Resume => t.pc == Dispatch
    case Fail(why) => (t.pc == Dispatch || t.pc == Ready) && why != Canceled
    case RaiseStop => t.pc.MustStop?
    case CancelEnd => t.pc.Canceling? && t.pc.next == n
    case Send => t.pc.Sending?
  }

  /** The thread after a move; a failure is a terminal exit, a hypervisor error or a caught panic. */
  function Moved(t: Thread, m: Move, stop: bool, n: nat): Thread
    requires CanMove(t, m, n)
  {
    match m
    case CheckStop => t.(pc := if stop then Sending(Canceled) else Ready)
    case Enter => t.(pc := InRun, runsAfterStop := t.runsAfterStop + (if stop then 1 else 0))
    case ExitRun(byCancel) => t.(pc := Dispatch, latch := t.latch && !byCancel)
    case Resume => t.(pc := LoopTop)
    case Fail(why) => t.(pc := MustStop(why))
    case RaiseStop => t.(pc := Canceling(t.pc.r, 0))
    case CancelEnd => t.(pc := Sending(t.pc.r))
    case Send => t.(pc := Done, sent := t.sent + 1)
  }

  /** Replaces thread `t`. */
  function SetThread(s: State, t: nat, th: Thread): State
    requires t < |s.threads|
  {
    s.(threads := s.threads[t := th])
  }

  /** `cancel_via` on the handle of thread `k`. */
  function Cancel(s: State, k: nat): State
    requires k < |s.threads|
  {
    SetThread(s, k, s.threads[k].(latch := true, canceled := true))
  }

  /** The loop index of a canceling thread advances. */
  function Advance(t: Thread): Thread
    requires t.pc.Canceling?
  {
    t.(pc := Canceling(t.pc.r, t.pc.next + 1))
  }

  function AsFinal(r: Reason): Reason {
    if r == Error then Unexpected else r
  }

  ghost predicate Step(s: State, l: Label, s': State) {
    var n := |s.threads|;
    match l
    case ExternalStop => !s.stop && s' == s.(stop := true)
    case ThreadMoves(t, m) =>
      && t < n && CanMove(s.threads[t], m, n)
      && s' == SetThread(s, t, Moved(s.threads[t], m, s.stop, n)).(
                 stop := s.stop || m.RaiseStop?,
                 channel := if m.Send? then s.channel + [s.threads[t].pc.r] else s.channel)
    case ThreadCancels(t) =>
      && t < n && s.threads[t].pc.Canceling? && s.threads[t].pc.next < n
      && var c := Cancel(s, s.threads[t].pc.next);
         s' == SetThread(c, t, Advance(c.threads[t]))
    case WatchdogSees =>
      s.watchdog == Watching && s.stop && s' == s.(watchdog := Sweeping(0))
    case WatchdogCancels =>
      && s.watchdog.Sweeping? && s.watchdog.next < n
      && s' == Cancel(s, s.watchdog.next).(watchdog := Sweeping(s.watchdog.next + 1))
    case WatchdogEnds =>
      s.watchdog.Sweeping? && s.watchdog.next == n && s' == s.(watchdog := Swept)
    case Receive =>
      && s.collector.Collecting? && s.collector.n < n && s.channel != []
      && s' == s.(channel := s.channel[1..], received := s.received + [s.channel[0]],
                  final := if s.final == Canceled then AsFinal(s.channel[0]) else s.final,
                  collector := Collecting(s.collector.n + 1))
    case Timeout =>
      s.collector.Collecting? && s.collector.n < n && s' == s.(collector := StoreStop)
    case AllReceived =>
      s.collector.Collecting? && s.collector.n == n && s' == s.(collector := StoreStop)
    case CollectorStops =>
      s.collector == StoreStop && s' == s.(collector := JoinWatchdog, stop := true)
    case WatchdogJoined =>
      s.collector == JoinWatchdog && s.watchdog == Swept && s' == s.(collector := JoinThreads)
    case ThreadsJoined =>
      && s.collector == JoinThreads && (forall i :: 0 <= i < n ==> s.threads[i].pc == Done)
      && s' == s.(collector := Returned)
  }

  ghost predicate IsRun(run: seq<State>, labels: seq<Label>) {
    && |run| == |labels| + 1
    && Init(run[0])
    && forall i :: 0 <= i < |labels| ==> Step(run[i], labels[i], run[i + 1])
  }

  /** The first result that is not a cancellation. */
  function FirstReal(rs: seq<Reason>): Reason {
    if rs == [] then Canceled
    else if rs[0] != Canceled then AsFinal(rs[0])
    else FirstReal(rs[1..])
  }

  lemma {:induction false} FirstRealAppend(rs: seq<Reason>, r: Reason)
    ensures FirstReal(rs + [r]) == if FirstReal(rs) == Canceled then AsFinal(r) else FirstReal(rs)
  {
    if rs == [] {
      assert rs + [r] == [r] && [r][1..] == [];
    } else {
      assert (rs + [r])[1..] == rs[1..] + [r];
      FirstRealAppend(rs[1..], r);
    }
  }

  /** The final reason by the first result that is not a cancellation: an error counts as unexpected. */
  ghost predicate ReportsFirst(rs: seq<Reason>, final: Reason) {
    && (forall i :: 0 <= i < |rs| && rs[i] != Canceled && (forall j :: 0 <= j < i ==> rs[j] == Canceled) ==>
          final == if rs[i] == Error then Unexpected else rs[i])
    && ((forall i :: 0 <= i < |rs| ==> rs[i] == Canceled) ==> final == Canceled)
  }

  lemma {:induction false} FirstRealReports(rs: seq<Reason>)
    ensures ReportsFirst(rs, FirstReal(rs))
  {
    if rs != [] && rs[0] == Canceled {
      FirstRealReports(rs[1..]);
      forall i | 0 <= i < |rs| && rs[i] != Canceled && (forall j :: 0 <= j < i ==> rs[j] == Canceled)
        ensures FirstReal(rs) == if rs[i] == Error then Unexpected else rs[i]
      {
        assert forall j :: 0 <= j < i - 1 ==> rs[1..][j] == rs[j + 1];
        assert rs[1..][i - 1] == rs[i];
      }
      if forall i :: 0 <= i < |rs| ==> rs[i] == Canceled {
        assert forall i :: 0 <= i < |rs[1..]| ==> rs[1..][i] == rs[i + 1];
      }
    }
  }

  function CountDone(ts: seq<Thread>): nat {
    if ts == [] then 0 else CountDone(ts[..|ts| - 1]) + (if ts[|ts| - 1].pc == Done then 1 else 0)
  }

  lemma {:induction false} CountDoneUpdate(ts: seq<Thread>, i: nat, t: Thread)
    requires i < |ts|
    ensures CountDone(ts[i := t]) ==
            CountDone(ts) + (if t.pc == Done then 1 else 0) - (if ts[i].pc == Done then 1 else 0)
  {
    if i == |ts| - 1 {
      assert ts[i := t][..|ts| - 1] == ts[..|ts| - 1];
    } else {
      assert ts[i := t][..|ts| - 1] == ts[..|ts| - 1][i := t];
      CountDoneUpdate(ts[..|ts| - 1], i, t);
    }
  }

  lemma {:induction false} CountAllDone(ts: seq<Thread>)
    requires forall i :: 0 <= i < |ts| ==> ts[i].pc == Done
    ensures CountDone(ts) == |ts|
  {
    if ts != [] {
      CountAllDone(ts[..|ts| - 1]);
    }
  }

  lemma {:induction false} CountNoneDone(ts: seq<Thread>)
    requires forall i :: 0 <= i < |ts| ==> ts[i].pc != Done
    ensures CountDone(ts) == 0
  {
    if ts != [] {
      CountNoneDone(ts[..|ts| - 1]);
    }
  }

  /** What holds of a thread by itself. */
  predicate LocalOk(t: Thread, stop: bool) {
    && t.sent == (if t.pc == Done then 1 else 0)
    && (t.pc.Canceling? || t.pc.Sending? || t.pc.Done? || t.canceled || t.runsAfterStop > 0 ==> stop)
    && t.runsAfterStop <= 1 && (t.pc == Ready ==> t.runsAfterStop == 0)
    && (t.canceled && (t.pc == Ready || t.pc == InRun) ==> t.latch)
  }

  ghost predicate CanceledUpTo(ts: seq<Thread>, k: nat) {
    k <= |ts| && forall i :: 0 <= i < k ==> ts[i].canceled
  }

  ghost predicate ThreadInv(s: State, i: nat)
    requires i < |s.threads|
  {
    && LocalOk(s.threads[i], s.stop)
    && (s.threads[i].pc.Canceling? ==> CanceledUpTo(s.threads, s.threads[i].pc.next))
  }

  ghost predicate ThreadsInv(s: State) {
    forall i :: 0 <= i < |s.threads| ==> ThreadInv(s, i)
  }

  ghost predicate WatchdogInv(s: State) {
    && (s.watchdog.Sweeping? ==> CanceledUpTo(s.threads, s.watchdog.next))
    && (s.watchdog == Swept ==> CanceledUpTo(s.threads, |s.threads|))
    && (s.watchdog != Watching ==> s.stop)
  }

  ghost predicate CollectorInv(s: State) {
    && (s.collector.Collecting? ==> s.collector.n == |s.received| <= |s.threads|)
    && (s.collector in {JoinWatchdog, JoinThreads, Returned} ==> s.stop)
    && s.final == FirstReal(s.received)
    && |s.channel| + |s.received| == CountDone(s.threads)
  }

  ghost predicate Inv(s: State) {
    0 < |s.threads| && ThreadsInv(s) && WatchdogInv(s) && CollectorInv(s)
  }

  lemma MoveKeepsLocal(t: Thread, m: Move, stop: bool, n: nat)
    requires LocalOk(t, stop) && CanMove(t, m, n)
    ensures LocalOk(Moved(t, m, stop, n), stop || m.RaiseStop?)
    ensures Moved(t, m, stop, n).canceled == t.canceled
    ensures Moved(t, m, stop, n).pc.Canceling? ==> Moved(t, m, stop, n).pc.next == 0
    ensures m.Send? <==> t.pc != Done && Moved(t, m, stop, n).pc == Done
  {
  }

  /** Replacing one thread by a sound one, and possibly raising the stop flag. */
  lemma UpdateKeepsThreads(s: State, t: nat, th: Thread, stop: bool)
    requires ThreadsInv(s) && t < |s.threads| && (s.stop ==> stop)
    requires LocalOk(th, stop) && (s.threads[t].canceled ==> th.canceled)
    requires th.pc.Canceling? ==> CanceledUpTo(s.threads, th.pc.next)
    ensures ThreadsInv(SetThread(s, t, th).(stop := stop))
    ensures forall k :: CanceledUpTo(s.threads, k) ==> CanceledUpTo(s.threads[t := th], k)
  {
    var s' := SetThread(s, t, th).(stop := stop);
    forall i | 0 <= i < |s.threads|
      ensures ThreadInv(s', i)
    {
      assert ThreadInv(s, i);
    }
  }

  lemma MoveKeepsInv(s: State, t: nat, m: Move, s': State)
    requires Inv(s) && Step(s, ThreadMoves(t, m), s')
    ensures Inv(s')
  {
    hide CountDone, FirstReal, LocalOk, CanceledUpTo;
    var th := Moved(s.threads[t], m, s.stop, |s.threads|);
    assert ThreadInv(s, t);
    MoveKeepsLocal(s.threads[t], m, s.stop, |s.threads|);
    NobodyNeeded(s.threads);
    UpdateKeepsThreads(s, t, th, s'.stop);
    CountDoneUpdate(s.threads, t, th);
    assert ThreadsInv(s') by {
      forall i | 0 <= i < |s'.threads| ensures ThreadInv(s', i) {
        assert ThreadInv(SetThread(s, t, th).(stop := s'.stop), i);
      }
    }
  }

  lemma NobodyNeeded(ts: seq<Thread>)
    ensures CanceledUpTo(ts, 0)
  {
  }

  lemma CancelKeepsInv(s: State, k: nat)
    requires Inv(s) && s.stop && k < |s.threads|
    ensures Inv(Cancel(s, k)) && Cancel(s, k).threads[k].canceled
    ensures forall j :: CanceledUpTo(s.threads, j) ==> CanceledUpTo(Cancel(s, k).threads, j)
    ensures CanceledUpTo(s.threads, k) ==> CanceledUpTo(Cancel(s, k).threads, k + 1)
  {
    hide CountDone, FirstReal;
    assert ThreadInv(s, k);
    var th := s.threads[k].(latch := true, canceled := true);
    UpdateKeepsThreads(s, k, th, s.stop);
    CountDoneUpdate(s.threads, k, th);
    assert Cancel(s, k) == SetThread(s, k, th).(stop := s.stop);
  }

  lemma ThreadCancelsKeepsInv(s: State, t: nat, s': State)
    requires Inv(s) && Step(s, ThreadCancels(t), s')
    ensures Inv(s')
  {
    hide CountDone, FirstReal, CanceledUpTo;
    assert ThreadInv(s, t);
    var k := s.threads[t].pc.next;
    CancelKeepsInv(s, k);
    var c := Cancel(s, k);
    assert ThreadInv(c, t);
    UpdateKeepsThreads(c, t, Advance(c.threads[t]), c.stop);
    CountDoneUpdate(c.threads, t, Advance(c.threads[t]));
    assert s' == SetThread(c, t, Advance(c.threads[t])).(stop := c.stop);
  }

  lemma StopKeepsInv(s: State)
    requires Inv(s)
    ensures Inv(s.(stop := true))
  {
    hide CountDone, FirstReal, CanceledUpTo;
    var s' := s.(stop := true);
    forall i | 0 <= i < |s'.threads|
      ensures ThreadInv(s', i)
    {
      assert ThreadInv(s, i);
    }
  }

  /** Steps that leave the threads and the flag alone. */
  lemma OthersKeepThreads(s: State, s': State)
    requires ThreadsInv(s) && s'.threads == s.threads && s'.stop == s.stop
    ensures ThreadsInv(s')
  {
    forall i | 0 <= i < |s'.threads|
      ensures ThreadInv(s', i)
    {
      assert ThreadInv(s, i);
    }
  }

  lemma StepKeepsInv(s: State, l: Label, s': State)
    requires Inv(s) && Step(s, l, s')
    ensures Inv(s') && |s'.threads| == |s.threads| && (s.stop ==> s'.stop)
  {
    hide CountDone, FirstReal, CanceledUpTo, ThreadsInv;
    match l
    case ExternalStop => StopKeepsInv(s);
    case ThreadMoves(t, m) => MoveKeepsInv(s, t, m, s');
    case ThreadCancels(t) => ThreadCancelsKeepsInv(s, t, s');
    case WatchdogSees =>
      NobodyNeeded(s.threads);
      OthersKeepThreads(s, s');
    case WatchdogCancels =>
      CancelKeepsInv(s, s.watchdog.next);
      OthersKeepThreads(Cancel(s, s.watchdog.next), s');
    case Receive =>
      FirstRealAppend(s.received, s.channel[0]);
      OthersKeepThreads(s, s');
      ReceivedBound(s.threads);
    case CollectorStops =>
      StopKeepsInv(s);
      OthersKeepThreads(s.(stop := true), s');
    case _ => OthersKeepThreads(s, s');
  }

  lemma {:induction false} ReceivedBound(ts: seq<Thread>)
    ensures CountDone(ts) <= |ts|
  {
    if ts != [] {
      ReceivedBound(ts[..|ts| - 1]);
    }
  }

  lemma InitInv(s: State)
    requires Init(s)
    ensures Inv(s)
  {
    CountNoneDone(s.threads);
  }

  lemma {:induction false} RunKeepsInv(run: seq<State>, labels: seq<Label>, k: nat)
    requires IsRun(run, labels) && k < |run|
    ensures Inv(run[k]) && |run[k].threads| == |run[0].threads|
  {
    if k == 0 {
      InitInv(run[0]);
    } else {
      RunKeepsInv(run, labels, k - 1);
      StepKeepsInv(run[k - 1], labels[k - 1], run[k]);
    }
  }

  /** The stop flag never falls. */
  lemma {:induction false} StopNeverFalls(run: seq<State>, labels: seq<Label>, j: nat, k: nat)
    requires IsRun(run, labels) && j <= k < |run| && run[j].stop
    ensures run[k].stop
    decreases k
  {
    if j < k {
      StopNeverFalls(run, labels, j, k - 1);
      assert Step(run[k - 1], labels[k - 1], run[k]);
    }
  }

  /**
   * In every reachable state, each thread has sent one result if it is done and none otherwise,
   * and only after the stop; and since the stop it has entered `run` at most once.
   */
  lemma OneResultAfterStop(run: seq<State>, labels: seq<Label>, k: nat, t: nat)
    requires IsRun(run, labels) && k < |run| && t < |run[k].threads|
    ensures var th := run[k].threads[t];
            && th.sent == (if th.pc == Done then 1 else 0)
            && (th.sent > 0 ==> run[k].stop)
            && th.runsAfterStop <= 1
  {
    RunKeepsInv(run, labels, k);
    assert ThreadInv(run[k], t);
  }

  lemma MoveEnabled(s: State, t: nat, m: Move)
    requires t < |s.threads| && CanMove(s.threads[t], m, |s.threads|)
    ensures exists s' :: Step(s, ThreadMoves(t, m), s')
  {
    var s' := SetThread(s, t, Moved(s.threads[t], m, s.stop, |s.threads|)).(
                stop := s.stop || m.RaiseStop?,
                channel := if m.Send? then s.channel + [s.threads[t].pc.r] else s.channel);
    assert Step(s, ThreadMoves(t, m), s');
  }

  /** Once the cancels are issued, no thread stays blocked: its canceled exit is enabled. */
  lemma NobodyStaysBlocked(run: seq<State>, labels: seq<Label>, k: nat, t: nat)
    requires IsRun(run, labels) && k < |run| && t < |run[k].threads|
    requires run[k].threads[t].canceled && run[k].threads[t].pc == InRun
    ensures exists s' :: Step(run[k], ThreadMoves(t, ExitRun(true)), s')
  {
    RunKeepsInv(run, labels, k);
    var s := run[k];
    assert ThreadInv(s, t);
    MoveEnabled(s, t, ExitRun(true));
  }

  /** The watchdog leaves no thread uncanceled, and neither does a thread that ends by itself. */
  lemma SweepCancelsAll(run: seq<State>, labels: seq<Label>, k: nat, t: nat)
    requires IsRun(run, labels) && k < |run| && t < |run[k].threads|
    requires run[k].watchdog == Swept
          || exists u :: 0 <= u < |run[k].threads| && run[k].threads[u].pc.Canceling? && run[k].threads[u].pc.next == |run[k].threads|
    ensures run[k].threads[t].canceled
  {
    RunKeepsInv(run, labels, k);
    if run[k].watchdog != Swept {
      var u :| 0 <= u < |run[k].threads| && run[k].threads[u].pc.Canceling? && run[k].threads[u].pc.next == |run[k].threads|;
      assert ThreadInv(run[k], u);
    }
  }

  /** The reported reason is the first non-canceled result received. */
  lemma FinalIsFirstReal(run: seq<State>, labels: seq<Label>, k: nat)
    requires IsRun(run, labels) && k < |run|
    ensures run[k].final == FirstReal(run[k].received) && ReportsFirst(run[k].received, run[k].final)
    ensures |run[k].received| <= CountDone(run[k].threads)
  {
    RunKeepsInv(run, labels, k);
    FirstRealReports(run[k].received);
  }

  /**
   * The collector's loop: `arrivals` are the results that come in before the deadline, and the
   * loop gives up at the first one that does not.
   */
  method CollectReasons(numVcpus: nat, arrivals: seq<Reason>) returns (final: Reason, received: nat)
    ensures received == Min(numVcpus, |arrivals|)
    ensures final == FirstReal(arrivals[..received]) && ReportsFirst(arrivals[..received], final)
  {
    final, received := Canceled, 0;
    while received < numVcpus && received < |arrivals|
      invariant received <= numVcpus && received <= |arrivals|
      invariant final == FirstReal(arrivals[..received])
    {
      FirstRealAppend(arrivals[..received], arrivals[received]);
      assert arrivals[..received + 1] == arrivals[..received] + [arrivals[received]];
      if final == Canceled {
        final := AsFinal(arrivals[received]);
      }
      received := received + 1;
    }
    FirstRealReports(arrivals[..received]);
  }

  // ---- Termination -----------------------------------------------------------------------

  /** Steps a thread can still take once the stop flag is up. */
  function ThreadRank(t: Thread, n: nat): nat {
    match t.pc
    case Done => 0
    case Sending(_) => 1
    case LoopTop => 2
    case Canceling(_, next) => if next <= n then 2 + n - next else 0
    case MustStop(_) => n + 3
    case Dispatch => n + 4
    case InRun => n + 5
    case Ready => n + 6
  }

  function SumRank(ts: seq<Thread>, n: nat): nat {
    if ts == [] then 0 else SumRank(ts[..|ts| - 1], n) + ThreadRank(ts[|ts| - 1], n)
  }

  lemma {:induction false} SumRankUpdate(ts: seq<Thread>, n: nat, i: nat, t: Thread)
    requires i < |ts|
    ensures SumRank(ts[i := t], n) == SumRank(ts, n) + ThreadRank(t, n) - ThreadRank(ts[i], n)
  {
    hide ThreadRank;
    if i == |ts| - 1 {
      assert ts[i := t][..|ts| - 1] == ts[..|ts| - 1];
    } else {
      assert ts[i := t][..|ts| - 1] == ts[..|ts| - 1][i := t];
      SumRankUpdate(ts[..|ts| - 1], n, i, t);
    }
  }

  function WatchdogRank(s: State): nat {
    match s.watchdog
    case Watching => |s.threads| + 2
    case Sweeping(next) => if next <= |s.threads| then 1 + |s.threads| - next else 0
    case Swept => 0
  }

  function CollectorRank(s: State): nat {
    match s.collector
    case Collecting(n) => if n <= |s.threads| then 4 + |s.threads| - n else 0
    case StoreStop => 3
    case JoinWatchdog => 2
    case JoinThreads => 1
    case Returned => 0
  }

  function Rank(s: State): nat {
    SumRank(s.threads, |s.threads|) + WatchdogRank(s) + CollectorRank(s)
  }

  lemma MoveLowersThreadRank(t: Thread, m: Move, n: nat)
    requires CanMove(t, m, n)
    ensures ThreadRank(Moved(t, m, true, n), n) < ThreadRank(t, n)
  {
  }

  lemma CancelKeepsRank(s: State, k: nat, n: nat)
    requires k < |s.threads|
    ensures SumRank(Cancel(s, k).threads, n) == SumRank(s.threads, n)
  {
    hide SumRank;
    SumRankUpdate(s.threads, n, k, Cancel(s, k).threads[k]);
  }

  /** Once the stop flag is up, every step of every part lowers the rank. */
  lemma StepLowersRank(s: State, l: Label, s': State)
    requires Inv(s) && s.stop && Step(s, l, s')
    ensures Rank(s') < Rank(s)
  {
    hide SumRank, ThreadsInv, WatchdogInv, CollectorInv, CountDone, FirstReal;
    var n := |s.threads|;
    match l
    case ThreadMoves(t, m) =>
      MoveLowersThreadRank(s.threads[t], m, n);
      SumRankUpdate(s.threads, n, t, Moved(s.threads[t], m, s.stop, n));
    case ThreadCancels(t) =>
      var c := Cancel(s, s.threads[t].pc.next);
      CancelKeepsRank(s, s.threads[t].pc.next, n);
      SumRankUpdate(c.threads, n, t, Advance(c.threads[t]));
    case WatchdogCancels => CancelKeepsRank(s, s.watchdog.next, n);
    case _ =>
  }

  /** So shutdown takes a bounded number of steps, in every interleaving. */
  lemma {:induction false} ShutdownIsBounded(run: seq<State>, labels: seq<Label>, j: nat, k: nat)
    requires IsRun(run, labels) && j <= k < |run| && run[j].stop
    ensures Rank(run[k]) + (k - j) <= Rank(run[j])
    decreases k
  {
    hide Rank, Inv, Step;
    if j < k {
      ShutdownIsBounded(run, labels, j, k - 1);
      StopNeverFalls(run, labels, j, k - 1);
      RunKeepsInv(run, labels, k - 1);
      StepLowersRank(run[k - 1], labels[k - 1], run[k]);
    }
  }

  /** A thread that is not done can move once everyone is canceled. */
  lemma ThreadCanMove(s: State, i: nat)
    requires Inv(s) && s.watchdog == Swept && i < |s.threads| && s.threads[i].pc != Done
    ensures exists l, s' :: l != Timeout && Step(s, l, s')
  {
    hide CountDone, FirstReal, Step;
    var t := s.threads[i];
    assert ThreadInv(s, i);
    match t.pc
    case LoopTop => MoveEnabled(s, i, CheckStop);
    case Ready => MoveEnabled(s, i, Enter);
    case InRun => MoveEnabled(s, i, ExitRun(true));
    case Dispatch => MoveEnabled(s, i, Resume);
    case MustStop(r) => MoveEnabled(s, i, RaiseStop);
    case Canceling(r, next) =>
      if next < |s.threads| {
        CancelEnabled(s, i);
      } else {
        MoveEnabled(s, i, CancelEnd);
      }
    case Sending(r) => MoveEnabled(s, i, Send);
  }

  lemma CancelEnabled(s: State, t: nat)
    requires t < |s.threads| && s.threads[t].pc.Canceling? && s.threads[t].pc.next < |s.threads|
    ensures exists s' :: Step(s, ThreadCancels(t), s')
  {
    var c := Cancel(s, s.threads[t].pc.next);
    assert Step(s, ThreadCancels(t), SetThread(c, t, Advance(c.threads[t])));
  }

  /**
   * No deadlock after the stop: until the collector has returned, some step other than its
   * timeout is possible.  With `ShutdownIsBounded`, every maximal run ends in `Returned`.
   */
  lemma ShutdownNeverStuck(run: seq<State>, labels: seq<Label>, k: nat)
    requires IsRun(run, labels) && k < |run| && run[k].stop && run[k].collector != Returned
    ensures exists l, s' :: l != Timeout && Step(run[k], l, s')
  {
    RunKeepsInv(run, labels, k);
    var s := run[k];
    var n := |s.threads|;
    if s.watchdog == Watching {
      assert Step(s, WatchdogSees, s.(watchdog := Sweeping(0)));
    } else if s.watchdog.Sweeping? {
      if s.watchdog.next < n {
        assert Step(s, WatchdogCancels, Cancel(s, s.watchdog.next).(watchdog := Sweeping(s.watchdog.next + 1)));
      } else {
        assert Step(s, WatchdogEnds, s.(watchdog := Swept));
      }
    } else if i :| 0 <= i < n && s.threads[i].pc != Done {
      ThreadCanMove(s, i);
    } else {
      CountAllDone(s.threads);
      CollectorCanMove(s);
    }
  }

  lemma CollectorCanMove(s: State)
    requires Inv(s) && s.watchdog == Swept && s.collector != Returned && CountDone(s.threads) == |s.threads|
    requires forall i :: 0 <= i < |s.threads| ==> s.threads[i].pc == Done
    ensures exists l, s' :: l != Timeout && Step(s, l, s')
  {
    hide CountDone, FirstReal, ThreadsInv, CanceledUpTo;
    match s.collector
    case Collecting(k) =>
      if k < |s.threads| {
        assert Step(s, Receive, s.(channel := s.channel[1..], received := s.received + [s.channel[0]],
                                   final := if s.final == Canceled then AsFinal(s.channel[0]) else s.final,
                                   collector := Collecting(k + 1)));
      } else {
        assert Step(s, AllReceived, s.(collector := StoreStop));
      }
    case StoreStop => assert Step(s, CollectorStops, s.(collector := JoinWatchdog, stop := true));
    case JoinWatchdog => assert Step(s, WatchdogJoined, s.(collector := JoinThreads));
    case JoinThreads => assert Step(s, ThreadsJoined, s.(collector := Returned));
  }

  // ---- Why a machine stops -----------------------------------------------------------------

  /** The stop comes from outside, or from a thread that ended by itself. */
  predicate Asks(l: Label) {
    l.ExternalStop? || (l.ThreadMoves? && l.m.RaiseStop?)
  }

  ghost predicate Asked(labels: seq<Label>, k: nat) {
    exists i :: 0 <= i < k <= |labels| && Asks(labels[i])
  }

  ghost predicate TimedOut(labels: seq<Label>, k: nat) {
    exists i :: 0 <= i < k <= |labels| && labels[i].Timeout?
  }

  /** The collector gave up at its deadline and then raised the flag. */
  ghost predicate DeadlineStopped(labels: seq<Label>, k: nat) {
    exists j :: 0 <= j < k <= |labels| && labels[j].CollectorStops? && TimedOut(labels, j)
  }

  /** All results can be in only if threads have sent, which they do only after the stop. */
  lemma AllReceivedAfterStop(s: State)
    requires Inv(s) && s.collector.Collecting? && s.collector.n == |s.threads|
    ensures s.stop
  {
    hide CountDone, FirstReal;
    if i :| 0 <= i < |s.threads| && s.threads[i].pc == Done {
      assert ThreadInv(s, i);
    } else {
      CountNoneDone(s.threads);
    }
  }

  /** Once the collector has left its loop, its deadline has passed or the flag is up. */
  lemma {:induction false} LoopLeftBecause(run: seq<State>, labels: seq<Label>, k: nat)
    requires IsRun(run, labels) && k < |run| && !run[k].collector.Collecting?
    ensures TimedOut(labels, k) || run[k].stop
  {
    hide Inv;
    assert run[0].collector.Collecting?;
    assert Step(run[k - 1], labels[k - 1], run[k]);
    if !run[k - 1].collector.Collecting? {
      LoopLeftBecause(run, labels, k - 1);
    } else {
      if labels[k - 1].AllReceived? {
        RunKeepsInv(run, labels, k - 1);
        AllReceivedAfterStop(run[k - 1]);
      }
    }
  }

  /** Unless its deadline passes, the collector takes every thread's result before it goes on. */
  lemma {:induction false} CollectsAll(run: seq<State>, labels: seq<Label>, k: nat)
    requires IsRun(run, labels) && k < |run| && !run[k].collector.Collecting? && !TimedOut(labels, k)
    ensures |run[k].received| == |run[k].threads|
  {
    hide Inv;
    assert run[0].collector.Collecting?;
    assert Step(run[k - 1], labels[k - 1], run[k]);
    RunKeepsInv(run, labels, k - 1);
    if !run[k - 1].collector.Collecting? {
      CollectsAll(run, labels, k - 1);
    } else {
      CountReceived(run[k - 1]);
    }
  }

  lemma CountReceived(s: State)
    requires Inv(s) && s.collector.Collecting?
    ensures s.collector.n == |s.received|
  {
  }

  /**
   * Exactly why the flag of a machine that did not start stopped is up: somebody asked, or the
   * collector's deadline passed and the collector raised it.
   */
  lemma {:induction false} StopHasACause(run: seq<State>, labels: seq<Label>, k: nat)
    requires IsRun(run, labels) && k < |run| && !run[0].stop
    ensures run[k].stop <==> Asked(labels, k) || DeadlineStopped(labels, k)
  {
    hide Init;
    if k > 0 {
      StopHasACause(run, labels, k - 1);
      var l := labels[k - 1];
      assert Step(run[k - 1], l, run[k]);
      if l.CollectorStops? {
        LoopLeftBecause(run, labels, k - 1);
      }
    }
  }

  /** Without a passed deadline a machine is stopped exactly when somebody asked. */
  lemma StoppedIffAsked(run: seq<State>, labels: seq<Label>, k: nat)
    requires IsRun(run, labels) && k < |run| && !run[0].stop && !TimedOut(labels, k)
    ensures run[k].stop <==> Asked(labels, k)
  {
    hide IsRun;
    StopHasACause(run, labels, k);
  }

  /**
   * The deadline is counted from the spawn, so it also ends a machine whose vCPUs are all
   * running normally: two collector steps raise the stop flag with no thread having asked.
   */
  lemma DeadlineStopsHealthyMachine(s: State)
    requires Init(s) && !s.stop
    ensures var run := [s, s.(collector := StoreStop), s.(collector := JoinWatchdog, stop := true)];
            && IsRun(run, [Timeout, CollectorStops])
            && run[2].stop && run[2].final == Canceled && run[2].threads == s.threads
  {
    var run := [s, s.(collector := StoreStop), s.(collector := JoinWatchdog, stop := true)];
    assert Step(run[0], Timeout, run[1]);
    assert Step(run[1], CollectorStops, run[2]);
  }
}
