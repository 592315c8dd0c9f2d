/**
 * `stop_all_and_wait`: what the number of completion messages it has received says about the VMs
 * it counted.  The channel is read nowhere else, so messages of earlier VMs may still be queued.
 */
module VmWait {
  import opened Bytes
  import opened VmManager
  import opened VmProtocol

  /** No two messages come from the same task. */
  predicate Distinct(q: seq<Msg>) {
    forall i, j :: 0 <= i < j < |q| ==> q[i].sender != q[j].sender
  }

  function Senders(q: seq<Msg>): set<nat> { set i | 0 <= i < |q| :: q[i].sender }

  /** Senders are gone from the operations in flight. */
  predicate Gone(s: State, q: seq<Msg>) {
    forall k :: k in Senders(q) ==> k < s.next && k !in s.ops
  }

  predicate Tidy(s: State) {
    && (forall k :: k in s.ops ==> k < s.next)
    && Gone(s, s.queue) && Distinct(s.queue)
  }

  predicate WaiterTidy(s: State, wt: Waiter) {
    && wt.since <= s.next
    && Gone(s, wt.got) && Distinct(wt.got) && Senders(wt.got) !! Senders(s.queue)
    && (forall k :: k in s.ops && k < wt.since && Owned(s.ops[k]).Some? ==> k in wt.counted)
  }

  ghost predicate AllTidy(s: State) {
    Tidy(s) && forall w :: w in s.waiters ==> WaiterTidy(s, s.waiters[w])
  }

  lemma SendersSnoc(q: seq<Msg>, m: Msg)
    ensures Senders(q + [m]) == Senders(q) + {m.sender}
    ensures Distinct(q) && m.sender !in Senders(q) ==> Distinct(q + [m])
  {
    var q' := q + [m];
    assert forall i :: 0 <= i < |q| ==> q'[i] == q[i];
    forall k | k in Senders(q) + {m.sender} ensures k in Senders(q') {
      if k in Senders(q) {
        var i :| 0 <= i < |q| && q[i].sender == k;
        assert q'[i].sender == k;
      } else {
        assert q'[|q|].sender == k;
      }
    }
  }

  lemma SendersTail(q: seq<Msg>)
    requires q != [] && Distinct(q)
    ensures Senders(q) == Senders(q[1..]) + {q[0].sender} && q[0].sender !in Senders(q[1..])
    ensures Distinct(q[1..])
  {
    assert forall i :: 0 <= i < |q[1..]| ==> q[1..][i] == q[i + 1];
    forall k | k in Senders(q) ensures k in Senders(q[1..]) + {q[0].sender} {
      var i :| 0 <= i < |q| && q[i].sender == k;
      if i > 0 {
        assert q[1..][i - 1].sender == k;
      }
    }
  }

  /** Distinct messages are as many as their senders. */
  lemma {:induction false} SendersCount(q: seq<Msg>)
    requires Distinct(q)
    ensures |Senders(q)| == |q|
  {
    if q == [] {
      assert Senders(q) == {};
    } else {
      SendersTail(q);
      SendersCount(q[1..]);
    }
  }

  /** Operations in flight are old ones, none newly owning a VM, or carry the next number. */
  predicate OpsEvolve(s: State, s': State) {
    && s.next <= s'.next
    && forall k :: k in s'.ops ==>
         || (s.next <= k < s'.next)
         || (k in s.ops && (Owned(s'.ops[k]).Some? ==> Owned(s.ops[k]).Some?))
  }

  lemma StepEvolves(s: State, l: Label)
    requires Enabled(s, l) && Tidy(s)
    ensures OpsEvolve(s, Apply(s, l))
    ensures !l.Send? && !l.Receive? ==> Apply(s, l).queue == s.queue
    ensures !l.BeginWait? && !l.Receive? && !l.EndWait? ==> Apply(s, l).waiters == s.waiters
  {
    hide RunningIds, Inserted, Begun, StopRequested, Exited, Removed, AllFlagged, Stored, SafeId, Owners, Gone, Distinct;
  }

  lemma EvolveKeeps(s: State, s': State, wt: Waiter)
    requires OpsEvolve(s, s') && Tidy(s) && s'.queue == s.queue
    ensures Tidy(s')
    ensures WaiterTidy(s, wt) ==> WaiterTidy(s', wt)
  {
    hide Senders, Distinct, Owned;
  }

  lemma SendKeeps(s: State, k: nat, wt: Waiter)
    requires Enabled(s, Send(k)) && Tidy(s)
    ensures Tidy(Apply(s, Send(k)))
    ensures WaiterTidy(s, wt) ==> WaiterTidy(Apply(s, Send(k)), wt)
  {
    hide Senders, Distinct, Owned;
    SendersSnoc(s.queue, Msg(s.ops[k].id, k));
  }

  lemma ReceiveKeeps(s: State, w: nat, wt: Waiter)
    requires Enabled(s, Receive(w)) && Tidy(s) && WaiterTidy(s, s.waiters[w])
    ensures Tidy(Apply(s, Receive(w)))
    ensures WaiterTidy(s, wt) ==> WaiterTidy(Apply(s, Receive(w)), wt)
    ensures WaiterTidy(Apply(s, Receive(w)), Apply(s, Receive(w)).waiters[w])
  {
    hide Senders, Distinct, Owned;
    SendersTail(s.queue);
    SendersSnoc(s.waiters[w].got, s.queue[0]);
  }

  lemma StepKeepsTidy(s: State, l: Label)
    requires Enabled(s, l) && AllTidy(s)
    ensures AllTidy(Apply(s, l))
  {
    hide Senders, Distinct, Owned, Apply, Enabled, Tidy, WaiterTidy, Owners;
    var s' := Apply(s, l);
    StepEvolves(s, l);
    match l
    case Send(k) =>
      SendKeeps(s, k, Waiter(0, [], {}, 0));
      forall w | w in s'.waiters ensures WaiterTidy(s', s'.waiters[w]) { SendKeeps(s, k, s.waiters[w]); }
    case Receive(w0) =>
      ReceiveShape(s, w0);
      ReceiveKeeps(s, w0, s.waiters[w0]);
      forall w | w in s'.waiters ensures WaiterTidy(s', s'.waiters[w]) {
        if w != w0 { ReceiveKeeps(s, w0, s.waiters[w]); }
      }
    case BeginWait(w0) =>
      EvolveKeeps(s, s', Waiter(0, [], {}, 0));
      BeginTidy(s, w0);
      forall w | w in s'.waiters ensures WaiterTidy(s', s'.waiters[w]) {
        if w != w0 { EvolveKeeps(s, s', s.waiters[w]); }
      }
    case EndWait(w0) =>
      EvolveKeeps(s, s', Waiter(0, [], {}, 0));
      EndShape(s, w0);
      forall w | w in s'.waiters ensures WaiterTidy(s', s'.waiters[w]) { EvolveKeeps(s, s', s.waiters[w]); }
    case _ =>
      EvolveKeeps(s, s', Waiter(0, [], {}, 0));
      forall w | w in s'.waiters ensures WaiterTidy(s', s'.waiters[w]) { EvolveKeeps(s, s', s.waiters[w]); }
  }

  lemma ReceiveShape(s: State, w: nat)
    requires Enabled(s, Receive(w))
    ensures w in s.waiters
    ensures forall v :: v in Apply(s, Receive(w)).waiters ==> v in s.waiters && (v != w ==> Apply(s, Receive(w)).waiters[v] == s.waiters[v])
  {
  }

  lemma EndShape(s: State, w: nat)
    requires Enabled(s, EndWait(w))
    ensures forall v :: v in Apply(s, EndWait(w)).waiters ==> v in s.waiters && Apply(s, EndWait(w)).waiters[v] == s.waiters[v]
  {
  }

  lemma BeginTidy(s: State, w: nat)
    requires Enabled(s, BeginWait(w)) && Tidy(s)
    ensures var s' := Apply(s, BeginWait(w));
            && (forall v :: v in s'.waiters && v != w ==> v in s.waiters && s'.waiters[v] == s.waiters[v])
            && WaiterTidy(s', s'.waiters[w])
  {
    hide Owned, AllFlagged, RunningIds;
  }

  lemma InitTidy(s: State)
    requires Init(s)
    ensures AllTidy(s)
  {
  }

  lemma {:induction false} RunKeepsTidy(run: seq<State>, labels: seq<Label>, n: nat)
    requires IsRun(run, labels) && n < |run|
    ensures AllTidy(run[n])
  {
    hide Apply, Enabled, AllTidy;
    if n == 0 {
      InitTidy(run[0]);
    } else {
      RunKeepsTidy(run, labels, n - 1);
      assert run[n - 1 + 1] == Apply(run[n - 1], labels[n - 1]);
      StepKeepsTidy(run[n - 1], labels[n - 1]);
    }
  }

  // ---- The count --------------------------------------------------------------------------

  /** Operations owning different VMs are as many as those VMs. */
  lemma {:induction false} OwnedCount(ops: map<nat, Op>, ks: set<nat>)
    requires forall k :: k in ks ==> k in ops && Owned(ops[k]).Some?
    requires forall k, k' :: k in ks && k' in ks && Owned(ops[k]) == Owned(ops[k']) ==> k == k'
    ensures |set k | k in ks :: Owned(ops[k]).value| == |ks|
    decreases |ks|
  {
    hide Owned;
    var ids := set k | k in ks :: Owned(ops[k]).value;
    if ks == {} {
      assert ids == {};
    } else {
      var k :| k in ks;
      OwnedCount(ops, ks - {k});
      assert ids == (set j | j in ks - {k} :: Owned(ops[j]).value) + {Owned(ops[k]).value};
    }
  }

  /** Without store failures there are as many starts and tasks as running VMs. */
  lemma CountIsOwners(s: State)
    requires Accounted(s)
    ensures |RunningIds(s.vms)| == |Owners(s.ops)|
  {
    hide RunningIds, Owned;
    OwnedCount(s.ops, Owners(s.ops));
    var ids := set k | k in Owners(s.ops) :: Owned(s.ops[k]).value;
    forall id | id in RunningIds(s.vms) ensures id in ids {
      var k :| k in s.ops && Owned(s.ops[k]) == Some(id);
      assert k in Owners(s.ops);
    }
    assert ids == RunningIds(s.vms);
  }

  ghost predicate CountsFit(s: State) {
    forall w :: w in s.waiters ==> s.waiters[w].count == |s.waiters[w].counted|
  }

  lemma StepKeepsCounts(s: State, l: Label)
    requires Enabled(s, l) && Accounted(s) && CountsFit(s)
    ensures CountsFit(Apply(s, l))
  {
    hide RunningIds, Inserted, Begun, StopRequested, Exited, Removed, AllFlagged, Stored, SafeId, Owners, Accounted, Owned;
    CountIsOwners(s);
  }

  lemma {:induction false} RunKeepsCounts(run: seq<State>, labels: seq<Label>, n: nat)
    requires IsRun(run, labels) && AllReliable(labels) && n < |run|
    ensures CountsFit(run[n])
  {
    hide Apply, Enabled, Accounted, Reliable, AllReliable, CountsFit;
    if n == 0 {
      InitCounts(run[0]);
    } else {
      RunKeepsCounts(run, labels, n - 1);
      RunKeepsAccounts(run, labels, n - 1);
      assert run[n - 1 + 1] == Apply(run[n - 1], labels[n - 1]);
      StepKeepsCounts(run[n - 1], labels[n - 1]);
    }
  }

  lemma InitCounts(s: State)
    requires Init(s)
    ensures CountsFit(s)
  {
  }

  // ---- What a full count means --------------------------------------------------------------

  /** Received messages that no counted VM sent. */
  function Stale(wt: Waiter): set<nat> { Senders(wt.got) - wt.counted }

  /** Counted VMs whose completion was received. */
  function Reported(wt: Waiter): set<nat> { Senders(wt.got) * wt.counted }

  /** Counted VMs that have not finished. */
  function Unfinished(s: State, wt: Waiter): set<nat> { wt.counted * s.ops.Keys }

  lemma SplitCount(s: State, wt: Waiter)
    requires WaiterTidy(s, wt)
    ensures |Reported(wt)| + |Stale(wt)| == |wt.got|
    ensures Unfinished(s, wt) <= wt.counted - Reported(wt)
    ensures |wt.counted - Reported(wt)| == |wt.counted| - |Reported(wt)|
  {
    hide Senders, Distinct;
    SendersCount(wt.got);
    assert Senders(wt.got) == Reported(wt) + Stale(wt);
    assert wt.counted == (wt.counted - Reported(wt)) + Reported(wt);
  }

  lemma SubsetCount(a: set<nat>, b: set<nat>)
    requires a <= b
    ensures |a| <= |b|
  {
    assert b == a + (b - a);
  }

  /**
   * A call that has received as many messages as it counted VMs: all but the stale ones came
   * from counted VMs, at most that many counted VMs are unfinished, and if none was stale then
   * every VM running now was started after the count.
   */
  lemma WaitMeansFinished(run: seq<State>, labels: seq<Label>, n: nat, w: nat)
    requires IsRun(run, labels) && AllReliable(labels) && n < |run| && w in run[n].waiters
    requires |run[n].waiters[w].got| == run[n].waiters[w].count
    ensures var wt := run[n].waiters[w];
            && |Reported(wt)| == wt.count - |Stale(wt)|
            && |Unfinished(run[n], wt)| <= |Stale(wt)|
            && (Stale(wt) == {} ==>
                  forall k :: k in run[n].ops && Owned(run[n].ops[k]).Some? ==> wt.since <= k)
  {
    hide IsRun, AllReliable, Owned, Reported, Stale, Unfinished;
    var s := run[n];
    var wt := s.waiters[w];
    RunKeepsTidy(run, labels, n);
    RunKeepsCounts(run, labels, n);
    assert WaiterTidy(s, wt) && wt.count == |wt.counted|;
    SplitCount(s, wt);
    SubsetCount(Unfinished(s, wt), wt.counted - Reported(wt));
    if Stale(wt) == {} {
      NoneUnfinished(s, wt);
    }
  }

  lemma NoneUnfinished(s: State, wt: Waiter)
    requires WaiterTidy(s, wt) && |Unfinished(s, wt)| == 0
    ensures forall k :: k in s.ops && Owned(s.ops[k]).Some? ==> wt.since <= k
  {
    hide Owned, Gone, Distinct, Senders;
    assert Unfinished(s, wt) == {};
    forall k | k in s.ops && Owned(s.ops[k]).Some? ensures wt.since <= k {
      assert k !in Unfinished(s, wt);
    }
  }

  // ---- Where stale messages come from --------------------------------------------------------

  /** A task number seen at the count: in flight then, queued then, or given out later. */
  predicate KnownAt(s: State, k: nat) {
    || s.next <= k
    || k in Senders(s.queue)
    || (k in s.ops && Task(s.ops[k]))
  }

  predicate AllKnown(s0: State, s: State, got: seq<Msg>) {
    && s0.next <= s.next && (forall k :: k in s.ops && k < s0.next ==> k in s0.ops)
    && (forall k :: k in s.ops && Task(s.ops[k]) ==> KnownAt(s0, k))
    && (forall k :: k in Senders(s.queue) ==> KnownAt(s0, k))
    && (forall k :: k in Senders(got) ==> KnownAt(s0, k))
  }

  lemma StepTasks(s: State, l: Label)
    requires Enabled(s, l)
    ensures forall k :: k in Apply(s, l).ops && Task(Apply(s, l).ops[k]) ==> k == s.next || (k in s.ops && Task(s.ops[k]))
    ensures forall k :: k in Apply(s, l).ops ==> k == s.next || k in s.ops
    ensures s.next <= Apply(s, l).next
  {
    hide RunningIds, Inserted, Begun, StopRequested, Exited, Removed, AllFlagged, Stored, SafeId, Owners;
  }

  lemma StepQueue(s: State, l: Label, w: nat)
    requires Enabled(s, l) && Tidy(s) && w in s.waiters && w in Apply(s, l).waiters
    ensures forall k :: k in Senders(Apply(s, l).queue) ==> k in Senders(s.queue) || (k in s.ops && Task(s.ops[k]))
    ensures forall k :: k in Senders(Apply(s, l).waiters[w].got) ==> k in Senders(s.queue) || k in Senders(s.waiters[w].got)
    ensures Apply(s, l).waiters[w].counted == s.waiters[w].counted && Apply(s, l).waiters[w].since == s.waiters[w].since
  {
    hide RunningIds, Inserted, Begun, StopRequested, Exited, Removed, AllFlagged, Stored, SafeId, Owners, Senders, Distinct, Gone;
    match l
    case Send(k) => SendersSnoc(s.queue, Msg(s.ops[k].id, k));
    case Receive(v) =>
      SendersTail(s.queue);
      SendersSnoc(s.waiters[v].got, s.queue[0]);
    case _ =>
  }

  lemma {:induction false} MessagesKnown(run: seq<State>, labels: seq<Label>, b: nat, n: nat, w: nat)
    requires IsRun(run, labels) && b < n < |run| && labels[b] == BeginWait(w)
    requires forall m :: b < m <= n ==> w in run[m].waiters
    ensures AllKnown(run[b], run[n], run[n].waiters[w].got)
    ensures run[n].waiters[w].counted == Owners(run[b].ops) && run[n].waiters[w].since == run[b].next
  {
    hide Apply, Enabled, Init, AllKnown, AllTidy, Owners;
    assert run[n - 1 + 1] == Apply(run[n - 1], labels[n - 1]);
    if n == b + 1 {
      KnownAtStart(run[b], w);
    } else {
      MessagesKnown(run, labels, b, n - 1, w);
      RunKeepsTidy(run, labels, n - 1);
      TidyOf(run[n - 1]);
      StepTasks(run[n - 1], labels[n - 1]);
      StepQueue(run[n - 1], labels[n - 1], w);
      KnownStep(run[b], run[n - 1], run[n - 1].waiters[w].got, run[n], run[n].waiters[w].got);
    }
  }

  lemma TidyOf(s: State)
    requires AllTidy(s)
    ensures Tidy(s)
  {
  }

  lemma KnownAtStart(s: State, w: nat)
    requires Enabled(s, BeginWait(w))
    ensures var s' := Apply(s, BeginWait(w));
            AllKnown(s, s', s'.waiters[w].got) && s'.waiters[w].counted == Owners(s.ops) && s'.waiters[w].since == s.next
  {
    hide Owners, AllFlagged, RunningIds;
  }

  lemma KnownStep(s0: State, s: State, got: seq<Msg>, s': State, got': seq<Msg>)
    requires AllKnown(s0, s, got) && s.next <= s'.next
    requires forall k :: k in s'.ops && Task(s'.ops[k]) ==> k == s.next || (k in s.ops && Task(s.ops[k]))
    requires forall k :: k in s'.ops ==> k == s.next || k in s.ops
    requires forall k :: k in Senders(s'.queue) ==> k in Senders(s.queue) || (k in s.ops && Task(s.ops[k]))
    requires forall k :: k in Senders(got') ==> k in Senders(s.queue) || k in Senders(got)
    ensures AllKnown(s0, s', got')
  {
    hide Senders, Task;
  }

  /**
   * Every stale message was queued at the count, or owed by a task already past its exit update
   * then, or comes from a VM started after the count.
   */
  lemma StaleOrigin(run: seq<State>, labels: seq<Label>, b: nat, n: nat, w: nat, k: nat)
    requires IsRun(run, labels) && b < n < |run| && labels[b] == BeginWait(w)
    requires forall m :: b < m <= n ==> w in run[m].waiters
    requires k in Stale(run[n].waiters[w])
    ensures || k in Senders(run[b].queue)
            || (k in run[b].ops && (run[b].ops[k].SavingExit? || run[b].ops[k].Sending?))
            || run[b].next <= k
  {
    hide IsRun, Senders;
    MessagesKnown(run, labels, b, n, w);
    assert KnownAt(run[b], k);
  }

  // ---- A bound known at the count ------------------------------------------------------------

  /** Tasks past their exit update that have not reported yet. */
  function Owing(s: State): set<nat> {
    set k | k in s.ops && (s.ops[k].SavingExit? || s.ops[k].Sending?)
  }

  /** The numbers given out from `a` up to `b`. */
  function Range(a: nat, b: nat): (r: set<nat>)
    ensures forall k :: k in r <==> a <= k < b
    ensures a <= b ==> |r| == b - a
  {
    if a >= b then {} else Range(a, b - 1) + {b - 1}
  }

  lemma UnionCount(a: set<nat>, b: set<nat>)
    ensures |a + b| <= |a| + |b|
  {
    assert a + b == a + (b - a);
    SubsetCount(b - a, b);
  }

  /**
   * What a caller can tell at the count: a full count leaves at most as many counted VMs unfinished
   * as messages were queued then, plus tasks past their exit update then, plus operations begun
   * since; none, if all three are zero.
   */
  lemma WaitBound(run: seq<State>, labels: seq<Label>, b: nat, n: nat, w: nat)
    requires IsRun(run, labels) && AllReliable(labels) && b < n < |run| && labels[b] == BeginWait(w)
    requires forall m :: b < m <= n ==> w in run[m].waiters
    requires |run[n].waiters[w].got| == run[n].waiters[w].count
    ensures run[b].next <= run[n].next
    ensures |Unfinished(run[n], run[n].waiters[w])| <= |run[b].queue| + |Owing(run[b])| + (run[n].next - run[b].next)
    ensures run[b].queue == [] && Owing(run[b]) == {} && run[n].next == run[b].next ==>
              Unfinished(run[n], run[n].waiters[w]) == {}
  {
    hide IsRun, AllReliable, Owing, Senders, Unfinished, Stale, Owned, Distinct, Range;
    var wt := run[n].waiters[w];
    var q, o, r := Senders(run[b].queue), Owing(run[b]), Range(run[b].next, run[n].next);
    MessagesKnown(run, labels, b, n, w);
    WaitMeansFinished(run, labels, n, w);
    RunKeepsTidy(run, labels, n);
    RunKeepsTidy(run, labels, b);
    SendersCount(run[b].queue);
    forall k | k in Stale(wt) ensures k in q + o + r {
      StaleOrigin(run, labels, b, n, w, k);
      StaleOld(run[n], wt, k);
      InRangeOrOwing(run[b], run[n], k);
    }
    SubsetCount(Stale(wt), q + o + r);
    UnionCount(q + o, r);
    UnionCount(q, o);
  }

  lemma StaleOld(s: State, wt: Waiter, k: nat)
    requires WaiterTidy(s, wt) && k in Stale(wt)
    ensures k < s.next
  {
  }

  lemma InRangeOrOwing(s0: State, s: State, k: nat)
    ensures s0.next <= k < s.next ==> k in Range(s0.next, s.next)
    ensures k in s0.ops && (s0.ops[k].SavingExit? || s0.ops[k].Sending?) ==> k in Owing(s0)
  {
  }
}
