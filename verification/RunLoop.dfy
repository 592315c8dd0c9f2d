/**
 * The vCPU run loop (`run_vcpu_loop`, `poll_devices`, `dispatch_exit`) and its single slot for a
 * deferred interrupt.
 *
 * The hypervisor, the devices and the stop flag are a script of answers, one `Turn` per
 * iteration; everything is proved for every script.
 */
module RunLoop {
  import opened Bytes

  datatype ExitReason = Halted | ShutDown | CanceledByFlag | Unexpected(code: nat)

  /** What `vcpu.run()` returned.  An MMIO exit carries the vector its device raised, if any. */
  datatype VcpuExit =
    | IoPort
    | Halt
    | Shutdown
    | Mmio(irq: Option<byte>)
    | InterruptWindow
    | Canceled
    | Unknown(code: nat)

  /**
   * The outside world during one iteration: the stop flag, the vector polled from the devices,
   * whether injecting and arming succeed for it, the exit (none if `run` failed), whether the
   * register accesses of its handler succeed, and whether injecting and arming succeed then.
   */
  datatype Turn = Turn(
    stop: bool, polled: Option<byte>, pollInjects: bool, pollArms: bool,
    exit: Option<VcpuExit>, regsOk: bool, injects: bool, arms: bool)

  /**
   * `pending` is the deferred vector and `armed` whether an interrupt window is requested.  The
   * rest is bookkeeping: vectors raised by devices, injected into the guest, overwritten in the
   * slot, and dropped with a hypervisor error; the number of deferrals and of deferred vectors
   * taken; and (pending, armed) at each entry to `vcpu.run`.
   */
  datatype Loop = Loop(
    pending: Option<byte>, armed: bool,
    raised: multiset<byte>, injected: multiset<byte>, overwritten: multiset<byte>, dropped: multiset<byte>,
    deferrals: nat, taken: nat, entries: seq<(Option<byte>, bool)>)

  datatype Outcome = Continue | Return(reason: ExitReason) | HalError

  const Fresh: Loop :=
    Loop(None, false, multiset{}, multiset{}, multiset{}, multiset{}, 0, 0, [])

  function Slot(s: Loop): multiset<byte> {
    if s.pending.Some? then multiset{s.pending.value} else multiset{}
  }

  /** Inject at once, or put the vector in the slot and ask for an interrupt window. */
  function Deliver(s: Loop, v: byte, injects: bool, arms: bool): (Loop, Outcome) {
    var s := s.(raised := s.raised + multiset{v});
    if injects then (s.(injected := s.injected + multiset{v}), Continue)
    else
      var s := s.(overwritten := s.overwritten + Slot(s), pending := Some(v), deferrals := s.deferrals + 1);
      if arms then (s.(armed := true), Continue) else (s, HalError)
  }

  function PollDevices(s: Loop, t: Turn): (Loop, Outcome) {
    if t.polled.None? then (s, Continue) else Deliver(s, t.polled.value, t.pollInjects, t.pollArms)
  }

  function DispatchExit(s: Loop, exit: VcpuExit, t: Turn): (Loop, Outcome) {
    match exit
    case IoPort => (s, if t.regsOk then Continue else HalError)
    case Halt => (s, Return(Halted))
    case Shutdown => (s, Return(ShutDown))
    case Mmio(irq) =>
      // The device raises its vector before RIP is advanced; a failed advance loses it.
      if !t.regsOk then
        (if irq.None? then s
         else s.(raised := s.raised + multiset{irq.value}, dropped := s.dropped + multiset{irq.value}), HalError)
      else if irq.None? then (s, Continue)
      else Deliver(s, irq.value, t.injects, t.arms)
    case InterruptWindow =>
      // The hypervisor disarms the window when it fires.
      var s := s.(armed := false);
      if s.pending.None? then (s, Continue)
      else
        var v := s.pending.value;
        var s := s.(pending := None);
        if t.injects then (s.(injected := s.injected + multiset{v}, taken := s.taken + 1), Continue)
        else (s.(dropped := s.dropped + multiset{v}, taken := s.taken + 1), HalError)
    case Canceled =>
      if s.pending.None? then (s, Continue)
      else if t.arms then (s.(armed := true), Continue)
      else (s, HalError)
    case Unknown(code) => (s, Return(Unexpected(code)))
  }

  /** One iteration of the loop. */
  function Iterate(s: Loop, t: Turn): (Loop, Outcome) {
    if t.stop then (s, Return(CanceledByFlag))
    else
      var (s, polled) := PollDevices(s, t);
      if polled != Continue then (s, polled)
      else
        var s := s.(entries := s.entries + [(s.pending, s.armed)]);
        if t.exit.None? then (s, HalError) else DispatchExit(s, t.exit.value, t)
  }

  /** The loop on a whole script. */
  function Run(script: seq<Turn>, s: Loop): (Loop, Outcome) {
    if script == [] then (s, Continue)
    else
      var (s, outcome) := Iterate(s, script[0]);
      if outcome != Continue then (s, outcome) else Run(script[1..], s)
  }

  /** `run_vcpu_loop`, until the script ends or the loop returns. */
  method RunVcpuLoop(script: seq<Turn>) returns (s: Loop, outcome: Outcome)
    ensures (s, outcome) == Run(script, Fresh)
    ensures outcome != HalError ==> s.raised == s.injected + Slot(s) + s.overwritten
    ensures forall i :: 0 <= i < |s.entries| && s.entries[i].0.Some? ==> s.entries[i].1
  {
    s, outcome := Fresh, Continue;
    var i := 0;
    while i < |script| && outcome == Continue
      invariant i <= |script|
      invariant outcome == Continue ==> Run(script, Fresh) == Run(script[i..], s)
      invariant outcome != Continue ==> Run(script, Fresh) == (s, outcome)
    {
      assert script[i..][1..] == script[i + 1..];
      var next := Iterate(s, script[i]);
      s, outcome := next.0, next.1;
      i := i + 1;
    }
    assert outcome == Continue ==> script[i..] == [];
    InterruptsConserved(script);
  }

  /** Every raised vector is accounted for once, and a pending one has its window armed. */
  ghost predicate Conserved(s: Loop) {
    && s.raised == s.injected + Slot(s) + s.overwritten + s.dropped
    && |s.overwritten| + s.taken + |Slot(s)| == s.deferrals
    && (forall i :: 0 <= i < |s.entries| && s.entries[i].0.Some? ==> s.entries[i].1)
  }

  ghost predicate Inv(s: Loop) {
    Conserved(s) && s.dropped == multiset{} && (s.pending.Some? ==> s.armed)
  }

  ghost predicate After(s: Loop, outcome: Outcome) {
    Conserved(s) && |s.dropped| <= 1 && (outcome != HalError ==> Inv(s))
  }

  lemma DeliverKeeps(s: Loop, v: byte, injects: bool, arms: bool)
    requires Inv(s)
    ensures After(Deliver(s, v, injects, arms).0, Deliver(s, v, injects, arms).1)
  {
  }

  lemma DispatchKeeps(s: Loop, exit: VcpuExit, t: Turn)
    requires Inv(s)
    ensures After(DispatchExit(s, exit, t).0, DispatchExit(s, exit, t).1)
  {
    if exit.Mmio? && exit.irq.Some? && t.regsOk {
      DeliverKeeps(s, exit.irq.value, t.injects, t.arms);
    }
  }

  lemma IterateKeeps(s: Loop, t: Turn)
    requires Inv(s)
    ensures After(Iterate(s, t).0, Iterate(s, t).1)
  {
    if !t.stop {
      if t.polled.Some? {
        DeliverKeeps(s, t.polled.value, t.pollInjects, t.pollArms);
      }
      var (p, polled) := PollDevices(s, t);
      if polled == Continue && t.exit.Some? {
        DispatchKeeps(p.(entries := p.entries + [(p.pending, p.armed)]), t.exit.value, t);
      }
    }
  }

  lemma {:induction false} RunKeeps(script: seq<Turn>, s: Loop)
    requires Inv(s)
    ensures After(Run(script, s).0, Run(script, s).1)
  {
    if script != [] {
      IterateKeeps(s, script[0]);
      var (s', outcome) := Iterate(s, script[0]);
      if outcome == Continue {
        RunKeeps(script[1..], s');
      }
    }
  }

  /**
   * Interrupt conservation over a whole run: what the devices raised is what was injected, plus
   * the pending vector, plus those overwritten in the slot; an error ends the run with at most one
   * vector dropped; and every entry to `vcpu.run` with a pending vector has the window armed.
   */
  lemma InterruptsConserved(script: seq<Turn>)
    ensures var (s, outcome) := Run(script, Fresh);
            && Conserved(s) && |s.dropped| <= 1
            && (outcome != HalError ==> s.dropped == multiset{} && (s.pending.Some? ==> s.armed))
  {
    RunKeeps(script, Fresh);
  }

  // ---- Why the loop ends ------------------------------------------------------------------------

  /** The loop state at the start of turn `i`, if the loop gets there. */
  function StateAt(script: seq<Turn>, s: Loop, i: nat): Option<Loop>
    requires i < |script|
  {
    if i == 0 then Some(s)
    else
      var (s', outcome) := Iterate(s, script[0]);
      if outcome != Continue then None else StateAt(script[1..], s', i - 1)
  }

  /** The polled vector was delivered or put in the slot. */
  predicate PollWorks(t: Turn) { t.polled.None? || t.pollInjects || t.pollArms }

  /** The turn gets as far as an exit of the guest. */
  predicate GuestExits(t: Turn) { !t.stop && PollWorks(t) && t.exit.Some? }

  /** Whether the loop leaves at turn `t` with reason `r`: on the flag, or on the exit of that name. */
  predicate LeavesWith(t: Turn, r: ExitReason) {
    match r
    case CanceledByFlag => t.stop
    case Halted => GuestExits(t) && t.exit == Some(Halt)
    case ShutDown => GuestExits(t) && t.exit == Some(Shutdown)
    case Unexpected(code) => GuestExits(t) && t.exit == Some(Unknown(code))
  }

  /** Whether turn `t`, entered with `pending` in the slot, ends the loop with a hypervisor error. */
  predicate Fails(t: Turn, pending: bool) {
    && !t.stop
    && (|| !PollWorks(t)
        || t.exit.None?
        || (t.exit == Some(IoPort) && !t.regsOk)
        || (t.exit.value.Mmio? && (!t.regsOk || (t.exit.value.irq.Some? && !t.injects && !t.arms)))
        || (t.exit == Some(InterruptWindow) && pending && !t.injects)
        || (t.exit == Some(VcpuExit.Canceled) && pending && !t.arms))
  }

  /** Something is in the slot after the poll of turn `t`. */
  predicate PendingThen(s: Loop, t: Turn) { s.pending.Some? || (t.polled.Some? && !t.pollInjects) }

  lemma PollOutcome(s: Loop, t: Turn)
    ensures PollDevices(s, t).1 == if PollWorks(t) then Continue else HalError
    ensures PollDevices(s, t).0.pending.Some? <==> PendingThen(s, t)
  {
  }

  lemma DispatchOutcome(s: Loop, t: Turn, r: ExitReason)
    requires t.exit.Some? && !t.stop && PollWorks(t)
    ensures DispatchExit(s, t.exit.value, t).1 == Return(r) <==> LeavesWith(t, r)
    ensures DispatchExit(s, t.exit.value, t).1 == HalError <==> Fails(t, s.pending.Some?)
  {
  }

  lemma IterateOutcome(s: Loop, t: Turn, r: ExitReason)
    ensures Iterate(s, t).1 == Return(r) <==> LeavesWith(t, r)
    ensures Iterate(s, t).1 == HalError <==> Fails(t, PendingThen(s, t))
  {
    hide PollDevices, DispatchExit, PendingThen;
    if !t.stop {
      PollOutcome(s, t);
      if PollWorks(t) && t.exit.Some? {
        var p := PollDevices(s, t).0;
        DispatchOutcome(p.(entries := p.entries + [(p.pending, p.armed)]), t, r);
      }
    }
  }

  /**
   * The loop returns a reason exactly when some turn it reaches leaves with it: cancelled on a
   * raised flag, halted, shut down or unexpected on the exit of that kind.
   */
  lemma {:induction false} ReturnsIff(script: seq<Turn>, s: Loop, r: ExitReason)
    ensures Run(script, s).1 == Return(r) <==>
            exists i :: 0 <= i < |script| && StateAt(script, s, i).Some? && LeavesWith(script[i], r)
  {
    hide Iterate, LeavesWith;
    if script != [] {
      IterateOutcome(s, script[0], r);
      var (s', outcome) := Iterate(s, script[0]);
      if outcome == Continue {
        ReturnsIff(script[1..], s', r);
        if i :| 0 <= i < |script[1..]| && StateAt(script[1..], s', i).Some? && LeavesWith(script[1..][i], r) {
          assert StateAt(script, s, i + 1).Some? && LeavesWith(script[i + 1], r);
        }
        if i :| 0 <= i < |script| && StateAt(script, s, i).Some? && LeavesWith(script[i], r) {
          assert i > 0;
          assert StateAt(script[1..], s', i - 1).Some? && LeavesWith(script[1..][i - 1], r);
        }
      } else if LeavesWith(script[0], r) {
        assert StateAt(script, s, 0).Some?;
      }
    }
  }

  /** And it ends with a hypervisor error exactly when a turn it reaches fails. */
  lemma {:induction false} FailsIff(script: seq<Turn>, s: Loop)
    ensures Run(script, s).1 == HalError <==>
            exists i :: 0 <= i < |script| && StateAt(script, s, i).Some?
                        && Fails(script[i], PendingThen(StateAt(script, s, i).value, script[i]))
  {
    hide Iterate, Fails, PendingThen;
    if script != [] {
      IterateOutcome(s, script[0], Halted);
      var (s', outcome) := Iterate(s, script[0]);
      if outcome == Continue {
        FailsIff(script[1..], s');
        if i :| 0 <= i < |script[1..]| && StateAt(script[1..], s', i).Some?
                && Fails(script[1..][i], PendingThen(StateAt(script[1..], s', i).value, script[1..][i])) {
          assert StateAt(script, s, i + 1) == StateAt(script[1..], s', i);
          assert Fails(script[i + 1], PendingThen(StateAt(script, s, i + 1).value, script[i + 1]));
        }
        if i :| 0 <= i < |script| && StateAt(script, s, i).Some?
                && Fails(script[i], PendingThen(StateAt(script, s, i).value, script[i])) {
          assert i > 0;
          assert StateAt(script[1..], s', i - 1) == StateAt(script, s, i) && script[1..][i - 1] == script[i];
        }
      } else if Fails(script[0], PendingThen(s, script[0])) {
        assert StateAt(script, s, 0) == Some(s);
      }
    }
  }

  // ---- What is lost -----------------------------------------------------------------------------

  /** A vector that cannot be injected finds the slot taken. */
  predicate DefersOver(s: Loop, v: Option<byte>, injects: bool) {
    v.Some? && !injects && s.pending.Some?
  }

  /** The exit's own interrupt, if its handler gets as far as delivering it. */
  function ExitIrq(t: Turn): Option<byte> {
    if t.exit.Some? && t.exit.value.Mmio? && t.regsOk then t.exit.value.irq else None
  }

  /** During this turn, the polled vector or the exit's vector is deferred over a pending one. */
  predicate TurnDefersOver(s: Loop, t: Turn) {
    && !t.stop
    && (|| DefersOver(s, t.polled, t.pollInjects)
        || (PollDevices(s, t).1 == Continue && DefersOver(PollDevices(s, t).0, ExitIrq(t), t.injects)))
  }

  /** Some turn that the loop reaches does so. */
  predicate DoubleDefers(script: seq<Turn>, s: Loop) {
    && script != []
    && (|| TurnDefersOver(s, script[0])
        || (Iterate(s, script[0]).1 == Continue && DoubleDefers(script[1..], Iterate(s, script[0]).0)))
  }

  lemma DeliverOverwrites(s: Loop, v: byte, injects: bool, arms: bool)
    ensures |Deliver(s, v, injects, arms).0.overwritten| ==
            |s.overwritten| + if DefersOver(s, Some(v), injects) then 1 else 0
  {
  }

  lemma DispatchOverwrites(s: Loop, t: Turn)
    requires t.exit.Some?
    ensures |DispatchExit(s, t.exit.value, t).0.overwritten| ==
            |s.overwritten| + if DefersOver(s, ExitIrq(t), t.injects) then 1 else 0
  {
    if ExitIrq(t).Some? {
      DeliverOverwrites(s, ExitIrq(t).value, t.injects, t.arms);
    }
  }

  /** A turn overwrites a vector exactly when it defers over a pending one. */
  lemma IterateOverwrites(s: Loop, t: Turn)
    ensures |s.overwritten| <= |Iterate(s, t).0.overwritten|
    ensures |s.overwritten| < |Iterate(s, t).0.overwritten| <==> TurnDefersOver(s, t)
  {
    hide Deliver, DispatchExit;
    if !t.stop {
      if t.polled.Some? {
        DeliverOverwrites(s, t.polled.value, t.pollInjects, t.pollArms);
      }
      var (p, polled) := PollDevices(s, t);
      if polled == Continue && t.exit.Some? {
        DispatchOverwrites(p.(entries := p.entries + [(p.pending, p.armed)]), t);
      }
    }
  }

  lemma {:induction false} RunOverwrites(script: seq<Turn>, s: Loop)
    ensures |s.overwritten| <= |Run(script, s).0.overwritten|
    ensures |s.overwritten| < |Run(script, s).0.overwritten| <==> DoubleDefers(script, s)
  {
    hide Iterate, TurnDefersOver;
    if script != [] {
      IterateOverwrites(s, script[0]);
      var (s', outcome) := Iterate(s, script[0]);
      if outcome == Continue {
        RunOverwrites(script[1..], s');
      }
    }
  }

  /**
   * Nothing is lost exactly when no turn of the script defers a vector while an earlier one still
   * waits in the slot.
   */
  lemma NothingLostIff(script: seq<Turn>)
    ensures var (s, outcome) := Run(script, Fresh);
            outcome != HalError ==> (s.raised == s.injected + Slot(s) <==> !DoubleDefers(script, Fresh))
  {
    hide Run, DoubleDefers;
    InterruptsConserved(script);
    RunOverwrites(script, Fresh);
    var (s, outcome) := Run(script, Fresh);
    if outcome != HalError && s.raised == s.injected + Slot(s) {
      assert |s.raised| == |s.injected + Slot(s)| + |s.overwritten|;
    }
  }

  /** A script in which a second deferral overwrites vector 5, which the guest never sees. */
  const DoubleDeferral: seq<Turn> := [
    Turn(false, Some(5), false, true, Some(IoPort), true, true, true),
    Turn(false, Some(6), false, true, Some(IoPort), true, true, true),
    Turn(false, None, false, true, Some(InterruptWindow), true, true, true)]

  lemma DoubleDeferralLosesAVector()
    ensures var (s, outcome) := Run(DoubleDeferral, Fresh);
            outcome == Continue && s.injected == multiset{6} && s.overwritten == multiset{5} && s.pending.None?
  {
    var s1 := Iterate(Fresh, DoubleDeferral[0]).0;
    var s2 := Iterate(s1, DoubleDeferral[1]).0;
    var s3 := Iterate(s2, DoubleDeferral[2]).0;
    assert s3.injected == multiset{6} && s3.overwritten == multiset{5};
    assert Run(DoubleDeferral[1..][1..][1..], s3) == (s3, Continue);
    assert Run(DoubleDeferral[1..][1..], s2) == (s3, Continue);
    assert Run(DoubleDeferral[1..], s1) == (s3, Continue);
  }
}
