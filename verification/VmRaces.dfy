/**
 * Runs that show which premises of the protocol theorems are needed: overlapping store writes,
 * a failed save, and completion messages left in the channel.
 */
module VmRaces {
  import opened Bytes
  import opened VmStore
  import opened VmManager
  import opened VmProtocol
  import opened VmDisk

  /** Some run, without store failures if `reliable`, leads from the initial state `s0` to `s`. */
  ghost predicate Reaches(reliable: bool, s0: State, s: State) {
    exists run, labels ::
      IsRun(run, labels) && (reliable ==> AllReliable(labels)) && run[0] == s0 && run[|labels|] == s
  }

  lemma ReachInit(s0: State)
    requires Init(s0)
    ensures Reaches(true, s0, s0)
  {
    hide Init;
    var run, labels: seq<Label> := [s0], [];
    assert IsRun(run, labels);
  }

  lemma ReachStep(reliable: bool, s0: State, s: State, l: Label)
    requires Reaches(reliable, s0, s) && Enabled(s, l) && (reliable ==> Reliable(l))
    ensures Reaches(reliable, s0, Apply(s, l))
  {
    hide Enabled, Apply, Init, Reliable;
    var run, labels :|
      IsRun(run, labels) && (reliable ==> AllReliable(labels)) && run[0] == s0 && run[|labels|] == s;
    var run', labels' := run + [Apply(s, l)], labels + [l];
    forall i | 0 <= i < |labels'|
      ensures Enabled(run'[i], labels'[i]) && run'[i + 1] == Apply(run'[i], labels'[i])
    {
      if i < |labels| {
        assert Enabled(run[i], labels[i]) && run[i + 1] == Apply(run[i], labels[i]);
      }
    }
    assert IsRun(run', labels') && run'[|labels'|] == Apply(s, l);
  }

  lemma ReachWeaken(s0: State, s: State)
    requires Reaches(true, s0, s)
    ensures Reaches(false, s0, s)
  {
    hide IsRun;
  }

  // ---- Single steps, as far as the races need them -----------------------------------------------

  lemma DoCreate(s0: State, s: State, id: Id, c: Config) returns (s': State)
    requires Reaches(true, s0, s) && SafeId(id) && id !in s.vms
    ensures Reaches(true, s0, s')
    ensures s' == s.(vms := s.vms[id := Fresh(c)], ops := s.ops[s.next := SavingConfig(id, c)], next := s.next + 1)
  {
    hide Reaches, SafeId;
    s' := Apply(s, Create(id, c));
    ReachStep(true, s0, s, Create(id, c));
  }

  lemma DoSaveConfig(s0: State, s: State, k: nat) returns (s': State)
    requires Reaches(true, s0, s) && k in s.ops && s.ops[k].SavingConfig?
    ensures Reaches(true, s0, s')
    ensures s' == s.(disk := SavedConfig(s.disk, s.ops[k].id, s.ops[k].config), ops := s.ops[k := SavingCreated(s.ops[k].id)])
  {
    hide Reaches, SavedConfig;
    s' := Apply(s, SaveConfig(k, Done));
    ReachStep(true, s0, s, SaveConfig(k, Done));
  }

  lemma DoSaveCreated(s0: State, s: State, k: nat) returns (s': State)
    requires Reaches(true, s0, s) && k in s.ops && s.ops[k].SavingCreated?
    ensures Reaches(true, s0, s')
    ensures s' == s.(disk := SavedState(s.disk, s.ops[k].id, Created), ops := s.ops - {k})
  {
    hide Reaches, SavedState;
    s' := Apply(s, SaveCreated(k, Done));
    ReachStep(true, s0, s, SaveCreated(k, Done));
  }

  lemma DoStart(s0: State, s: State, id: Id) returns (s': State)
    requires Reaches(true, s0, s) && id in s.vms && s.vms[id].state == Created
    ensures Reaches(true, s0, s')
    ensures s' == s.(vms := s.vms[id := s.vms[id].(state := Running, stopFlag := Some(false))],
                     ops := s.ops[s.next := SavingRunning(id)], next := s.next + 1)
  {
    hide Reaches;
    s' := Apply(s, Start(id));
    ReachStep(true, s0, s, Start(id));
  }

  lemma DoSaveRunning(s0: State, s: State, k: nat) returns (s': State)
    requires Reaches(true, s0, s) && k in s.ops && s.ops[k].SavingRunning?
    ensures Reaches(true, s0, s')
    ensures s' == s.(disk := SavedState(s.disk, s.ops[k].id, Running), ops := s.ops[k := Booted(s.ops[k].id)])
  {
    hide Reaches, SavedState;
    s' := Apply(s, SaveRunning(k, Done));
    ReachStep(true, s0, s, SaveRunning(k, Done));
  }

  lemma DoHalt(s0: State, s: State, k: nat) returns (s': State)
    requires Reaches(true, s0, s) && k in s.ops && s.ops[k].Booted? && s.ops[k].id in s.vms
    ensures Reaches(true, s0, s')
    ensures var id := s.ops[k].id;
            s' == s.(vms := s.vms[id := s.vms[id].(state := Stopped, exitReason := Some(ReasonText(Halt)), stopFlag := None)],
                     ops := s.ops[k := SavingExit(id, Stopped)])
  {
    hide Reaches, ReasonText;
    s' := Apply(s, Exit(k, Halt));
    ReachStep(true, s0, s, Exit(k, Halt));
  }

  lemma DoSaveExit(s0: State, s: State, k: nat) returns (s': State)
    requires Reaches(true, s0, s) && k in s.ops && s.ops[k].SavingExit?
    ensures Reaches(true, s0, s')
    ensures s' == s.(disk := SavedState(s.disk, s.ops[k].id, s.ops[k].final), ops := s.ops[k := Sending(s.ops[k].id)])
  {
    hide Reaches, SavedState;
    s' := Apply(s, SaveExit(k, Done));
    ReachStep(true, s0, s, SaveExit(k, Done));
  }

  lemma DoSend(s0: State, s: State, k: nat) returns (s': State)
    requires Reaches(true, s0, s) && k in s.ops && s.ops[k].Sending?
    ensures Reaches(true, s0, s')
    ensures s' == s.(queue := s.queue + [Msg(s.ops[k].id, k)], ops := s.ops - {k})
  {
    hide Reaches;
    s' := Apply(s, Send(k));
    ReachStep(true, s0, s, Send(k));
  }

  lemma DoDelete(s0: State, s: State, id: Id) returns (s': State)
    requires Reaches(true, s0, s) && id in s.vms && s.vms[id].state != Running
    ensures Reaches(true, s0, s')
    ensures s' == s.(vms := s.vms - {id}, ops := s.ops[s.next := Erasing(id)], next := s.next + 1)
  {
    hide Reaches;
    s' := Apply(s, Delete(id));
    ReachStep(true, s0, s, Delete(id));
  }

  lemma DoErase(s0: State, s: State, k: nat) returns (s': State)
    requires Reaches(true, s0, s) && k in s.ops && s.ops[k].Erasing?
    ensures Reaches(true, s0, s')
    ensures s' == s.(disk := s.disk - {s.ops[k].id}, ops := s.ops - {k})
  {
    hide Reaches;
    s' := Apply(s, Erase(k, Done));
    ReachStep(true, s0, s, Erase(k, Done));
  }

  /** A VM found on disk in a settled state. */
  lemma Recover(disk: Disk) returns (s: State)
    requires Settled(disk)
    ensures Init(s) && s.disk == disk && Reaches(true, s, s)
    ensures s.vms.Keys == disk.Keys
    ensures forall id :: id in disk ==> s.vms[id] == Entry(disk[id].config.value, disk[id].state.value, None, None)
  {
    hide Reaches;
    s := State(RecoveredMap(disk), disk, map[], 0, [], map[]);
    assert forall id :: id in disk ==> RecordAt(disk, id) == disk[id];
    ReachInit(s);
  }

  // ---- The races -------------------------------------------------------------------------------

  /** A start that overtakes the saves of the creation leaves a running VM recorded as created. */
  lemma CreateStartRace(id: Id, c: Config) returns (s0: State, s: State)
    requires SafeId(id)
    ensures Reaches(true, s0, s) && s0.disk == map[] && Quiescent(s)
    ensures id in s.vms && s.vms[id].state == Running
    ensures id in s.disk && s.disk[id].state == Some(Created)
  {
    hide Reaches, SafeId;
    s0 := Recover(map[]);
    s := DoCreate(s0, s0, id, c);
    s := DoStart(s0, s, id);
    s := DoSaveRunning(s0, s, 1);
    s := DoSaveConfig(s0, s, 0);
    s := DoSaveCreated(s0, s, 0);
  }

  /** A deletion whose erase comes late takes a VM created again under the same id off the disk. */
  lemma LateEraseLosesVm(id: Id, c: Config, d: Config) returns (s0: State, s: State)
    requires SafeId(id)
    ensures Reaches(true, s0, s) && Settled(s0.disk) && Quiescent(s)
    ensures id in s.vms && s.vms[id].config == d && id !in s.disk
  {
    hide Reaches, SafeId;
    s0 := Recover(map[id := Record(Some(c), Some(Stopped))]);
    s := DoDelete(s0, s0, id);
    s := DoCreate(s0, s, id, d);
    s := DoSaveConfig(s0, s, 1);
    s := DoSaveCreated(s0, s, 1);
    s := DoErase(s0, s, 0);
  }

  /** A final save that comes after the deletion leaves a directory nobody owns. */
  lemma ExitSaveAfterDelete(id: Id, c: Config) returns (s0: State, s: State)
    ensures Reaches(true, s0, s) && Settled(s0.disk) && Quiescent(s)
    ensures id !in s.vms && id in s.disk
  {
    hide Reaches;
    s0 := Recover(map[id := Record(Some(c), Some(Created))]);
    s := DoStart(s0, s0, id);
    s := DoSaveRunning(s0, s, 0);
    s := DoHalt(s0, s, 0);
    s := DoDelete(s0, s, id);
    s := DoErase(s0, s, 1);
    s := DoSaveExit(s0, s, 0);
  }

  /** A failed save in `start_vm` leaves a VM that counts as running although nothing runs it. */
  lemma FailedStartAbandons(id: Id, c: Config) returns (s0: State, s: State)
    ensures Reaches(false, s0, s) && Settled(s0.disk) && Abandoned(s, id)
  {
    hide Reaches;
    s0 := Recover(map[id := Record(Some(c), Some(Created))]);
    var mid := DoStart(s0, s0, id);
    ReachWeaken(s0, mid);
    var left := Some(mid.disk[id]);
    ReachStep(false, s0, mid, SaveRunning(0, Broken(left)));
    FailedSaveAbandons(mid, 0, left);
    s := Apply(mid, SaveRunning(0, Broken(left)));
  }

  /** A VM that stopped by itself pays for one that is still running: the wait ends too early. */
  lemma StaleCompletionEndsWait(a: Id, b: Id, c: Config) returns (s0: State, s: State)
    requires a != b
    ensures Reaches(true, s0, s) && 0 in s.waiters
    ensures |s.waiters[0].got| == s.waiters[0].count == 1
    ensures 1 in s.waiters[0].counted && 1 in s.ops && s.ops[1] == Booted(b)
    ensures b in s.vms && s.vms[b].state == Running
  {
    hide Reaches, Enabled, Apply;
    var mid;
    s0, mid := OneStoppedOneRunning(a, b, c);
    WaitForOne(mid, b);
    var waiting := Apply(mid, BeginWait(0));
    ReachStep(true, s0, mid, BeginWait(0));
    s := Apply(waiting, Receive(0));
    ReachStep(true, s0, waiting, Receive(0));
  }

  lemma OneStoppedOneRunning(a: Id, b: Id, c: Config) returns (s0: State, s: State)
    requires a != b
    ensures Reaches(true, s0, s)
    ensures s.ops == map[1 := Booted(b)] && s.queue == [Msg(a, 0)] && s.waiters == map[]
    ensures b in s.vms && forall id :: id in s.vms ==> (s.vms[id].state == Running <==> id == b)
  {
    hide Reaches, SavedState;
    var rec := Record(Some(c), Some(Created));
    s0 := Recover(map[a := rec, b := rec]);
    s := DoStart(s0, s0, a);
    s := DoSaveRunning(s0, s, 0);
    s := DoHalt(s0, s, 0);
    s := DoSaveExit(s0, s, 0);
    s := DoSend(s0, s, 0);
    s := DoStart(s0, s, b);
    s := DoSaveRunning(s0, s, 1);
  }

  /** One VM is counted, and the message of another is received for it. */
  lemma WaitForOne(s: State, b: Id)
    requires s.ops == map[1 := Booted(b)] && |s.queue| == 1 && s.waiters == map[]
    requires b in s.vms && forall id :: id in s.vms ==> (s.vms[id].state == Running <==> id == b)
    ensures Enabled(s, BeginWait(0))
    ensures var s1 := Apply(s, BeginWait(0));
            && Enabled(s1, Receive(0))
            && var s2 := Apply(s1, Receive(0));
               && 0 in s2.waiters && |s2.waiters[0].got| == s2.waiters[0].count == 1
               && 1 in s2.waiters[0].counted && s2.ops == s.ops && b in s2.vms && s2.vms[b].state == Running
  {
    assert RunningIds(s.vms) == {b};
    assert 1 in Owners(s.ops);
  }

  // ---- A restart that succeeds -------------------------------------------------------------------

  lemma Extend(run: seq<State>, labels: seq<Label>, l: Label) returns (run': seq<State>, labels': seq<Label>)
    requires IsRun(run, labels) && AllReliable(labels) && Enabled(run[|labels|], l) && Reliable(l)
    ensures IsRun(run', labels') && AllReliable(labels')
    ensures run' == run + [Apply(run[|labels|], l)] && labels' == labels + [l]
  {
    hide Enabled, Apply, Init, Reliable;
    run', labels' := run + [Apply(run[|labels|], l)], labels + [l];
    forall i | 0 <= i < |labels'|
      ensures Enabled(run'[i], labels'[i]) && run'[i + 1] == Apply(run'[i], labels'[i])
    {
      if i < |labels| {
        assert Enabled(run[i], labels[i]) && run[i + 1] == Apply(run[i], labels[i]);
      }
    }
  }

  /** The stop request, the exit it leads to, and a deletion. */
  lemma StopHaltDelete(s: State, k: nat, id: Id)
    requires k in s.ops && s.ops[k] == Booted(id) && id in s.vms && s.vms[id].state == Running
    ensures Enabled(s, Stop(id)) && StopRequested(s.vms, id).Ok?
    ensures var s1 := Apply(s, Stop(id));
            && Enabled(s1, Exit(k, Halt))
            && var s2 := Apply(s1, Exit(k, Halt));
               Enabled(s2, Delete(id)) && Ended(s2.vms, id) && id !in Apply(s2, Delete(id)).vms
  {
    hide ReasonText;
  }

  lemma CreateAgain(s: State, id: Id, c: Config)
    requires SafeId(id) && id !in s.vms
    ensures Enabled(s, Create(id, c))
    ensures Begun(Apply(s, Create(id, c)).vms, id).Ok? && Enabled(Apply(s, Create(id, c)), Start(id))
  {
    hide SafeId;
  }

  /**
   * Restarting does succeed in a run in which, between its poll and its start, the VM is deleted
   * and created again; the VM it starts is the new one.
   */
  lemma RestartOfRecreatedVm(id: Id, c: Config, d: Config)
    returns (run: seq<State>, labels: seq<Label>, at: seq<nat>)
    requires SafeId(id)
    ensures IsRun(run, labels) && AllReliable(labels) && |at| == RESTART_POLLS + 2
    ensures forall k :: 0 <= k < |at| ==> at[k] < |labels|
    ensures forall k, k' :: 0 <= k <= k' < |at| ==> at[k] <= at[k']
    ensures labels[at[0]] == Stop(id) && labels[at[2]] == Start(id)
    ensures RestartsAt(SeenAt(run, at), id, 1)
  {
    hide Reaches, IsRun, AllReliable, Apply, Enabled, SafeId, StopRequested, Begun, Ended;
    var s0, s := RunningVm(id, c);
    StopHaltDelete(s, 0, id);
    CreateAgain(Apply(Apply(Apply(s, Stop(id)), Exit(0, Halt)), Delete(id)), id, d);
    run, labels := RunTo(s0, s);
    var n := |labels|;
    run, labels := Extend(run, labels, Stop(id));
    run, labels := Extend(run, labels, Exit(0, Halt));
    run, labels := Extend(run, labels, Delete(id));
    run, labels := Extend(run, labels, Create(id, d));
    run, labels := Extend(run, labels, Start(id));
    at := seq(RESTART_POLLS + 2, k => if k == 0 then n else if k == 1 then n + 2 else n + 4);
  }

  lemma RunningVm(id: Id, c: Config) returns (s0: State, s: State)
    ensures Reaches(true, s0, s)
    ensures 0 in s.ops && s.ops[0] == Booted(id) && id in s.vms && s.vms[id].state == Running
  {
    hide Reaches;
    s0 := Recover(map[id := Record(Some(c), Some(Created))]);
    s := DoStart(s0, s0, id);
    s := DoSaveRunning(s0, s, 0);
  }

  lemma RunTo(s0: State, s: State) returns (run: seq<State>, labels: seq<Label>)
    requires Reaches(true, s0, s)
    ensures IsRun(run, labels) && AllReliable(labels) && |run| == |labels| + 1 && run[|labels|] == s
  {
    run, labels :| IsRun(run, labels) && AllReliable(labels) && run[0] == s0 && run[|labels|] == s;
  }
}
