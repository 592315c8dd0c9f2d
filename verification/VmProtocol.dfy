/**
 * The VM lifecycle as a protocol.  A step is one lock section of the manager, one store write
 * made outside the lock, the exit update of a VM task, its completion message, or one receive of
 * `stop_all_and_wait`; operations in flight sit in `ops` under a number of their own.
 *
 * A store write may fail and then leave anything at its own id.
 */
module VmProtocol {
  import opened Bytes
  import opened VmStore
  import opened VmManager

  /** An operation between two of its steps. */
  datatype Op =
    | SavingConfig(id: Id, config: Config)  // create_vm, entry inserted
    | SavingCreated(id: Id)                 // create_vm, config saved
    | RollingBack(id: Id)                   // create_vm, a save failed
    | SavingRunning(id: Id)                 // start_vm, entry running
    | Booted(id: Id)                        // VM task inside boot_and_run
    | SavingExit(id: Id, final: VmState)    // VM task past its exit update
    | Sending(id: Id)                       // VM task about to report completion
    | Erasing(id: Id)                       // delete_vm, entry removed

  /** A completion message; `sender` tells which task sent it. */
  datatype Msg = Msg(id: Id, sender: nat)

  /**
   * A call of `stop_all_and_wait`: how many VMs it counted, and what it received.  `counted` are
   * the starts and tasks behind the running VMs at the count, `since` the next operation number.
   */
  datatype Waiter = Waiter(count: nat, got: seq<Msg>, counted: set<nat>, since: nat)

  datatype State = State(
    vms: Vms, disk: Disk, ops: map<nat, Op>, next: nat, queue: seq<Msg>, waiters: map<nat, Waiter>)

  /** How a store call ends; a failed one leaves whatever it leaves at its id. */
  datatype Outcome = Done | Broken(left: Option<Record>)

  datatype Label =
    | Create(id: Id, config: Config)
    | SaveConfig(k: nat, out: Outcome)
    | SaveCreated(k: nat, out: Outcome)
    | Rollback(k: nat)
    | Start(id: Id)
    | SaveRunning(k: nat, out: Outcome)
    | Exit(k: nat, result: RunResult)
    | SaveExit(k: nat, out: Outcome)
    | Send(k: nat)
    | Stop(id: Id)
    | StopAll
    | Delete(id: Id)
    | Erase(k: nat, out: Outcome)
    | BeginWait(w: nat)
    | Receive(w: nat)
    | EndWait(w: nat)

  /** The start in progress or VM task inside `boot_and_run` that an operation is, by VM. */
  function Owned(op: Op): Option<Id> {
    if op.SavingRunning? || op.Booted? then Some(op.id) else None
  }

  function Owners(ops: map<nat, Op>): set<nat> { set k | k in ops && Owned(ops[k]).Some? }

  predicate Enabled(s: State, l: Label) {
    match l
    case Create(id, config) => SafeId(id) && Inserted(s.vms, id, config).Ok?
    case SaveConfig(k, _) => k in s.ops && s.ops[k].SavingConfig?
    case SaveCreated(k, _) => k in s.ops && s.ops[k].SavingCreated?
    case Rollback(k) => k in s.ops && s.ops[k].RollingBack?
    case Start(id) => Begun(s.vms, id).Ok?
    case SaveRunning(k, _) => k in s.ops && s.ops[k].SavingRunning?
    case Exit(k, _) => k in s.ops && s.ops[k].Booted?
    case SaveExit(k, _) => k in s.ops && s.ops[k].SavingExit?
    case Send(k) => k in s.ops && s.ops[k].Sending?
    case Stop(id) => StopRequested(s.vms, id).Ok?
    case StopAll => true
    case Delete(id) => Removed(s.vms, id).Ok?
    case Erase(k, _) => k in s.ops && s.ops[k].Erasing?
    case BeginWait(w) => w !in s.waiters
    case Receive(w) => w in s.waiters && |s.waiters[w].got| < s.waiters[w].count && s.queue != []
    case EndWait(w) => w in s.waiters
  }

  /** A store call at `id`: `good` if it succeeds. */
  function Stored(disk: Disk, id: Id, good: Disk, out: Outcome): Disk {
    match out
    case Done => good
    case Broken(None) => disk - {id}
    case Broken(Some(r)) => disk[id := r]
  }

  function Begin(s: State, op: Op): State { s.(ops := s.ops[s.next := op], next := s.next + 1) }

  function Apply(s: State, l: Label): State
    requires Enabled(s, l)
  {
    match l
    case Create(id, config) =>
      Begin(s.(vms := Inserted(s.vms, id, config).value), SavingConfig(id, config))
    case SaveConfig(k, out) =>
      var op := s.ops[k];
      s.(disk := Stored(s.disk, op.id, SavedConfig(s.disk, op.id, op.config), out),
         ops := s.ops[k := if out.Done? then SavingCreated(op.id) else RollingBack(op.id)])
    case SaveCreated(k, out) =>
      var op := s.ops[k];
      s.(disk := Stored(s.disk, op.id, SavedState(s.disk, op.id, Created), out),
         ops := if out.Done? then s.ops - {k} else s.ops[k := RollingBack(op.id)])
    case Rollback(k) =>
      s.(vms := s.vms - {s.ops[k].id}, ops := s.ops - {k})
    case Start(id) =>
      Begin(s.(vms := Begun(s.vms, id).value), SavingRunning(id))
    case SaveRunning(k, out) =>
      var op := s.ops[k];
      s.(disk := Stored(s.disk, op.id, SavedState(s.disk, op.id, Running), out),
         ops := if out.Done? then s.ops[k := Booted(op.id)] else s.ops - {k})
    case Exit(k, result) =>
      var id := s.ops[k].id;
      s.(vms := Exited(s.vms, id, result),
         ops := s.ops[k := if id in s.vms then SavingExit(id, FinalState(result)) else Sending(id)])
    case SaveExit(k, out) =>
      var op := s.ops[k];
      s.(disk := Stored(s.disk, op.id, SavedState(s.disk, op.id, op.final), out),
         ops := s.ops[k := Sending(op.id)])
    case Send(k) =>
      s.(queue := s.queue + [Msg(s.ops[k].id, k)], ops := s.ops - {k})
    case Stop(id) =>
      s.(vms := StopRequested(s.vms, id).value)
    case StopAll =>
      s.(vms := AllFlagged(s.vms))
    case Delete(id) =>
      Begin(s.(vms := Removed(s.vms, id).value), Erasing(id))
    case Erase(k, out) =>
      s.(disk := Stored(s.disk, s.ops[k].id, Erased(s.disk, s.ops[k].id), out), ops := s.ops - {k})
    case BeginWait(w) =>
      s.(vms := AllFlagged(s.vms),
         waiters := s.waiters[w := Waiter(|RunningIds(s.vms)|, [], Owners(s.ops), s.next)])
    case Receive(w) =>
      var wt := s.waiters[w];
      s.(queue := s.queue[1..], waiters := s.waiters[w := wt.(got := wt.got + [s.queue[0]])])
    case EndWait(w) =>
      s.(waiters := s.waiters - {w})
  }

  /** A manager just built on a disk. */
  predicate Init(s: State) {
    && s.vms == RecoveredMap(s.disk)
    && s.ops == map[] && s.next == 0 && s.queue == [] && s.waiters == map[]
  }

  /** `run` starts at an initial state and follows `labels`. */
  predicate IsRun(run: seq<State>, labels: seq<Label>) {
    && |run| == |labels| + 1 && Init(run[0])
    && forall i :: 0 <= i < |labels| ==> Enabled(run[i], labels[i]) && run[i + 1] == Apply(run[i], labels[i])
  }

  predicate Reliable(l: Label) {
    match l
    case SaveConfig(_, out) => out.Done?
    case SaveCreated(_, out) => out.Done?
    case SaveRunning(_, out) => out.Done?
    case SaveExit(_, out) => out.Done?
    case Erase(_, out) => out.Done?
    case _ => true
  }

  predicate AllReliable(labels: seq<Label>) {
    forall i :: 0 <= i < |labels| ==> Reliable(labels[i])
  }

  // ---- Lifecycle safety, store failures included -------------------------------------------

  function Rank(s: VmState): nat {
    match s case Created => 0 case Running => 1 case Stopped => 2 case Failed => 2
  }

  predicate FlagsFit(s: State) { FlagIffRunning(s.vms) }

  lemma StepKeepsFlags(s: State, l: Label)
    requires FlagsFit(s) && Enabled(s, l)
    ensures FlagsFit(Apply(s, l))
  {
    hide Owners, Stored, ReasonText, SafeId, RunningIds;
  }

  /** In every reachable state a VM is running exactly when it has a stop flag. */
  lemma {:induction false} RunningIffFlag(run: seq<State>, labels: seq<Label>, n: nat)
    requires IsRun(run, labels) && n < |run|
    ensures FlagsFit(run[n])
  {
    hide Apply, Enabled, FlagsFit;
    if n == 0 {
      InitFlags(run[0]);
    } else {
      RunningIffFlag(run, labels, n - 1);
      assert run[n - 1 + 1] == Apply(run[n - 1], labels[n - 1]);
      StepKeepsFlags(run[n - 1], labels[n - 1]);
    }
  }

  lemma InitFlags(s: State)
    requires Init(s)
    ensures FlagsFit(s)
  {
  }

  /** The later entry of a VM: same configuration, no lower rank, and a raised flag still up while it runs. */
  predicate Later(vms: Vms, vms': Vms, id: Id) {
    id in vms && id in vms' ==>
      && Rank(vms[id].state) <= Rank(vms'[id].state) && vms'[id].config == vms[id].config
      && (vms[id].state == Running && vms[id].stopFlag == Some(true) && vms'[id].state == Running ==>
            vms'[id].stopFlag == Some(true))
  }

  /** What each lock section does to the entry of `id`, when it works on `x`. */
  lemma SectionsKeepRank(vms: Vms, x: Id, config: Config, r: RunResult, id: Id)
    requires FlagIffRunning(vms)
    ensures Inserted(vms, x, config).Ok? ==> Later(vms, Inserted(vms, x, config).value, id)
    ensures Begun(vms, x).Ok? ==> Later(vms, Begun(vms, x).value, id)
    ensures StopRequested(vms, x).Ok? ==> Later(vms, StopRequested(vms, x).value, id)
    ensures Later(vms, Exited(vms, x, r), id)
    ensures Removed(vms, x).Ok? ==> Later(vms, Removed(vms, x).value, id)
    ensures Later(vms, AllFlagged(vms), id) && Later(vms, vms - {x}, id) && Later(vms, vms, id)
  {
    hide ReasonText;
  }

  lemma StepKeepsRank(s: State, l: Label, id: Id)
    requires FlagsFit(s) && Enabled(s, l)
    ensures Later(s.vms, Apply(s, l).vms, id)
  {
    hide Owners, Stored, SafeId, RunningIds, Inserted, Begun, StopRequested, Exited, Removed, AllFlagged, Later;
    var x := match l
      case Create(x, _) => x
      case Start(x) => x
      case Stop(x) => x
      case Delete(x) => x
      case Exit(k, _) => s.ops[k].id
      case Rollback(k) => s.ops[k].id
      case _ => id;
    SectionsKeepRank(s.vms, x, if l.Create? then l.config else "", if l.Exit? then l.result else Halt, id);
  }

  /** As long as an id stays in the map, its rank never falls and its configuration never changes. */
  lemma {:induction false} RankNeverFalls(run: seq<State>, labels: seq<Label>, i: nat, j: nat, id: Id)
    requires IsRun(run, labels) && i <= j < |run|
    requires forall m :: i <= m <= j ==> id in run[m].vms
    ensures Rank(run[i].vms[id].state) <= Rank(run[j].vms[id].state)
    ensures run[i].vms[id].config == run[j].vms[id].config
  {
    hide Apply, Enabled, FlagsFit, Init;
    if i < j {
      RankNeverFalls(run, labels, i, j - 1, id);
      RunningIffFlag(run, labels, j - 1);
      assert run[j - 1 + 1] == Apply(run[j - 1], labels[j - 1]);
      StepKeepsRank(run[j - 1], labels[j - 1], id);
    }
  }

  /** A stop request is never lost: the flag stays up as long as the VM runs. */
  lemma {:induction false} StopRequestSticks(run: seq<State>, labels: seq<Label>, i: nat, j: nat, id: Id)
    requires IsRun(run, labels) && i <= j < |run|
    requires forall m :: i <= m <= j ==> id in run[m].vms
    requires run[i].vms[id].state == Running && run[i].vms[id].stopFlag == Some(true) && run[j].vms[id].state == Running
    ensures run[j].vms[id].stopFlag == Some(true)
  {
    hide Apply, Enabled, FlagsFit, Init;
    if i < j {
      RankNeverFalls(run, labels, i, j - 1, id);
      RankNeverFalls(run, labels, j - 1, j, id);
      StopRequestSticks(run, labels, i, j - 1, id);
      RunningIffFlag(run, labels, j - 1);
      assert run[j - 1 + 1] == Apply(run[j - 1], labels[j - 1]);
      StepKeepsRank(run[j - 1], labels[j - 1], id);
    }
  }

  /** Stopping one VM, or all of them, raises the flag of a running VM. */
  lemma StopRaisesFlag(s: State, l: Label, id: Id)
    requires FlagsFit(s) && Enabled(s, l) && (l == Stop(id) || l.StopAll? || l.BeginWait?)
    requires id in s.vms && s.vms[id].state == Running
    ensures id in Apply(s, l).vms && Apply(s, l).vms[id] == s.vms[id].(stopFlag := Some(true))
  {
    hide Owners, RunningIds;
  }

  /** So from such a step on, the VM sees the request in every state in which it still runs. */
  lemma StopRequestArrives(run: seq<State>, labels: seq<Label>, i: nat, j: nat, id: Id)
    requires IsRun(run, labels) && i < j < |run| && (labels[i] == Stop(id) || labels[i].StopAll? || labels[i].BeginWait?)
    requires forall m :: i <= m <= j ==> id in run[m].vms
    requires run[i].vms[id].state == Running && run[j].vms[id].state == Running
    ensures run[j].vms[id].stopFlag == Some(true)
  {
    hide Apply, Enabled, FlagsFit, Init;
    RunningIffFlag(run, labels, i);
    assert run[i + 1] == Apply(run[i], labels[i]);
    StopRaisesFlag(run[i], labels[i], id);
    StopRequestSticks(run, labels, i + 1, j, id);
  }

  /** An id seen past creation and later found freshly created was out of the map in between. */
  lemma CreatedAgain(run: seq<State>, labels: seq<Label>, i: nat, j: nat, id: Id)
    requires IsRun(run, labels) && i <= j < |run|
    requires id in run[i].vms && run[i].vms[id].state != Created
    requires id in run[j].vms && run[j].vms[id].state == Created
    ensures exists m :: i < m < j && id !in run[m].vms
  {
    hide IsRun;
    if m :| i <= m <= j && id !in run[m].vms {
      assert i < m < j;
    } else {
      RankNeverFalls(run, labels, i, j, id);
    }
  }

  /** A VM seen running, stopped or failed can start again only if its id left the map in between. */
  lemma StartNeedsRecreation(run: seq<State>, labels: seq<Label>, i: nat, j: nat, id: Id)
    requires IsRun(run, labels) && i <= j < |labels|
    requires id in run[i].vms && run[i].vms[id].state != Created
    requires labels[j] == Start(id)
    ensures exists m :: i < m < j && id !in run[m].vms
  {
    hide Apply, Init;
    assert Begun(run[j].vms, id).Ok?;
    CreatedAgain(run, labels, i, j, id);
  }

  /** The maps found at the moments `at` of a run. */
  function SeenAt(run: seq<State>, at: seq<nat>): (seen: seq<Vms>)
    requires forall k :: 0 <= k < |at| ==> at[k] < |run|
    ensures |seen| == |at| && forall k :: 0 <= k < |at| ==> seen[k] == run[at[k]].vms
  {
    seq(|at|, k requires 0 <= k < |at| => run[at[k]].vms)
  }

  /**
   * `restart_vm` in any run, its lock sections falling at the moments `at`.  It reaches running
   * exactly when some poll is the first to find the VM ended and the start then finds it created,
   * which takes a moment between the two at which the id was out of the map; so on an entry that
   * stays in the map it always fails.
   */
  method RestartInRun(run: seq<State>, labels: seq<Label>, at: seq<nat>, id: Id)
    returns (r: Result<Vms, DaemonError>, polls: nat)
    requires IsRun(run, labels) && |at| == RESTART_POLLS + 2
    requires forall k :: 0 <= k < |at| ==> at[k] < |run|
    requires forall k, k' :: 0 <= k <= k' < |at| ==> at[k] <= at[k']
    ensures polls <= RESTART_POLLS
    ensures r.Ok? <==> exists p :: RestartsAt(SeenAt(run, at), id, p)
    ensures r.Ok? ==> exists m :: at[polls] < m < at[polls + 1] && id !in run[m].vms
    ensures (forall m :: at[0] <= m <= at[RESTART_POLLS + 1] ==> id in run[m].vms) ==> r.Err?
  {
    hide IsRun;
    r, polls := RestartVm(id, SeenAt(run, at));
    if r.Ok? {
      CreatedAgain(run, labels, at[polls], at[polls + 1], id);
      ghost var m :| at[polls] < m < at[polls + 1] && id !in run[m].vms;
      assert at[0] <= m <= at[RESTART_POLLS + 1];
    }
  }

  // ---- Operations that fail -------------------------------------------------------------------

  /** A creation whose first or second save fails takes its entry out of the map, and no other. */
  lemma FailedCreateRollsBack(s: State, k: nat, left: Option<Record>)
    requires k in s.ops && (s.ops[k].SavingConfig? || s.ops[k].SavingCreated?)
    ensures var l := if s.ops[k].SavingConfig? then SaveConfig(k, Broken(left)) else SaveCreated(k, Broken(left));
            && Enabled(s, l) && Apply(s, l).vms == s.vms
            && Enabled(Apply(s, l), Rollback(k))
            && var s' := Apply(Apply(s, l), Rollback(k));
               s'.vms == s.vms - {s.ops[k].id} && s'.ops == s.ops - {k} && s'.disk == Apply(s, l).disk
  {
  }

  /** A VM task whose entry is gone writes nothing and goes on to report. */
  lemma ExitOfRemovedVm(s: State, k: nat, r: RunResult)
    requires k in s.ops && s.ops[k].Booted? && s.ops[k].id !in s.vms
    ensures var s' := Apply(s, Exit(k, r));
            s'.vms == s.vms && s'.disk == s.disk && s'.ops == s.ops[k := Sending(s.ops[k].id)]
  {
  }

  predicate Task(op: Op) { op.SavingRunning? || op.Booted? || op.SavingExit? || op.Sending? }

  /** A started task ends only by reporting, also if its final save failed. */
  lemma TaskLeavesBySend(s: State, l: Label, k: nat)
    requires Enabled(s, l) && k in s.ops && k < s.next && Task(s.ops[k]) && !s.ops[k].SavingRunning?
    ensures k in Apply(s, l).ops ==>
              var op := Apply(s, l).ops[k]; Task(op) && !op.SavingRunning? && op.id == s.ops[k].id
    ensures k !in Apply(s, l).ops ==> l == Send(k) && Apply(s, l).queue == s.queue + [Msg(s.ops[k].id, k)]
  {
    hide Owners, RunningIds, Stored, ReasonText, SafeId, Inserted, Begun, Removed, Exited, AllFlagged, StopRequested;
  }

  /** In every run, whatever fails, a VM task that is no longer there has sent its completion. */
  lemma {:induction false} TaskReports(run: seq<State>, labels: seq<Label>, i: nat, n: nat, k: nat)
    requires IsRun(run, labels) && i <= n < |run|
    requires k in run[i].ops && Task(run[i].ops[k]) && !run[i].ops[k].SavingRunning?
    ensures || (exists m :: i <= m < n && labels[m] == Send(k)
                            && run[m + 1].queue == run[m].queue + [Msg(run[i].ops[k].id, k)])
            || (k in run[n].ops && Task(run[n].ops[k]) && !run[n].ops[k].SavingRunning? && run[n].ops[k].id == run[i].ops[k].id)
  {
    hide Apply, Enabled, Init, Task;
    if i < n {
      TaskReports(run, labels, i, n - 1, k);
      if m :| i <= m < n - 1 && labels[m] == Send(k) && run[m + 1].queue == run[m].queue + [Msg(run[i].ops[k].id, k)] {
      } else {
        NumbersStayBelow(run, labels, n - 1);
        assert run[n - 1 + 1] == Apply(run[n - 1], labels[n - 1]);
        TaskLeavesBySend(run[n - 1], labels[n - 1], k);
      }
    }
  }

  // ---- A failed save in `start_vm` ---------------------------------------------------------

  /** Running, with no start in progress, no task and no creation that could roll back. */
  ghost predicate Abandoned(s: State, id: Id) {
    && id in s.vms && s.vms[id].state == Running
    && (forall k :: k in s.ops && s.ops[k].id == id ==> s.ops[k].SavingExit? || s.ops[k].Sending? || s.ops[k].Erasing?)
  }

  lemma StepKeepsAbandoned(s: State, l: Label, id: Id)
    requires Abandoned(s, id) && Enabled(s, l)
    ensures Abandoned(Apply(s, l), id)
  {
    hide Owners, Stored, ReasonText, SafeId, RunningIds;
  }

  /** An abandoned VM stays running for ever: nothing stops, deletes or restarts it. */
  lemma {:induction false} AbandonedForEver(run: seq<State>, labels: seq<Label>, i: nat, j: nat, id: Id)
    requires IsRun(run, labels) && i <= j < |run| && Abandoned(run[i], id)
    ensures Abandoned(run[j], id)
  {
    hide Apply, Enabled, Abandoned, Init;
    if i < j {
      AbandonedForEver(run, labels, i, j - 1, id);
      assert run[j - 1 + 1] == Apply(run[j - 1], labels[j - 1]);
      StepKeepsAbandoned(run[j - 1], labels[j - 1], id);
    }
  }

  /** A start whose save fails abandons its VM, if it was the only start or task of it and no creation is in flight. */
  lemma FailedSaveAbandons(s: State, k: nat, left: Option<Record>)
    requires k in s.ops && s.ops[k].SavingRunning?
    requires s.ops[k].id in s.vms && s.vms[s.ops[k].id].state == Running
    requires forall k' :: k' in s.ops && k' != k && s.ops[k'].id == s.ops[k].id ==>
               s.ops[k'].SavingExit? || s.ops[k'].Sending? || s.ops[k'].Erasing?
    ensures Abandoned(Apply(s, SaveRunning(k, Broken(left))), s.ops[k].id)
  {
  }

  /** Running, although no start in progress and no task is behind it. */
  ghost predicate Ownerless(s: State, id: Id) {
    id in RunningIds(s.vms) && forall k :: k in s.ops ==> Owned(s.ops[k]) != Some(id)
  }

  /** The save of the only start behind a running VM fails. */
  ghost predicate FailsOnlyStart(s: State, l: Label, id: Id) {
    && l.SaveRunning? && l.out.Broken? && l.k in s.ops && s.ops[l.k] == SavingRunning(id)
    && id in RunningIds(s.vms)
    && forall k :: k in s.ops && k != l.k ==> Owned(s.ops[k]) != Some(id)
  }

  /** Exactly one kind of step takes a running VM's last owner away: the failed save of its start. */
  lemma OwnerlessBeginsIff(s: State, l: Label, id: Id)
    requires Enabled(s, l) && forall k :: k in s.ops ==> k < s.next
    ensures !Ownerless(s, id) && Ownerless(Apply(s, l), id) <==> FailsOnlyStart(s, l, id)
  {
    hide Apply, Enabled, RunningIds, FailsOnlyStart;
    if FailsOnlyStart(s, l, id) {
      OwnerLost(s, l, id);
    } else if id !in RunningIds(s.vms) {
      NewlyRunningIsOwned(s, l, id);
    } else if k :| k in s.ops && Owned(s.ops[k]) == Some(id) {
      OwnerStays(s, l, k, id);
    }
  }

  lemma OwnerLost(s: State, l: Label, id: Id)
    requires Enabled(s, l) && FailsOnlyStart(s, l, id)
    ensures !Ownerless(s, id) && Ownerless(Apply(s, l), id)
  {
    hide RunningIds;
    assert Owned(s.ops[l.k]) == Some(id);
  }

  lemma OwnerStays(s: State, l: Label, k: nat, id: Id)
    requires Enabled(s, l) && (forall k :: k in s.ops ==> k < s.next) && !FailsOnlyStart(s, l, id)
    requires id in RunningIds(s.vms) && k in s.ops && Owned(s.ops[k]) == Some(id)
    ensures !Ownerless(Apply(s, l), id)
  {
    hide Owners, Stored, ReasonText, SafeId;
    var s' := Apply(s, l);
    if l.SaveRunning? && l.out.Broken? && l.k == k {
      var k' :| k' in s.ops && k' != k && Owned(s.ops[k']) == Some(id);
      assert Owned(s'.ops[k']) == Some(id);
    } else if !(l.Exit? && l.k == k) {
      assert Owned(s'.ops[k]) == Some(id);
    }
  }

  lemma NewlyRunningIsOwned(s: State, l: Label, id: Id)
    requires Enabled(s, l) && id !in RunningIds(s.vms)
    ensures !Ownerless(Apply(s, l), id)
  {
    hide Owners, Stored, ReasonText, SafeId;
    if l.Start? && l.id == id {
      assert Owned(Apply(s, l).ops[s.next]) == Some(id);
    }
  }

  lemma {:induction false} NumbersStayBelow(run: seq<State>, labels: seq<Label>, n: nat)
    requires IsRun(run, labels) && n < |run|
    ensures forall k :: k in run[n].ops ==> k < run[n].next
  {
    hide RunningIds, Inserted, Begun, StopRequested, Exited, Removed, AllFlagged, Stored, SafeId, Owners;
    if n > 0 {
      NumbersStayBelow(run, labels, n - 1);
      assert run[n - 1 + 1] == Apply(run[n - 1], labels[n - 1]);
    }
  }

  /**
   * Whatever other store calls fail: a VM is running with nothing behind it only if the save of
   * its only start failed before.
   */
  lemma {:induction false} OwnerlessOnlyByFailedStart(run: seq<State>, labels: seq<Label>, n: nat, id: Id)
    requires IsRun(run, labels) && n < |run| && Ownerless(run[n], id)
    ensures exists i :: 0 <= i < n && FailsOnlyStart(run[i], labels[i], id)
  {
    hide Apply, Enabled, Ownerless, FailsOnlyStart;
    if n == 0 {
      NothingRunsAtFirst(run[0], id);
    } else {
      NumbersStayBelow(run, labels, n - 1);
      assert run[n - 1 + 1] == Apply(run[n - 1], labels[n - 1]);
      OwnerlessBeginsIff(run[n - 1], labels[n - 1], id);
      if Ownerless(run[n - 1], id) {
        OwnerlessOnlyByFailedStart(run, labels, n - 1, id);
      }
    }
  }

  lemma NothingRunsAtFirst(s: State, id: Id)
    requires Init(s)
    ensures !Ownerless(s, id)
  {
  }

  /** So with no failed save in a start, no VM is ever abandoned, whatever else fails. */
  lemma NeverAbandoned(run: seq<State>, labels: seq<Label>, n: nat, id: Id)
    requires IsRun(run, labels) && n < |run|
    requires forall i :: 0 <= i < n && labels[i].SaveRunning? ==> labels[i].out.Done?
    ensures !Ownerless(run[n], id) && !Abandoned(run[n], id)
  {
    hide IsRun;
    if Ownerless(run[n], id) {
      OwnerlessOnlyByFailedStart(run, labels, n, id);
    }
    AbandonedIsOwnerless(run[n], id);
  }

  lemma AbandonedIsOwnerless(s: State, id: Id)
    ensures Abandoned(s, id) ==> Ownerless(s, id)
  {
  }

  // ---- Task accounting without store failures ----------------------------------------------

  /** A VM is running exactly when one start in progress or one task in `boot_and_run` is its own. */
  ghost predicate Accounted(s: State) {
    && (forall k :: k in s.ops ==> k < s.next && !s.ops[k].RollingBack?)
    && (forall k :: k in s.ops && Owned(s.ops[k]).Some? ==> Owned(s.ops[k]).value in RunningIds(s.vms))
    && (forall k, k' :: k in s.ops && k' in s.ops && Owned(s.ops[k]).Some? && Owned(s.ops[k]) == Owned(s.ops[k']) ==> k == k')
    && (forall id :: id in RunningIds(s.vms) ==> exists k :: k in s.ops && Owned(s.ops[k]) == Some(id))
  }

  /** Beginning an operation that owns nothing, or the first of a VM that now runs. */
  lemma AccountBegin(s: State, vms: Vms, op: Op)
    requires Accounted(s) && !op.RollingBack?
    requires RunningIds(vms) == RunningIds(s.vms) + (if Owned(op).Some? then {Owned(op).value} else {})
    requires Owned(op).Some? ==> Owned(op).value !in RunningIds(s.vms)
    ensures Accounted(Begin(s.(vms := vms), op))
  {
    hide RunningIds, Owned;
    var s' := Begin(s.(vms := vms), op);
    forall id | id in RunningIds(vms) ensures exists k :: k in s'.ops && Owned(s'.ops[k]) == Some(id) {
      if id in RunningIds(s.vms) {
        var k :| k in s.ops && Owned(s.ops[k]) == Some(id);
        assert s'.ops[k] == s.ops[k];
      } else {
        assert s'.ops[s.next] == op;
      }
    }
  }

  /** An operation that goes on owning what it owned. */
  lemma AccountGoOn(s: State, s': State, k: nat, op: Op)
    requires Accounted(s) && k in s.ops && Owned(op) == Owned(s.ops[k]) && !op.RollingBack?
    requires s'.ops == s.ops[k := op] && s'.next == s.next && RunningIds(s'.vms) == RunningIds(s.vms)
    ensures Accounted(s')
  {
    hide RunningIds, Owned;
    forall id | id in RunningIds(s'.vms) ensures exists j :: j in s'.ops && Owned(s'.ops[j]) == Some(id) {
      var j :| j in s.ops && Owned(s.ops[j]) == Some(id);
      assert Owned(s'.ops[j]) == Some(id);
    }
  }

  /** An operation that ends owning nothing. */
  lemma AccountEnd(s: State, s': State, k: nat)
    requires Accounted(s) && k in s.ops && Owned(s.ops[k]).None?
    requires s'.ops == s.ops - {k} && s'.next == s.next && RunningIds(s'.vms) == RunningIds(s.vms)
    ensures Accounted(s')
  {
    hide RunningIds, Owned;
    forall id | id in RunningIds(s'.vms) ensures exists j :: j in s'.ops && Owned(s'.ops[j]) == Some(id) {
      var j :| j in s.ops && Owned(s.ops[j]) == Some(id);
      assert Owned(s'.ops[j]) == Some(id);
    }
  }

  /** The exit update: a VM task gives up its VM, which stops running. */
  lemma AccountExit(s: State, s': State, k: nat, op: Op)
    requires Accounted(s) && k in s.ops && Owned(s.ops[k]).Some? && Owned(op).None? && !op.RollingBack?
    requires s'.ops == s.ops[k := op] && s'.next == s.next
    requires RunningIds(s'.vms) == RunningIds(s.vms) - {Owned(s.ops[k]).value}
    ensures Accounted(s')
  {
    hide RunningIds, Owned;
    forall id | id in RunningIds(s'.vms) ensures exists j :: j in s'.ops && Owned(s'.ops[j]) == Some(id) {
      var j :| j in s.ops && Owned(s.ops[j]) == Some(id);
      assert j != k && Owned(s'.ops[j]) == Some(id);
    }
  }

  /** What the lock sections do to the set of running VMs. */
  lemma SectionsRunning(vms: Vms, id: Id, config: Config, r: RunResult)
    ensures Inserted(vms, id, config).Ok? ==> RunningIds(Inserted(vms, id, config).value) == RunningIds(vms)
    ensures Begun(vms, id).Ok? ==>
              id !in RunningIds(vms) && RunningIds(Begun(vms, id).value) == RunningIds(vms) + {id}
    ensures StopRequested(vms, id).Ok? ==> RunningIds(StopRequested(vms, id).value) == RunningIds(vms)
    ensures RunningIds(Exited(vms, id, r)) == RunningIds(vms) - {id}
    ensures Removed(vms, id).Ok? ==> RunningIds(Removed(vms, id).value) == RunningIds(vms)
    ensures RunningIds(AllFlagged(vms)) == RunningIds(vms)
  {
    hide ReasonText;
  }

  lemma SectionKeepsAccounts(s: State, l: Label)
    requires Accounted(s) && Enabled(s, l) && (l.Create? || l.Start? || l.Delete? || l.Exit?)
    ensures Accounted(Apply(s, l))
  {
    hide Accounted, RunningIds, Inserted, Begun, StopRequested, Exited, Removed, AllFlagged, Stored, SafeId, Owners;
    var s' := Apply(s, l);
    assert RunningIds(s.vms) + {} == RunningIds(s.vms);
    match l
    case Create(id, config) =>
      SectionsRunning(s.vms, id, config, Halt);
      AccountBegin(s, s'.vms, SavingConfig(id, config));
    case Start(id) =>
      SectionsRunning(s.vms, id, "", Halt);
      AccountBegin(s, s'.vms, SavingRunning(id));
    case Delete(id) =>
      SectionsRunning(s.vms, id, "", Halt);
      AccountBegin(s, s'.vms, Erasing(id));
    case Exit(k, result) =>
      SectionsRunning(s.vms, s.ops[k].id, "", result);
      AccountExit(s, s', k, s'.ops[k]);
  }

  lemma WriteKeepsAccounts(s: State, l: Label)
    requires Accounted(s) && Enabled(s, l) && Reliable(l)
    requires l.SaveConfig? || l.SaveCreated? || l.SaveRunning? || l.SaveExit? || l.Erase? || l.Send?
    ensures Accounted(Apply(s, l))
  {
    hide Accounted, RunningIds, Stored;
    var s' := Apply(s, l);
    if l.SaveConfig? || l.SaveRunning? || l.SaveExit? {
      AccountGoOn(s, s', l.k, s'.ops[l.k]);
    } else {
      AccountEnd(s, s', l.k);
    }
  }

  lemma StepKeepsAccounts(s: State, l: Label)
    requires Accounted(s) && Enabled(s, l) && Reliable(l)
    ensures Accounted(Apply(s, l))
  {
    hide Accounted, RunningIds, Inserted, Begun, StopRequested, Exited, Removed, AllFlagged, Stored, SafeId, Owners, Owned;
    match l
    case Create(_, _) => SectionKeepsAccounts(s, l);
    case Start(_) => SectionKeepsAccounts(s, l);
    case Delete(_) => SectionKeepsAccounts(s, l);
    case Exit(_, _) => SectionKeepsAccounts(s, l);
    case Stop(id) =>
      SectionsRunning(s.vms, id, "", Halt);
      AccountSame(s, Apply(s, l));
    case StopAll =>
      SectionsRunning(s.vms, "", "", Halt);
      AccountSame(s, Apply(s, l));
    case BeginWait(_) =>
      SectionsRunning(s.vms, "", "", Halt);
      AccountSame(s, Apply(s, l));
    case Receive(_) => AccountSame(s, Apply(s, l));
    case EndWait(_) => AccountSame(s, Apply(s, l));
    case Rollback(k) => NoRollback(s, k);
    case _ => WriteKeepsAccounts(s, l);
  }

  lemma AccountSame(s: State, s': State)
    requires Accounted(s)
    requires s'.ops == s.ops && s'.next == s.next && RunningIds(s'.vms) == RunningIds(s.vms)
    ensures Accounted(s')
  {
    hide RunningIds;
  }

  lemma NoRollback(s: State, k: nat)
    requires Accounted(s) && k in s.ops
    ensures !s.ops[k].RollingBack?
  {
  }

  /** Over every run without store failures. */
  lemma {:induction false} RunKeepsAccounts(run: seq<State>, labels: seq<Label>, n: nat)
    requires IsRun(run, labels) && AllReliable(labels) && n < |run|
    ensures Accounted(run[n])
  {
    hide Apply, Enabled, Accounted, Reliable;
    if n == 0 {
      InitAccounts(run[0]);
    } else {
      RunKeepsAccounts(run, labels, n - 1);
      assert run[n - 1 + 1] == Apply(run[n - 1], labels[n - 1]);
      StepKeepsAccounts(run[n - 1], labels[n - 1]);
    }
  }

  lemma InitAccounts(s: State)
    requires Init(s)
    ensures Accounted(s)
  {
  }

  // ---- What an exit leaves ---------------------------------------------------------------------

  lemma StepKeepsEnded(s: State, l: Label, id: Id)
    requires Accounted(s) && Enabled(s, l) && Ended(s.vms, id) && id in Apply(s, l).vms
    ensures Apply(s, l).vms[id] == s.vms[id]
  {
    hide Owners, Stored, ReasonText, SafeId, Accounted;
    if l.Exit? {
      OwnerRuns(s, l.k);
    }
  }

  lemma OwnerRuns(s: State, k: nat)
    requires Accounted(s) && k in s.ops && s.ops[k].Booted?
    ensures s.ops[k].id in s.vms && s.vms[s.ops[k].id].state == Running
  {
    assert Owned(s.ops[k]) == Some(s.ops[k].id);
  }

  lemma ExitReported(s: State, k: nat, r: RunResult)
    requires Accounted(s) && Enabled(s, Exit(k, r))
    ensures var id := s.ops[k].id; id in Apply(s, Exit(k, r)).vms && ReportsExit(Apply(s, Exit(k, r)).vms[id], r)
  {
    hide Accounted, ReasonText, ReportsExit;
    OwnerRuns(s, k);
    ExitIsReported(Apply(s, Exit(k, r)).vms[s.ops[k].id], r);
  }

  /**
   * Without store failures, a VM that exits shows how it ended, and goes on showing it as long as
   * its id stays in the map: stopped after a halt, a shutdown or a cancel, failed otherwise.
   */
  lemma {:induction false} ExitStaysReported(run: seq<State>, labels: seq<Label>, i: nat, n: nat, k: nat, r: RunResult)
    requires IsRun(run, labels) && AllReliable(labels) && i < n < |run| && labels[i] == Exit(k, r)
    requires k in run[i].ops && forall m :: i < m <= n ==> run[i].ops[k].id in run[m].vms
    ensures ReportsExit(run[n].vms[run[i].ops[k].id], r)
  {
    hide Apply, Enabled, Init, Accounted, Reliable, ReportsExit;
    var id := run[i].ops[k].id;
    assert run[n - 1 + 1] == Apply(run[n - 1], labels[n - 1]);
    RunKeepsAccounts(run, labels, n - 1);
    if n == i + 1 {
      ExitReported(run[i], k, r);
    } else {
      ExitStaysReported(run, labels, i, n - 1, k, r);
      ReportedIsEnded(run[n - 1].vms, id, r);
      StepKeepsEnded(run[n - 1], labels[n - 1], id);
    }
  }

  lemma ReportedIsEnded(vms: Vms, id: Id, r: RunResult)
    requires id in vms && ReportsExit(vms[id], r)
    ensures Ended(vms, id)
  {
  }
}
