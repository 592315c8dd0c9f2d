/**
 * Disk and map.  Without store failures, and as long as the store writes of one VM do not
 * overlap, the disk follows the map: exactly so between writes, and at any moment a crash
 * recovers each VM as it was before or after the operation in flight.
 */
module VmDisk {
  import opened Bytes
  import opened VmStore
  import opened VmManager
  import opened VmProtocol

  /** The operation still has a store write to make. */
  predicate Writes(op: Op) {
    op.SavingConfig? || op.SavingCreated? || op.SavingRunning? || op.SavingExit? || op.Erasing?
  }

  predicate PendingOn(ops: map<nat, Op>, k: nat, id: Id) { k in ops && Writes(ops[k]) && ops[k].id == id }

  /** Store writes for one id do not overlap. */
  ghost predicate Exclusive(s: State) {
    forall k, k', id :: PendingOn(s.ops, k, id) && PendingOn(s.ops, k', id) ==> k == k'
  }

  /** What recovery should make of the map. */
  function View(vms: Vms, id: Id): Option<(Config, VmState)> {
    if id in vms then Some((vms[id].config, Clamp(vms[id].state))) else None
  }

  /** The disk holds the entry, if any, and nothing else at this id. */
  predicate Exact(vms: Vms, disk: Disk, id: Id) {
    && (id in disk <==> id in vms)
    && (id in vms ==> disk[id] == Record(Some(vms[id].config), Some(vms[id].state)))
  }

  /** The disk agrees with the map at `id`: to the letter, or as far as recovery can tell. */
  predicate Agree(strict: bool, vms: Vms, disk: Disk, id: Id) {
    if strict then Exact(vms, disk, id) else Recovered(disk, id) == View(vms, id)
  }

  /** What the disk holds while a write is pending. */
  predicate PendingFits(strict: bool, vms: Vms, disk: Disk, op: Op)
    requires Writes(op)
  {
    var rec := RecordAt(disk, op.id);
    match op
    case SavingConfig(id, c) =>
      id in vms && vms[id].config == c && vms[id].state == Created && rec.config.None? && (strict ==> id !in disk)
    case SavingCreated(id) =>
      id in vms && vms[id].state == Created && id in disk && rec.config == Some(vms[id].config) && (strict ==> rec.state.None?)
    case SavingRunning(id) =>
      id in vms && vms[id].state == Running && id in disk && rec.config == Some(vms[id].config)
    case SavingExit(id, final) =>
      id in vms && vms[id].state == final && id in disk && rec.config == Some(vms[id].config)
    case Erasing(id) =>
      id !in vms
  }

  ghost predicate IdFits(strict: bool, s: State, id: Id) {
    && (forall k :: PendingOn(s.ops, k, id) ==> PendingFits(strict, s.vms, s.disk, s.ops[k]))
    && ((forall k :: !PendingOn(s.ops, k, id)) ==> Agree(strict, s.vms, s.disk, id))
  }

  ghost predicate AllFit(strict: bool, s: State) { forall id :: IdFits(strict, s, id) }

  /** Nothing that concerns `id` differs: entry, record and pending writes. */
  ghost predicate SameAt(s: State, s': State, id: Id) {
    && (id in s.vms <==> id in s'.vms)
    && (id in s.vms ==> s'.vms[id].config == s.vms[id].config && s'.vms[id].state == s.vms[id].state)
    && (id in s.disk <==> id in s'.disk) && RecordAt(s'.disk, id) == RecordAt(s.disk, id)
    && (forall k :: PendingOn(s'.ops, k, id) <==> PendingOn(s.ops, k, id))
    && (forall k :: PendingOn(s.ops, k, id) ==> s'.ops[k] == s.ops[k])
  }

  lemma SameFits(strict: bool, s: State, s': State, id: Id)
    requires SameAt(s, s', id) && IdFits(strict, s, id)
    ensures IdFits(strict, s', id)
  {
    forall k | PendingOn(s'.ops, k, id) ensures PendingFits(strict, s'.vms, s'.disk, s'.ops[k]) {
      assert PendingFits(strict, s.vms, s.disk, s.ops[k]);
    }
  }

  lemma PendingWrites(ops: map<nat, Op>, k: nat, id: Id)
    requires PendingOn(ops, k, id)
    ensures k in ops && Writes(ops[k]) && ops[k].id == id
  {
  }

  /** The id whose entry, record or pending write a step may change. */
  function Target(s: State, l: Label): Option<Id>
    requires Enabled(s, l)
  {
    match l
    case Create(id, _) => Some(id)
    case SaveConfig(k, _) => Some(s.ops[k].id)
    case SaveCreated(k, _) => Some(s.ops[k].id)
    case Rollback(k) => Some(s.ops[k].id)
    case Start(id) => Some(id)
    case SaveRunning(k, _) => Some(s.ops[k].id)
    case Exit(k, _) => Some(s.ops[k].id)
    case SaveExit(k, _) => Some(s.ops[k].id)
    case Delete(id) => Some(id)
    case Erase(k, _) => Some(s.ops[k].id)
    case _ => None
  }

  lemma StepSameEntry(s: State, l: Label, id: Id)
    requires Enabled(s, l) && Target(s, l) != Some(id)
    ensures id in s.vms <==> id in Apply(s, l).vms
    ensures id in s.vms ==> Apply(s, l).vms[id].config == s.vms[id].config && Apply(s, l).vms[id].state == s.vms[id].state
  {
    hide Owners, RunningIds, SafeId, ReasonText, Owned, Stored;
  }

  lemma StepSameRecord(s: State, l: Label, id: Id)
    requires Enabled(s, l) && Target(s, l) != Some(id)
    ensures id in s.disk <==> id in Apply(s, l).disk
    ensures RecordAt(Apply(s, l).disk, id) == RecordAt(s.disk, id)
  {
    hide Owners, RunningIds, SafeId, Owned, Inserted, Begun, Removed, Exited, AllFlagged, StopRequested;
  }

  lemma StepSamePending(s: State, l: Label, id: Id)
    requires Enabled(s, l) && (forall k :: k in s.ops ==> k < s.next) && Target(s, l) != Some(id)
    ensures forall k :: PendingOn(Apply(s, l).ops, k, id) <==> PendingOn(s.ops, k, id)
    ensures forall k :: PendingOn(s.ops, k, id) ==> Apply(s, l).ops[k] == s.ops[k]
  {
    hide Owners, RunningIds, SafeId, ReasonText, Inserted, Begun, Removed, Exited, AllFlagged, StopRequested, Stored;
  }

  lemma StepSameAt(s: State, l: Label, id: Id)
    requires Enabled(s, l) && (forall k :: k in s.ops ==> k < s.next) && Target(s, l) != Some(id)
    ensures SameAt(s, Apply(s, l), id)
  {
    hide Apply, Enabled, PendingOn, RecordAt;
    StepSameEntry(s, l, id);
    StepSameRecord(s, l, id);
    StepSamePending(s, l, id);
  }

  // ---- The target of each step ---------------------------------------------------------------

  /** A write now pending on `id` is the only one. */
  lemma OnlyPending(strict: bool, s: State, k: nat)
    requires Exclusive(s) && k in s.ops && Writes(s.ops[k]) && PendingFits(strict, s.vms, s.disk, s.ops[k])
    ensures IdFits(strict, s, s.ops[k].id)
  {
    hide PendingFits;
    assert PendingOn(s.ops, k, s.ops[k].id);
  }

  /** The only pending write on an id is done. */
  lemma WriteDone(strict: bool, s: State, s': State, k: nat, id: Id)
    requires Exclusive(s) && PendingOn(s.ops, k, id) && !PendingOn(s'.ops, k, id)
    requires s'.ops.Keys <= s.ops.Keys && (forall j :: j in s'.ops && j != k ==> s'.ops[j] == s.ops[j])
    requires Agree(strict, s'.vms, s'.disk, id)
    ensures IdFits(strict, s', id)
  {
    hide Agree, PendingFits;
    forall j ensures !PendingOn(s'.ops, j, id) {
      assert PendingOn(s'.ops, j, id) ==> PendingOn(s.ops, j, id);
    }
  }

  /** If a write on `id` becomes pending, none was before. */
  lemma NonePending(strict: bool, s: State, s': State, k: nat, id: Id)
    requires Exclusive(s') && PendingOn(s'.ops, k, id) && !PendingOn(s.ops, k, id) && IdFits(strict, s, id)
    requires forall j :: j in s.ops && j != k ==> j in s'.ops && s'.ops[j] == s.ops[j]
    ensures Agree(strict, s.vms, s.disk, id)
  {
    hide Agree, PendingFits;
    forall j ensures !PendingOn(s.ops, j, id) {
      assert PendingOn(s.ops, j, id) ==> PendingOn(s'.ops, j, id);
    }
  }

  /** Steps that open a write. */
  lemma OpenFits(strict: bool, s: State, l: Label)
    requires Enabled(s, l) && Accounted(s) && AllFit(strict, s) && Exclusive(Apply(s, l))
    requires l.Create? || l.Start? || l.Delete?
    ensures IdFits(strict, Apply(s, l), Target(s, l).value)
  {
    hide Owners, RunningIds, SafeId, ReasonText, IdFits, Exclusive, Accounted;
    FreshNumber(s);
    NonePending(strict, s, Apply(s, l), s.next, Target(s, l).value);
    OnlyPending(strict, Apply(s, l), s.next);
  }

  /** The exit update opens the final save. */
  lemma ExitFits(strict: bool, s: State, l: Label)
    requires l.Exit? && Enabled(s, l) && Accounted(s) && AllFit(strict, s) && Exclusive(Apply(s, l))
    ensures IdFits(strict, Apply(s, l), Target(s, l).value)
  {
    hide Owners, RunningIds, SafeId, ReasonText, IdFits, Exclusive, Accounted;
    OwnerRuns(s, l.k);
    NonePending(strict, s, Apply(s, l), l.k, Target(s, l).value);
    OnlyPending(strict, Apply(s, l), l.k);
  }

  lemma FreshNumber(s: State)
    requires Accounted(s)
    ensures s.next !in s.ops
  {
  }

  /** Steps that make a write. */
  lemma CloseFits(strict: bool, s: State, l: Label)
    requires Enabled(s, l) && AllFit(strict, s) && Exclusive(s) && Exclusive(Apply(s, l)) && Reliable(l)
    requires l.SaveConfig? || l.SaveCreated? || l.SaveRunning? || l.SaveExit? || l.Erase?
    ensures IdFits(strict, Apply(s, l), Target(s, l).value)
  {
    hide IdFits, Exclusive;
    var s', id := Apply(s, l), Target(s, l).value;
    assert IdFits(strict, s, id);
    PendingFitsOf(strict, s, l.k, id);
    if l.SaveConfig? {
      OnlyPending(strict, s', l.k);
    } else {
      WriteDone(strict, s, s', l.k, id);
    }
  }

  lemma PendingFitsOf(strict: bool, s: State, k: nat, id: Id)
    requires IdFits(strict, s, id) && k in s.ops && Writes(s.ops[k]) && s.ops[k].id == id
    ensures PendingFits(strict, s.vms, s.disk, s.ops[k])
  {
    hide PendingFits;
    assert PendingOn(s.ops, k, id);
  }

  lemma StepKeepsFit(strict: bool, s: State, l: Label)
    requires Enabled(s, l) && Reliable(l) && Accounted(s) && AllFit(strict, s)
    requires Exclusive(s) && Exclusive(Apply(s, l))
    ensures AllFit(strict, Apply(s, l))
  {
    hide Enabled, Apply, Accounted, Exclusive, IdFits, SameAt;
    forall id ensures IdFits(strict, Apply(s, l), id) {
      if Target(s, l) == Some(id) {
        if l.Create? || l.Start? || l.Delete? {
          OpenFits(strict, s, l);
        } else if l.Exit? {
          ExitFits(strict, s, l);
        } else if l.Rollback? {
          RollbackOp(s, l.k);
          NoRollback(s, l.k);
        } else {
          CloseFits(strict, s, l);
        }
      } else {
        NumbersBelow(s);
        StepSameAt(s, l, id);
        SameFits(strict, s, Apply(s, l), id);
      }
    }
  }

  lemma RollbackOp(s: State, k: nat)
    requires Enabled(s, Rollback(k))
    ensures k in s.ops && s.ops[k].RollingBack?
  {
  }

  lemma NumbersBelow(s: State)
    requires Accounted(s)
    ensures forall k :: k in s.ops ==> k < s.next
  {
  }

  // ---- Whole runs ---------------------------------------------------------------------------

  /** The disk a run starts from needs no correction: every directory is a complete, stopped VM. */
  predicate Settled(disk: Disk) {
    forall id :: id in disk ==> disk[id].config.Some? && disk[id].state.Some? && disk[id].state != Some(Running)
  }

  /** A manager starts in step with its disk exactly when the disk is settled. */
  lemma StartsSyncedIffSettled(s: State)
    requires Init(s)
    ensures Synced(s.vms, s.disk) <==> Settled(s.disk)
  {
    assert forall id :: id in s.disk ==> RecordAt(s.disk, id) == s.disk[id];
    if Settled(s.disk) {
      assert s.disk.Keys == s.vms.Keys;
    }
    if Synced(s.vms, s.disk) {
      assert forall id :: id in s.disk ==> id in s.vms;
    }
  }

  ghost predicate NeverOverlap(run: seq<State>) {
    forall i :: 0 <= i < |run| ==> Exclusive(run[i])
  }

  lemma InitFits(strict: bool, s: State)
    requires Init(s) && (strict ==> Settled(s.disk))
    ensures AllFit(strict, s)
  {
    forall id ensures IdFits(strict, s, id) {
      assert forall k :: !PendingOn(s.ops, k, id);
      assert id in s.disk ==> RecordAt(s.disk, id) == s.disk[id];
    }
  }

  lemma {:induction false} RunKeepsFit(strict: bool, run: seq<State>, labels: seq<Label>, n: nat)
    requires IsRun(run, labels) && AllReliable(labels) && NeverOverlap(run) && n < |run|
    requires strict ==> Settled(run[0].disk)
    ensures AllFit(strict, run[n])
  {
    hide Enabled, Apply, Init, Exclusive, AllFit, Reliable, Settled;
    if n == 0 {
      assert Init(run[0]);
      InitFits(strict, run[0]);
    } else {
      RunKeepsFit(strict, run, labels, n - 1);
      RunKeepsAccounts(run, labels, n - 1);
      assert run[n - 1 + 1] == Apply(run[n - 1], labels[n - 1]);
      StepKeepsFit(strict, run[n - 1], labels[n - 1]);
    }
  }

  /** No store write is pending. */
  predicate Quiescent(s: State) { forall k :: k in s.ops ==> !Writes(s.ops[k]) }

  /** The map, as a restarted daemon should see it. */
  function AfterCrash(vms: Vms): Vms {
    map id | id in vms :: Entry(vms[id].config, Clamp(vms[id].state), None, None)
  }

  /**
   * At every quiescent point, from any initial disk, recovery yields the map with running VMs
   * stopped; and from a settled disk, disk and map hold the same ids, configurations and states.
   */
  lemma QuiescentDiskIsMap(run: seq<State>, labels: seq<Label>, n: nat)
    requires IsRun(run, labels) && AllReliable(labels) && NeverOverlap(run) && n < |run| && Quiescent(run[n])
    ensures RecoveredMap(run[n].disk) == AfterCrash(run[n].vms)
    ensures Settled(run[0].disk) ==> Synced(run[n].vms, run[n].disk)
  {
    hide IsRun, AllReliable, NeverOverlap, Settled;
    var s := run[n];
    RunKeepsFit(false, run, labels, n);
    AgreedEverywhere(false, s);
    RecoveredAgrees(s.vms, s.disk);
    if Settled(run[0].disk) {
      RunKeepsFit(true, run, labels, n);
      AgreedEverywhere(true, s);
      ExactIsSynced(s.vms, s.disk);
    }
  }

  lemma AgreedEverywhere(strict: bool, s: State)
    requires AllFit(strict, s) && Quiescent(s)
    ensures forall id :: Agree(strict, s.vms, s.disk, id)
  {
    hide Agree;
    forall id ensures Agree(strict, s.vms, s.disk, id) {
      assert IdFits(strict, s, id);
    }
  }

  lemma ExactIsSynced(vms: Vms, disk: Disk)
    requires forall id :: Agree(true, vms, disk, id)
    ensures Synced(vms, disk)
  {
    forall id
      ensures id in disk <==> id in vms
      ensures id in vms ==> disk[id] == Record(Some(vms[id].config), Some(vms[id].state))
    {
      assert Agree(true, vms, disk, id);
    }
    assert disk.Keys == vms.Keys;
  }

  lemma RecoveredAgrees(vms: Vms, disk: Disk)
    requires forall id :: Agree(false, vms, disk, id)
    ensures RecoveredMap(disk) == AfterCrash(vms)
  {
    forall id
      ensures id in RecoveredMap(disk) <==> id in vms
      ensures id in vms ==> RecoveredMap(disk)[id] == AfterCrash(vms)[id]
    {
      assert Agree(false, vms, disk, id);
    }
  }

  // ---- Crashes in the middle of an operation ---------------------------------------------------

  lemma WriterPending(s: State, l: Label)
    requires Enabled(s, l) && (l.SaveConfig? || l.SaveCreated? || l.SaveRunning? || l.SaveExit? || l.Erase?)
    ensures PendingOn(s.ops, l.k, s.ops[l.k].id)
  {
  }

  /** A step makes no other write pending and changes a record only by the write pending on it. */
  lemma StepWritesOwn(s: State, l: Label, k: nat, id: Id)
    requires Enabled(s, l) && Reliable(l) && Exclusive(s) && Accounted(s)
    requires PendingOn(s.ops, k, id) && PendingOn(Apply(s, l).ops, k, id) && !Apply(s, l).ops[k].SavingCreated?
    ensures !s.ops[k].SavingCreated? && RecordAt(Apply(s, l).disk, id) == RecordAt(s.disk, id)
  {
    hide Owners, RunningIds, SafeId, ReasonText, Inserted, Begun, Removed, Exited, AllFlagged, StopRequested, Accounted;
    FreshNumber(s);
    if l.SaveConfig? || l.SaveCreated? || l.SaveRunning? || l.SaveExit? || l.Erase? {
      WriterPending(s, l);
    }
  }

  /** Until its write is made, the record is the one found when the operation began. */
  lemma {:induction false} RecordFrozen(run: seq<State>, labels: seq<Label>, b: nat, n: nat, k: nat, id: Id)
    requires IsRun(run, labels) && AllReliable(labels) && NeverOverlap(run) && b < n < |run|
    requires !PendingOn(run[b].ops, k, id) && forall m :: b < m <= n ==> PendingOn(run[m].ops, k, id)
    requires !run[n].ops[k].SavingCreated?
    ensures RecordAt(run[n].disk, id) == RecordAt(run[b].disk, id)
  {
    hide Enabled, Apply, Init, Exclusive, Reliable, RecordAt, PendingOn, Accounted;
    assert run[n - 1 + 1] == Apply(run[n - 1], labels[n - 1]);
    RunKeepsAccounts(run, labels, n - 1);
    if n == b + 1 {
      OpeningWritesNothing(run[b], labels[b], k, id);
    } else {
      StepWritesOwn(run[n - 1], labels[n - 1], k, id);
      RecordFrozen(run, labels, b, n - 1, k, id);
    }
  }

  lemma OpeningWritesNothing(s: State, l: Label, k: nat, id: Id)
    requires Enabled(s, l) && Reliable(l) && Accounted(s)
    requires !PendingOn(s.ops, k, id) && PendingOn(Apply(s, l).ops, k, id)
    ensures Apply(s, l).disk == s.disk
    ensures forall j :: j in s.ops && j != k ==> j in Apply(s, l).ops && Apply(s, l).ops[j] == s.ops[j]
  {
    hide Owners, RunningIds, SafeId, ReasonText, Inserted, Begun, Removed, Exited, AllFlagged, StopRequested, Accounted;
    FreshNumber(s);
  }

  /**
   * A crash at any moment of an operation that began at moment `b` recovers its VM either as it
   * was in the map before the operation or as it is in the map now.
   */
  lemma CrashRecoversBeforeOrAfter(run: seq<State>, labels: seq<Label>, b: nat, n: nat, k: nat, id: Id)
    requires IsRun(run, labels) && AllReliable(labels) && NeverOverlap(run) && b < n < |run|
    requires Settled(run[0].disk)
    requires !PendingOn(run[b].ops, k, id) && forall m :: b < m <= n ==> PendingOn(run[m].ops, k, id)
    ensures || Recovered(run[n].disk, id) == View(run[b].vms, id)
            || Recovered(run[n].disk, id) == View(run[n].vms, id)
  {
    hide Enabled, Apply, Init, Reliable, PendingOn, Accounted, Settled, IdFits, Exclusive;
    var s := run[n];
    PendingWrites(s.ops, k, id);
    if s.ops[k].SavingCreated? {
      RunKeepsFit(true, run, labels, n);
      PendingFitsOf(true, s, k, id);
    } else {
      RecordFrozen(run, labels, b, n, k, id);
      RunKeepsFit(true, run, labels, b);
      RunKeepsAccounts(run, labels, b);
      assert run[b + 1] == Apply(run[b], labels[b]);
      OpeningWritesNothing(run[b], labels[b], k, id);
      NonePending(true, run[b], run[b + 1], k, id);
      ExactRecovers(run[b].vms, run[b].disk, s.disk, id);
    }
  }

  lemma ExactRecovers(vms: Vms, disk: Disk, disk': Disk, id: Id)
    requires Agree(true, vms, disk, id) && RecordAt(disk', id) == RecordAt(disk, id)
    ensures Recovered(disk', id) == View(vms, id)
  {
  }

  // ---- What is on disk after an exit -------------------------------------------------------------

  /** The state a run's end leaves, by how it ended. */
  predicate EndState(r: RunResult, s: VmState) {
    match r
    case Halt => s == Stopped
    case Shutdown => s == Stopped
    case Canceled => s == Stopped
    case Unexpected(_) => s == Failed
    case BootError(_) => s == Failed
    case Panicked(_) => s == Failed
  }

  /**
   * After an exit, at every later quiescent point at which the id is still in the map, the disk
   * records how the VM ended: a VM stopped on request is on disk as stopped.
   */
  lemma ExitIsRecorded(run: seq<State>, labels: seq<Label>, i: nat, n: nat, k: nat, r: RunResult)
    requires IsRun(run, labels) && AllReliable(labels) && NeverOverlap(run) && Settled(run[0].disk)
    requires i < n < |run| && labels[i] == Exit(k, r) && Quiescent(run[n])
    requires k in run[i].ops && forall m :: i < m <= n ==> run[i].ops[k].id in run[m].vms
    ensures var id := run[i].ops[k].id;
            id in run[n].disk && run[n].disk[id].state.Some? && EndState(r, run[n].disk[id].state.value)
  {
    hide IsRun, AllReliable, NeverOverlap, Settled, Quiescent, ReportsExit;
    QuiescentDiskIsMap(run, labels, n);
    ExitStaysReported(run, labels, i, n, k, r);
    ReportsEndState(run[n].vms[run[i].ops[k].id], r);
  }

  lemma ReportsEndState(e: Entry, r: RunResult)
    requires ReportsExit(e, r)
    ensures EndState(r, e.state)
  {
  }
}
