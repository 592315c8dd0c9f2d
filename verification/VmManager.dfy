/**
 * The VM manager: what each operation does to the VM map inside the lock, as functions, and the
 * manager itself, whose operations combine these sections with store writes.  The interleavings
 * of the sections are the subject of `VmProtocol`.
 */
module VmManager {
  import opened Bytes
  import opened VmStore

  datatype Entry = Entry(config: Config, state: VmState, exitReason: Option<string>, stopFlag: Option<bool>)

  type Vms = map<Id, Entry>

  datatype DaemonError = InvalidId | InvalidConfig | NotFound | AlreadyExists | InvalidState(state: VmState) | Io | Timeout

  datatype RunResult =
    | Halt | Shutdown | Canceled
    | Unexpected(reason: string)
    | BootError(message: string)
    | Panicked(message: string)

  predicate SafeId(id: Id) {
    && '/' !in id && '\\' !in id
    && forall i :: 0 <= i < |id| - 1 ==> !(id[i] == '.' && id[i + 1] == '.')
  }

  /** The id holds a path separator or two dots in a row. */
  ghost predicate Forbidden(id: Id) {
    exists x: string, y: string :: id == x + "/" + y || id == x + "\\" + y || id == x + ".." + y
  }

  lemma CharInside(id: Id, i: nat)
    requires i < |id|
    ensures id == id[..i] + [id[i]] + id[i + 1..]
  {
  }

  /** Exactly the ids with a slash, a backslash or a double dot are refused. */
  lemma SafeIffNotForbidden(id: Id)
    ensures SafeId(id) <==> !Forbidden(id)
  {
    if x: string, y: string :| id == x + "/" + y || id == x + "\\" + y || id == x + ".." + y {
      ForbiddenIsUnsafe(id, x, y);
    }
    if !SafeId(id) {
      UnsafeIsForbidden(id);
    }
  }

  lemma UnsafeIsForbidden(id: Id)
    requires !SafeId(id)
    ensures Forbidden(id)
  {
    if i :| 0 <= i < |id| && (id[i] == '/' || id[i] == '\\') {
      CharInside(id, i);
      assert id == id[..i] + "/" + id[i + 1..] || id == id[..i] + "\\" + id[i + 1..];
    } else {
      var i :| 0 <= i < |id| - 1 && id[i] == '.' && id[i + 1] == '.';
      assert id[i..i + 2] == "..";
      assert id == id[..i] + ".." + id[i + 2..];
    }
  }

  lemma ForbiddenIsUnsafe(id: Id, x: string, y: string)
    requires id == x + "/" + y || id == x + "\\" + y || id == x + ".." + y
    ensures !SafeId(id)
  {
    if id == x + "/" + y {
      assert id[|x|] == '/';
    } else if id == x + "\\" + y {
      assert id[|x|] == '\\';
    } else {
      assert id[|x|] == '.' && id[|x| + 1] == '.';
    }
  }

  function FinalState(r: RunResult): VmState {
    if r.Halt? || r.Shutdown? || r.Canceled? then Stopped else Failed
  }

  function ReasonText(r: RunResult): string {
    match r
    case Halt => "Halt"
    case Shutdown => "Shutdown"
    case Canceled => "Canceled"
    case Unexpected(reason) => reason
    case BootError(message) => message
    case Panicked(message) => "task panicked: " + message
  }

  /** What a user sees of a VM whose run ended with `r`. */
  predicate ReportsExit(e: Entry, r: RunResult) {
    match r
    case Halt => e.state == Stopped && e.exitReason == Some("Halt")
    case Shutdown => e.state == Stopped && e.exitReason == Some("Shutdown")
    case Canceled => e.state == Stopped && e.exitReason == Some("Canceled")
    case Unexpected(reason) => e.state == Failed && e.exitReason == Some(reason)
    case BootError(message) => e.state == Failed && e.exitReason == Some(message)
    case Panicked(message) => e.state == Failed && e.exitReason == Some("task panicked: " + message)
  }

  lemma ExitIsReported(e: Entry, r: RunResult)
    requires e.state == FinalState(r) && e.exitReason == Some(ReasonText(r))
    ensures ReportsExit(e, r)
  {
  }

  // ---- Lock sections ----------------------------------------------------------------------

  function Fresh(config: Config): Entry { Entry(config, Created, None, None) }

  function Inserted(vms: Vms, id: Id, config: Config): Result<Vms, DaemonError> {
    if id in vms then Err(AlreadyExists) else Ok(vms[id := Fresh(config)])
  }

  function Begun(vms: Vms, id: Id): Result<Vms, DaemonError> {
    if id !in vms then Err(NotFound)
    else if vms[id].state != Created then Err(InvalidState(vms[id].state))
    else Ok(vms[id := vms[id].(state := Running, stopFlag := Some(false))])
  }

  function Flagged(e: Entry): Entry {
    if e.state == Running && e.stopFlag.Some? then e.(stopFlag := Some(true)) else e
  }

  function StopRequested(vms: Vms, id: Id): Result<Vms, DaemonError> {
    if id !in vms then Err(NotFound)
    else if vms[id].state != Running then Err(InvalidState(vms[id].state))
    else Ok(vms[id := Flagged(vms[id])])
  }

  /** The exit update of the VM task; nothing if the entry is gone. */
  function Exited(vms: Vms, id: Id, r: RunResult): Vms {
    if id !in vms then vms
    else vms[id := vms[id].(state := FinalState(r), exitReason := Some(ReasonText(r)), stopFlag := None)]
  }

  function Removed(vms: Vms, id: Id): Result<Vms, DaemonError> {
    if id !in vms then Err(NotFound)
    else if vms[id].state == Running then Err(InvalidState(Running))
    else Ok(vms - {id})
  }

  function AllFlagged(vms: Vms): Vms { map id | id in vms :: Flagged(vms[id]) }

  function RunningIds(vms: Vms): set<Id> { set id | id in vms && vms[id].state == Running }

  /** The map that `new` builds from the disk. */
  function RecoveredMap(disk: Disk): Vms {
    map id | id in disk && Recovered(disk, id).Some? ::
      Entry(Recovered(disk, id).value.0, Recovered(disk, id).value.1, None, None)
  }

  /** A VM has a stop flag exactly while it is running. */
  predicate FlagIffRunning(vms: Vms) {
    forall id :: id in vms ==> (vms[id].state == Running <==> vms[id].stopFlag.Some?)
  }

  /** Disk and map hold the same ids, configurations and states. */
  predicate Synced(vms: Vms, disk: Disk) {
    && disk.Keys == vms.Keys
    && forall id :: id in vms ==> disk[id] == Record(Some(vms[id].config), Some(vms[id].state))
  }

  /** Recovery of a synced disk gives the map back, with running VMs stopped. */
  lemma SyncedRecovers(vms: Vms, disk: Disk)
    requires Synced(vms, disk)
    ensures RecoveredMap(disk) == map id | id in vms :: Entry(vms[id].config, Clamp(vms[id].state), None, None)
  {
    assert forall id :: id in vms ==> RecordAt(disk, id) == disk[id];
  }

  lemma SyncedUpdate(vms: Vms, disk: Disk, id: Id, e: Entry)
    requires id in vms && e.config == vms[id].config
    ensures Synced(vms, disk) ==> Synced(vms[id := e], SavedState(disk, id, e.state))
  {
  }

  lemma SyncedInsert(vms: Vms, disk: Disk, id: Id, config: Config)
    requires id !in vms
    ensures Synced(vms, disk) ==>
              Synced(vms[id := Entry(config, Created, None, None)], SavedState(SavedConfig(disk, id, config), id, Created))
  {
  }

  // ---- The manager, one operation at a time ------------------------------------------------

  class Manager {
    var vms: Vms
    const store: StateStore
    var completions: seq<Id>

    ghost predicate Valid()
      reads this
    {
      FlagIffRunning(vms)
    }

    /** `new`: the map is what the store recovers; nothing is running. */
    constructor (s: StateStore)
      ensures store == s && Valid() && vms == RecoveredMap(s.disk) && completions == []
      ensures forall id :: id in vms <==> id in s.disk && s.disk[id].config.Some?
      ensures forall id :: id in vms ==> vms[id].config == s.disk[id].config.value && vms[id].stopFlag == None && vms[id].exitReason == None
    {
      store, completions := s, [];
      var existing := s.LoadAll();
      var entries: Vms := map[];
      for i := 0 to |existing|
        invariant forall id :: id in entries <==> exists j :: 0 <= j < i && existing[j].id == id
        invariant forall j :: 0 <= j < i ==>
                    entries[existing[j].id] == Entry(existing[j].config, existing[j].state, None, None)
      {
        entries := entries[existing[i].id := Entry(existing[i].config, existing[i].state, None, None)];
      }
      vms := entries;
      LoadedIsRecovered(s.disk, existing, entries);
    }

    static lemma LoadedIsRecovered(disk: Disk, existing: seq<Loaded>, entries: Vms)
      requires forall id, c, s :: Loaded(id, c, s) in existing <==> Recovered(disk, id) == Some((c, s))
      requires forall id :: id in entries <==> exists j :: 0 <= j < |existing| && existing[j].id == id
      requires forall j :: 0 <= j < |existing| ==>
                 entries[existing[j].id] == Entry(existing[j].config, existing[j].state, None, None)
      ensures entries == RecoveredMap(disk) && FlagIffRunning(entries)
    {
      forall id
        ensures id in entries <==> id in RecoveredMap(disk)
        ensures id in entries ==> entries[id] == RecoveredMap(disk)[id] && entries[id].state != Running
      {
        if id in entries {
          var j :| 0 <= j < |existing| && existing[j].id == id;
          assert Loaded(id, existing[j].config, existing[j].state) in existing;
        }
        if id in RecoveredMap(disk) {
          var (c, s) := Recovered(disk, id).value;
          assert Loaded(id, c, s) in existing;
        }
      }
    }

    /** `create_vm`: a failed save takes the entry out again. */
    method CreateVm(id: Id, config: Config, configOk: bool, saved: (bool, bool), left: Record)
      returns (r: Result<Entry, DaemonError>)
      requires Valid()
      modifies this`vms, store
      ensures Valid()
      ensures r.Ok? <==> SafeId(id) && configOk && id !in old(vms) && saved.0 && saved.1
      ensures r.Ok? ==> r.value == Entry(config, Created, None, None) && vms == old(vms)[id := r.value]
      ensures r == Err(InvalidId) <==> Forbidden(id)
      ensures r.Err? ==>
                && vms == old(vms)
                && r.error == if !SafeId(id) then InvalidId else if !configOk then InvalidConfig
                              else if id in old(vms) then AlreadyExists else Io
      ensures r.Ok? && old(Synced(vms, store.disk)) ==> Synced(vms, store.disk)
      ensures forall x :: x != id ==> RecordAt(store.disk, x) == RecordAt(old(store.disk), x)
    {
      hide Forbidden, SafeId, Synced, SavedConfig, SavedState;
      SafeIffNotForbidden(id);
      if !SafeId(id) {
        return Err(InvalidId);
      }
      if !configOk {
        return Err(InvalidConfig);
      }
      if id in vms {
        return Err(AlreadyExists);
      }
      SyncedInsert(vms, store.disk, id, config);
      var entry := Entry(config, Created, None, None);
      vms := vms[id := entry];
      var ok := store.SaveConfig(id, config, saved.0, left);
      if ok {
        ok := store.SaveState(id, Created, saved.1, left);
      }
      if !ok {
        vms := vms - {id};
        assert vms == old(vms);
        return Err(Io);
      }
      return Ok(entry);
    }

    /** `clone_vm`: creates with the configuration of another VM. */
    method CloneVm(src: Id, dest: Id, configOk: bool, saved: (bool, bool), left: Record)
      returns (r: Result<Entry, DaemonError>)
      requires Valid()
      modifies this`vms, store
      ensures Valid()
      ensures r.Ok? <==> src in old(vms) && SafeId(dest) && configOk && dest !in old(vms) && saved.0 && saved.1
      ensures r.Ok? ==> vms == old(vms)[dest := Entry(old(vms)[src].config, Created, None, None)]
      ensures r.Err? ==> vms == old(vms)
      ensures r.Ok? && old(Synced(vms, store.disk)) ==> Synced(vms, store.disk)
    {
      if src !in vms {
        return Err(NotFound);
      }
      r := CreateVm(dest, vms[src].config, configOk, saved, left);
    }

    /** `start_vm` up to the spawn: only a created VM starts; a failed save leaves it running. */
    method StartVm(id: Id, saved: bool, left: Record) returns (r: Result<Entry, DaemonError>)
      requires Valid()
      modifies this`vms, store
      ensures Valid()
      ensures match Begun(old(vms), id)
              case Ok(vms') => vms == vms' && (r.Ok? <==> saved)
              case Err(e) => r == Err(e) && vms == old(vms) && store.disk == old(store.disk)
      ensures r == Err(NotFound) <==> id !in old(vms)
      ensures id in old(vms) && old(vms)[id].state != Created ==> r == Err(InvalidState(old(vms)[id].state))
      ensures id in old(vms) && old(vms)[id].state == Created ==>
                && vms == old(vms)[id := Entry(old(vms)[id].config, Running, old(vms)[id].exitReason, Some(false))]
                && r == if saved then Ok(vms[id]) else Err(Io)
      ensures r.Ok? && old(Synced(vms, store.disk)) ==> Synced(vms, store.disk)
    {
      if id !in vms {
        return Err(NotFound);
      }
      if vms[id].state != Created {
        return Err(InvalidState(vms[id].state));
      }
      vms := vms[id := vms[id].(stopFlag := Some(false))];
      vms := vms[id := vms[id].(state := Running)];
      var ok := store.SaveState(id, Running, saved, left);
      if !ok {
        return Err(Io);
      }
      return Ok(vms[id]);
    }

    /** The end of the VM task: exit update, final save if the entry is there, completion. */
    method FinishVm(id: Id, result: RunResult, saved: bool, left: Record)
      requires Valid()
      modifies this`vms, this`completions, store
      ensures Valid() && vms == Exited(old(vms), id, result)
      ensures completions == old(completions) + [id]
      ensures vms.Keys == old(vms).Keys && forall x :: x in vms && x != id ==> vms[x] == old(vms)[x]
      ensures id in vms ==>
                ReportsExit(vms[id], result) && vms[id].stopFlag == None && vms[id].config == old(vms)[id].config
      ensures id in vms && saved ==> id in store.disk && store.disk[id].state == Some(vms[id].state)
      ensures id !in old(vms) ==> store.disk == old(store.disk)
      ensures saved && old(Synced(vms, store.disk)) ==> Synced(vms, store.disk)
    {
      hide ReasonText, Synced, ReportsExit;
      if id in vms {
        var entry := vms[id];
        match result {
          case Halt | Shutdown | Canceled => entry := entry.(state := Stopped, exitReason := Some(ReasonText(result)));
          case _ => entry := entry.(state := Failed, exitReason := Some(ReasonText(result)));
        }
        entry := entry.(stopFlag := None);
        ExitIsReported(entry, result);
        SyncedUpdate(vms, store.disk, id, entry);
        vms := vms[id := entry];
        var _ := store.SaveState(id, entry.state, saved, left);
      }
      completions := completions + [id];
    }

    /** `stop_vm`. */
    method StopVm(id: Id) returns (r: Result<Entry, DaemonError>)
      requires Valid()
      modifies this`vms
      ensures Valid()
      ensures match StopRequested(old(vms), id)
              case Ok(vms') => vms == vms' && r == Ok(vms[id]) && vms[id].stopFlag == Some(true)
              case Err(e) => r == Err(e) && vms == old(vms)
      ensures r.Ok? <==> id in old(vms) && old(vms)[id].state == Running
      ensures r.Ok? ==> vms == old(vms)[id := old(vms)[id].(stopFlag := Some(true))]
      ensures r.Err? ==> r.error == if id in old(vms) then InvalidState(old(vms)[id].state) else NotFound
    {
      if id !in vms {
        return Err(NotFound);
      }
      if vms[id].state != Running {
        return Err(InvalidState(vms[id].state));
      }
      if vms[id].stopFlag.Some? {
        vms := vms[id := vms[id].(stopFlag := Some(true))];
      }
      return Ok(vms[id]);
    }

    /** `delete_vm`: refused while running; the entry goes before the directory does. */
    method DeleteVm(id: Id, erased: bool, left: Record) returns (r: Result<(), DaemonError>)
      requires Valid()
      modifies this`vms, store
      ensures Valid()
      ensures match Removed(old(vms), id)
              case Ok(vms') => vms == vms' && (r.Ok? <==> erased)
              case Err(e) => r == Err(e) && vms == old(vms) && store.disk == old(store.disk)
      ensures r == Err(NotFound) <==> id !in old(vms)
      ensures id in old(vms) && old(vms)[id].state == Running ==> r == Err(InvalidState(Running))
      ensures id in old(vms) && old(vms)[id].state != Running ==>
                vms == old(vms) - {id} && r == if erased then Ok(()) else Err(Io)
      ensures r.Ok? && old(Synced(vms, store.disk)) ==> Synced(vms, store.disk)
    {
      if id !in vms {
        return Err(NotFound);
      }
      if vms[id].state == Running {
        return Err(InvalidState(Running));
      }
      vms := vms - {id};
      var ok := store.Delete(id, erased, left);
      return if ok then Ok(()) else Err(Io);
    }

    /** Every running VM outside `todo` flagged. */
    static function FlaggedBut(was: Vms, todo: set<Id>): Vms {
      map id | id in was :: if id in todo then was[id] else Flagged(was[id])
    }

    static lemma FlagNone(was: Vms)
      ensures FlaggedBut(was, was.Keys) == was && RunningIds(was) - was.Keys == {}
    {
    }

    static lemma FlagOne(was: Vms, todo: set<Id>, id: Id)
      requires id in todo && todo <= was.Keys
      ensures id in FlaggedBut(was, todo) && FlaggedBut(was, todo)[id] == was[id]
      ensures FlaggedBut(was, todo - {id}) == FlaggedBut(was, todo)[id := Flagged(was[id])]
      ensures id !in RunningIds(was) - todo
      ensures RunningIds(was) - (todo - {id}) ==
              if was[id].state == Running then (RunningIds(was) - todo) + {id} else RunningIds(was) - todo
    {
    }

    static lemma FlagAll(was: Vms)
      requires FlagIffRunning(was)
      ensures FlaggedBut(was, {}) == AllFlagged(was) && RunningIds(was) - {} == RunningIds(was)
      ensures RunningIds(was) == set id | id in was && was[id].state == Running
      ensures AllFlagged(was).Keys == was.Keys
      ensures forall id :: id in was ==>
                AllFlagged(was)[id] == if was[id].state == Running then was[id].(stopFlag := Some(true)) else was[id]
      ensures FlagIffRunning(AllFlagged(was))
    {
    }

    /** The lock section of `stop_all_and_wait`: flags every running VM and counts them. */
    method FlagRunning() returns (runningCount: nat)
      requires Valid()
      modifies this`vms
      ensures Valid() && vms == AllFlagged(old(vms)) && runningCount == |RunningIds(old(vms))|
      ensures runningCount == |set id | id in old(vms) && old(vms)[id].state == Running|
      ensures vms.Keys == old(vms).Keys
      ensures forall id :: id in vms ==>
                vms[id] == if old(vms)[id].state == Running then old(vms)[id].(stopFlag := Some(true)) else old(vms)[id]
    {
      hide RunningIds, FlaggedBut, AllFlagged, FlagIffRunning;
      runningCount := 0;
      var todo := vms.Keys;
      ghost var was, counted: set<Id> := vms, {};
      FlagNone(was);
      while todo != {}
        invariant todo <= was.Keys && vms == FlaggedBut(was, todo)
        invariant counted == RunningIds(was) - todo && runningCount == |counted|
        decreases |todo|
      {
        var id :| id in todo;
        FlagOne(was, todo, id);
        ghost var before := vms;
        todo := todo - {id};
        if vms[id].state == Running {
          if vms[id].stopFlag.Some? {
            vms := vms[id := vms[id].(stopFlag := Some(true))];
          }
          runningCount := runningCount + 1;
          counted := counted + {id};
        }
        assert vms == before[id := Flagged(was[id])];
      }
      FlagAll(was);
    }

    /**
     * The receive loop of `stop_all_and_wait`: it counts messages, whoever they come from.
     * `waits[i]` are the messages that arrive while it waits for the i-th one, None when the
     * deadline passes first; `got` are the messages it took.
     */
    method AwaitCompletions(runningCount: nat, waits: seq<Option<seq<Id>>>)
      returns (stopped: nat, ghost got: seq<Id>, ghost rounds: nat)
      requires runningCount <= |waits|
      modifies this`completions
      ensures stopped == |got| <= runningCount && stopped <= rounds <= |waits|
      ensures forall i :: 0 <= i < rounds ==> waits[i].Some?
      ensures got + completions == old(completions) + Arrived(waits[..rounds])
      ensures stopped == runningCount || completions == [] || (rounds < |waits| && waits[rounds].None?)
    {
      hide Arrived;
      stopped, got, rounds := 0, [], 0;
      assert waits[..0] == [];
      ArrivedNothing();
      while stopped < runningCount
        invariant stopped == |got| <= runningCount && rounds == stopped
        invariant forall i :: 0 <= i < rounds ==> waits[i].Some?
        invariant got + completions == old(completions) + Arrived(waits[..rounds])
      {
        if waits[stopped].None? {
          break;
        }
        ArrivedSnoc(waits, rounds);
        AppendAssoc(got, completions, old(completions), Arrived(waits[..rounds]), waits[stopped].value);
        completions := completions + waits[stopped].value;
        rounds := rounds + 1;
        if completions == [] {
          break;
        }
        TakeFirst(got, completions);
        got := got + [completions[0]];
        completions := completions[1..];
        stopped := stopped + 1;
      }
    }
  }

  /** The messages of several waits, in order. */
  function Arrived(waits: seq<Option<seq<Id>>>): seq<Id> {
    if waits == [] then []
    else
      var last := waits[|waits| - 1];
      Arrived(waits[..|waits| - 1]) + if last.Some? then last.value else []
  }

  lemma ArrivedNothing()
    ensures Arrived([]) == []
  {
  }

  lemma AppendAssoc(got: seq<Id>, c: seq<Id>, before: seq<Id>, arrived: seq<Id>, more: seq<Id>)
    requires got + c == before + arrived
    ensures got + (c + more) == before + (arrived + more)
  {
    assert got + (c + more) == (got + c) + more;
    assert before + (arrived + more) == (before + arrived) + more;
  }

  lemma TakeFirst(got: seq<Id>, c: seq<Id>)
    requires c != []
    ensures (got + [c[0]]) + c[1..] == got + c
  {
  }

  lemma ArrivedSnoc(waits: seq<Option<seq<Id>>>, n: nat)
    requires n < |waits| && waits[n].Some?
    ensures Arrived(waits[..n + 1]) == Arrived(waits[..n]) + waits[n].value
  {
    assert waits[..n + 1][..n] == waits[..n];
  }

  // ---- Restart ----------------------------------------------------------------------------

  const RESTART_POLLS: nat := 50

  predicate Ended(vms: Vms, id: Id) {
    id in vms && (vms[id].state == Stopped || vms[id].state == Failed)
  }

  /**
   * A restart that finds the maps `seen` at its lock sections gets through with poll `p`: the
   * stop is accepted, poll `p` is the first to find the VM ended, none before it misses the VM,
   * and the start that follows finds it created.
   */
  predicate RestartsAt(seen: seq<Vms>, id: Id, p: nat)
    requires |seen| == RESTART_POLLS + 2
  {
    && StopRequested(seen[0], id).Ok?
    && 1 <= p <= RESTART_POLLS
    && (forall q :: 1 <= q < p ==> id in seen[q] && !Ended(seen[q], id))
    && Ended(seen[p], id)
    && Begun(seen[p + 1], id).Ok?
  }

  /** Only the first poll that finds the VM gone or ended can decide a restart. */
  lemma FirstEnded(seen: seq<Vms>, id: Id, n: nat)
    requires |seen| == RESTART_POLLS + 2 && 1 <= n <= RESTART_POLLS
    requires forall q :: 1 <= q < n ==> id in seen[q] && !Ended(seen[q], id)
    ensures forall p: nat :: RestartsAt(seen, id, p) ==> n <= p && (n < p ==> id in seen[n] && !Ended(seen[n], id))
  {
  }

  /**
   * `restart_vm`: stop, poll, start.  `seen` are the maps found at its successive lock sections,
   * other operations running in between; the result is the map after the start.
   */
  method RestartVm(id: Id, seen: seq<Vms>) returns (r: Result<Vms, DaemonError>, polls: nat)
    requires |seen| == 52
    ensures polls <= 50
    ensures r.Ok? <==> exists p :: RestartsAt(seen, id, p)
    ensures r.Ok? ==> RestartsAt(seen, id, polls) && r == Begun(seen[polls + 1], id)
    ensures r.Err? && StopRequested(seen[0], id).Err? ==> r.error == StopRequested(seen[0], id).error
    ensures r.Err? && StopRequested(seen[0], id).Ok? ==>
              && polls > 0
              && (|| (r.error == NotFound && id !in seen[polls])
                  || (r == Begun(seen[polls + 1], id) && Ended(seen[polls], id))
                  || (r.error == Timeout && polls == 50 && !Ended(seen[polls], id)))
  {
    polls := 0;
    var stop := StopRequested(seen[0], id);
    if stop.Err? {
      return Err(stop.error), polls;
    }
    var stopped := false;
    while polls < RESTART_POLLS && !stopped
      invariant polls <= RESTART_POLLS
      invariant forall q :: 1 <= q < polls ==> id in seen[q] && !Ended(seen[q], id)
      invariant polls > 0 ==> id in seen[polls] && stopped == Ended(seen[polls], id)
      invariant stopped ==> polls > 0
    {
      polls := polls + 1;
      if id !in seen[polls] {
        FirstEnded(seen, id, polls);
        return Err(NotFound), polls;
      }
      stopped := seen[polls][id].state == Stopped || seen[polls][id].state == Failed;
    }
    FirstEnded(seen, id, polls);
    if !stopped {
      return Err(Timeout), polls;
    }
    r := Begun(seen[polls + 1], id);
    assert r.Ok? <==> RestartsAt(seen, id, polls);
  }
}
