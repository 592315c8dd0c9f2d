/**
 * The persistent store (`StateStore`): one directory per VM holding a config file and a state
 * file.  The disk is a map from id to record, so different ids mean different directories.
 */
module VmStore {
  import opened Bytes

  type Id = string
  /** A VM configuration, as its JSON text. */
  type Config = string

  datatype VmState = Created | Running | Stopped | Failed

  /** What a VM directory holds; None for a missing or unreadable file. */
  datatype Record = Record(config: Option<Config>, state: Option<VmState>)

  type Disk = map<Id, Record>

  function RecordAt(disk: Disk, id: Id): Record {
    if id in disk then disk[id] else Record(None, None)
  }

  /** No other directory differs. */
  ghost predicate OnlyAt(disk: Disk, disk': Disk, id: Id) {
    forall x :: x != id ==> (x in disk' <==> x in disk) && (x in disk ==> disk'[x] == disk[x])
  }

  function SavedConfig(disk: Disk, id: Id, c: Config): Disk {
    disk[id := RecordAt(disk, id).(config := Some(c))]
  }

  function SavedState(disk: Disk, id: Id, s: VmState): Disk {
    disk[id := RecordAt(disk, id).(state := Some(s))]
  }

  function Erased(disk: Disk, id: Id): Disk { disk - {id} }

  function Clamp(s: VmState): VmState { if s == Running then Stopped else s }

  /** What `load_all` makes of one directory. */
  function Recovered(disk: Disk, id: Id): Option<(Config, VmState)> {
    var r := RecordAt(disk, id);
    if r.config.None? then None
    else Some((r.config.value, if r.state.None? then Created else Clamp(r.state.value)))
  }

  /** What a directory must hold for a VM to be recovered as `c` and `s`. */
  predicate Says(disk: Disk, id: Id, c: Config, s: VmState) {
    && id in disk && disk[id].config == Some(c)
    && (disk[id].state == None ==> s == Created)
    && (disk[id].state == Some(Running) ==> s == Stopped)
    && (disk[id].state != None && disk[id].state != Some(Running) ==> disk[id].state == Some(s))
  }

  lemma RecoveredMeans(disk: Disk, id: Id, c: Config, s: VmState)
    ensures Recovered(disk, id) == Some((c, s)) <==> Says(disk, id, c, s)
  {
  }

  datatype Loaded = Loaded(id: Id, config: Config, state: VmState)

  class StateStore {
    var disk: Disk

    constructor (initial: Disk)
      ensures disk == initial
    {
      disk := initial;
    }

    /** `left` is what a failed write leaves in the directory. */
    method SaveConfig(id: Id, c: Config, ok: bool, left: Record) returns (done: bool)
      modifies this
      ensures done == ok
      ensures disk == if ok then SavedConfig(old(disk), id, c) else old(disk)[id := left]
      ensures OnlyAt(old(disk), disk, id)
      ensures ok ==> id in disk && disk[id].config == Some(c) && disk[id].state == RecordAt(old(disk), id).state
    {
      if !ok {
        disk := disk[id := left];
        return false;
      }
      var rec := if id in disk then disk[id] else Record(None, None);
      disk := disk[id := rec.(config := Some(c))];
      return true;
    }

    method SaveState(id: Id, s: VmState, ok: bool, left: Record) returns (done: bool)
      modifies this
      ensures done == ok
      ensures disk == if ok then SavedState(old(disk), id, s) else old(disk)[id := left]
      ensures OnlyAt(old(disk), disk, id)
      ensures ok ==> id in disk && disk[id].state == Some(s) && disk[id].config == RecordAt(old(disk), id).config
    {
      if !ok {
        disk := disk[id := left];
        return false;
      }
      var rec := if id in disk then disk[id] else Record(None, None);
      disk := disk[id := rec.(state := Some(s))];
      return true;
    }

    method Delete(id: Id, ok: bool, left: Record) returns (done: bool)
      modifies this
      ensures done == ok
      ensures disk == if ok then Erased(old(disk), id) else old(disk)[id := left]
      ensures OnlyAt(old(disk), disk, id)
      ensures ok ==> id !in disk
    {
      if !ok {
        disk := disk[id := left];
        return false;
      }
      disk := disk - {id};
      return true;
    }

    /** `load_all`: visits the directories in some order and collects the recoverable VMs, each once. */
    method LoadAll() returns (results: seq<Loaded>)
      ensures forall i, j :: 0 <= i < j < |results| ==> results[i].id != results[j].id
      ensures forall id, c, s :: Loaded(id, c, s) in results <==> Recovered(disk, id) == Some((c, s))
      ensures forall id, c, s :: Loaded(id, c, s) in results <==> Says(disk, id, c, s)
    {
      hide Says;
      results := [];
      var todo := disk.Keys;
      while todo != {}
        invariant todo <= disk.Keys
        invariant forall r :: r in results ==> r.id !in todo
        invariant forall i, j :: 0 <= i < j < |results| ==> results[i].id != results[j].id
        invariant forall id, c, s :: Loaded(id, c, s) in results <==>
                                     id !in todo && Recovered(disk, id) == Some((c, s))
        decreases |todo|
      {
        var id :| id in todo;
        todo := todo - {id};
        var rec := disk[id];
        if rec.config.Some? {
          var state := if rec.state.None? then Created
                       else if rec.state.value == Running then Stopped else rec.state.value;
          results := results + [Loaded(id, rec.config.value, state)];
        }
      }
      forall id, c, s ensures Recovered(disk, id) == Some((c, s)) <==> Says(disk, id, c, s) {
        RecoveredMeans(disk, id, c, s);
      }
    }
  }
}
