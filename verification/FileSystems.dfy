/**
 * The store directory. Every operation may fail; each effect of an operation
 * on the directory is recorded in `trace`, so that the states in which a crash
 * can leave the disk are the elements of `trace`.
 */
module FileSystems {
  import opened Documents
  import opened TxIds
  import opened Replay
  import Checkpoints

  // A store directory: not made yet, without a meta file that names the
  // supported version, or complete.
  datatype Home = Missing | Unfinished | Ready

  class HomeDirectory {
    var state: Home
    // Every state it has been in, so that a crash may have left any of them.
    var states: seq<Home>
    // How many operations on it have failed.
    ghost var faults: nat

    constructor (state: Home)
      ensures this.state == state && states == [state] && faults == 0
    {
      this.state := state;
      states := [state];
      faults := 0;
    }

    method Become(next: Home)
      modifies this`state, this`states
      ensures state == next && states == old(states) + [next]
    {
      state := next;
      states := states + [next];
    }

    // Making the directory, or writing its meta file. One that fails leaves the
    // directory as it was, or with a meta file that does not decode.
    method TryToBecome(next: Home) returns (ok: bool)
      modifies this
      ensures state == if ok then next else old(state)
      ensures states == old(states) + if ok then [next] else []
      ensures faults == old(faults) + if ok then 0 else 1
    {
      ok := *;
      if ok {
        Become(next);
      }
      faults := faults + if ok then 0 else 1;
    }

    // Reading the meta file, if it is there.
    method TryToRead() returns (ok: bool)
      modifies this`faults
      ensures faults == old(faults) + if ok then 0 else 1
    {
      ok := *;
      faults := faults + if ok then 0 else 1;
    }

    // The start of openStore: makes the directory and then its meta file, or
    // checks them. Nothing ever completes a directory that was left without its
    // meta file.
    method Prepare(ignoreVersionCheck: bool) returns (ok: bool)
      modifies this
      ensures faults >= old(faults)
      ensures ok <==> faults == old(faults) && (ignoreVersionCheck || old(state) != Unfinished)
      ensures ok ==> state == if old(state) == Missing then Ready else old(state)
      ensures old(state) != Missing ==> state == old(state) && states == old(states)
      ensures old(state) == Missing ==>
        || (state == Missing && states == old(states))
        || (state == Unfinished && states == old(states) + [Unfinished])
        || (state == Ready && states == old(states) + [Unfinished, Ready])
    {
      if state == Missing {
        ok := TryToBecome(Unfinished);
        if !ok { return; }
        ok := TryToBecome(Ready);
        if !ok { return; }
      }
      if !ignoreVersionCheck {
        ok := TryToRead();
        if !ok { return; }
        if state == Unfinished {
          return false;
        }
      }
      ok := true;
    }
  }

  // The states on the way from a missing directory.
  function Making(home: Home): seq<Home> {
    match home
    case Missing => []
    case Unfinished => [Unfinished]
    case Ready => [Unfinished, Ready]
  }

  // The store directory after an attempt to open it: one without a meta file
  // can not be opened, and only the first opening can leave it so.
  ghost predicate HomeAfter(was: Home, states: seq<Home>, home: HomeDirectory, isOpen: bool, ignoreVersionCheck: bool)
    reads home
  {
    && (isOpen ==> ignoreVersionCheck || was != Unfinished)
    && (isOpen ==> home.state == if was == Missing then Ready else was)
    && (was != Missing ==> home.state == was && home.states == states)
    && (was == Missing ==> home.states == states + Making(home.state))
  }

  // What a crash leaves of a life that opened no directory without a meta file
  // and left none behind a complete one.
  predicate HomeSurvives(was: Home, after: Home, isOpen: bool, ignoreVersionCheck: bool) {
    && (was != Missing ==> after == was)
    && (was == Unfinished && !ignoreVersionCheck ==> !isOpen)
  }

  class FileSystem {
    const home: HomeDirectory
    var disk: Disk
    var trace: seq<Disk>
    // How many operations have failed.
    ghost var faults: nat

    constructor (disk: Disk, home: Home)
      ensures this.disk == disk && trace == [disk] && faults == 0
      ensures fresh(this.home) && this.home.state == home && this.home.states == [home]
    {
      this.home := new HomeDirectory(home);
      this.disk := disk;
      trace := [disk];
      faults := 0;
    }

    // One effect, of an operation that succeeds or fails with it.
    method Put(next: Disk, ok: bool)
      modifies this
      ensures disk == next && trace == old(trace) + [next]
      ensures faults == old(faults) + if ok then 0 else 1
    {
      disk := next;
      trace := trace + [next];
      faults := faults + if ok then 0 else 1;
    }

    // Nothing happens for a while; a crash may come.
    method Pause()
      modifies this
      ensures disk == old(disk) && trace == old(trace) + [disk] && faults == old(faults)
    {
      Put(disk, true);
    }

    // The home directory is complete, and the permissions of the files could be set.
    method CheckHome(ignoreVersionCheck: bool) returns (ok: bool)
      modifies this, home
      ensures disk == old(disk) && trace == old(trace) + [disk] && faults >= old(faults)
      ensures ok <==> faults == old(faults) && (ignoreVersionCheck || old(home.state) != Unfinished)
      ensures HomeAfter(old(home.state), old(home.states), home, ok, ignoreVersionCheck)
    {
      ghost var before := home.faults;
      ok := home.Prepare(ignoreVersionCheck);
      Put(disk, true);
      faults := faults + home.faults - before;
      if ok {
        ok := TryToRead();
      }
    }

    // os.Remove of a temporary file: succeeds when the file is gone.
    method RemoveCheckpointTmp() returns (ok: bool)
      modifies this
      ensures trace == old(trace) + [disk] && faults == old(faults) + if ok then 0 else 1
      ensures disk == old(disk).(checkpointTmp := disk.checkpointTmp)
      ensures ok ==> disk.checkpointTmp.None?
    {
      ok := *;
      Put(if ok then disk.(checkpointTmp := None) else disk, ok);
    }

    method RemoveActiveTmp() returns (ok: bool)
      modifies this
      ensures trace == old(trace) + [disk] && faults == old(faults) + if ok then 0 else 1
      ensures disk == old(disk).(activeTmp := disk.activeTmp)
      ensures ok ==> !disk.activeTmp
    {
      ok := *;
      Put(if ok then disk.(activeTmp := false) else disk, ok);
    }

    method CreateCheckpointTmp() returns (ok: bool)
      modifies this
      ensures trace == old(trace) + [disk] && faults == old(faults) + if ok then 0 else 1
      ensures disk == old(disk).(checkpointTmp := disk.checkpointTmp)
      ensures ok ==> disk.checkpointTmp == Some([])
    {
      ok := *;
      Put(if ok then disk.(checkpointTmp := Some([])) else disk, ok);
    }

    // A failed write leaves some prefix of the tokens in the file.
    method WriteCheckpointTmp(tokens: seq<Checkpoints.Token>) returns (ok: bool)
      requires disk.checkpointTmp.Some?
      modifies this
      ensures trace == old(trace) + [disk] && faults == old(faults) + if ok then 0 else 1
      ensures disk == old(disk).(checkpointTmp := disk.checkpointTmp)
      ensures ok ==> disk.checkpointTmp == Some(old(disk.checkpointTmp.value) + tokens)
    {
      ok := *;
      var written: int :| 0 <= written <= |tokens| && (ok ==> written == |tokens|);
      assert tokens[..|tokens|] == tokens;
      Put(disk.(checkpointTmp := Some(disk.checkpointTmp.value + tokens[..written])), ok);
    }

    // os.Rename is atomic: the data file appears complete or not at all.
    method RenameCheckpointTmp(id: TxId) returns (ok: bool)
      requires disk.checkpointTmp.Some?
      modifies this
      ensures trace == old(trace) + [disk] && faults == old(faults) + if ok then 0 else 1
      ensures disk == if !ok then old(disk) else old(disk).(
        files := old(disk).files[id := old(disk).checkpointTmp.value], checkpointTmp := None)
    {
      ok := *;
      Put(if ok then disk.(files := disk.files[id := disk.checkpointTmp.value], checkpointTmp := None) else disk, ok);
    }

    method WriteActiveTmp() returns (ok: bool)
      modifies this
      ensures trace == old(trace) + [disk] && faults == old(faults) + if ok then 0 else 1
      ensures disk == old(disk).(activeTmp := disk.activeTmp)
      ensures ok ==> disk.activeTmp
    {
      ok := *;
      Put(if ok then disk.(activeTmp := true) else disk, ok);
    }

    method RenameActiveTmp(id: TxId) returns (ok: bool)
      requires disk.activeTmp
      modifies this
      ensures trace == old(trace) + [disk] && faults == old(faults) + if ok then 0 else 1
      ensures disk == if !ok then old(disk) else old(disk).(activeTmp := false, activeMarker := Some(id))
    {
      ok := *;
      Put(if ok then disk.(activeTmp := false, activeMarker := Some(id)) else disk, ok);
    }

    // Removing a file that does not exist counts as success.
    method RemoveDataFile(id: TxId) returns (ok: bool)
      modifies this
      ensures trace == old(trace) + [disk] && faults == old(faults) + if ok then 0 else 1
      ensures disk == if !ok then old(disk) else old(disk).(files := old(disk).files - {id})
    {
      ok := *;
      Put(if ok then disk.(files := disk.files - {id}) else disk, ok);
    }

    // The rename of a data file that does not decode to `<name>.corrupted`.
    method SetAsideDataFile(id: TxId) returns (ok: bool)
      modifies this
      ensures trace == old(trace) + [disk] && faults == old(faults) + if ok then 0 else 1
      ensures disk == if !ok then old(disk) else old(disk).(files := old(disk).files - {id})
    {
      ok := *;
      Put(if ok then disk.(files := disk.files - {id}) else disk, ok);
    }

    // Opening for append, with O_TRUNC if `truncate`. A failure after the
    // open leaves the truncation in place.
    method OpenLog(truncate: bool) returns (ok: bool)
      modifies this
      ensures trace == old(trace) + [disk] && faults == old(faults) + if ok then 0 else 1
      ensures disk == old(disk) || (truncate && disk == old(disk).(log := []))
      ensures ok && truncate ==> disk.log == []
    {
      ok := *;
      var reached: bool := *;
      Put(if truncate && (ok || reached) then disk.(log := []) else disk, ok);
    }

    // Truncate(0) and Seek. A failed seek leaves the truncation in place.
    method TruncateLog() returns (ok: bool)
      modifies this
      ensures trace == old(trace) + [disk] && faults == old(faults) + if ok then 0 else 1
      ensures disk == old(disk) || disk == old(disk).(log := [])
      ensures ok ==> disk.log == []
    {
      ok := *;
      var truncated: bool := *;
      Put(if ok || truncated then disk.(log := []) else disk, ok);
    }

    // The bytes of an entry reach the file in order. The write stops
    // somewhere; a crash may come before any of them.
    method AppendEntry(id: TxId, op: Op) returns (ok: bool, ghost stage: nat)
      modifies this
      ensures stage <= 4 && (ok ==> stage == 4) && faults == old(faults) + if ok then 0 else 1
      ensures disk == old(disk).(log := old(disk).log + Partial(stage, id, op))
      ensures |trace| == |old(trace)| + stage + 1 && old(trace) == trace[..|old(trace)|]
      ensures forall i :: |old(trace)| <= i < |trace| ==>
        trace[i] == old(disk).(log := old(disk).log + Partial(i - |old(trace)|, id, op))
    {
      var before := disk;
      ok := *;
      var last: int :| 0 <= last <= 4 && (ok ==> last == 4);
      var s := 0;
      Put(before, ok);
      assert before.log + Partial(0, id, op) == before.log;
      while s < last
        invariant s <= last
        invariant faults == old(faults) + if ok then 0 else 1
        invariant disk == before.(log := before.log + Partial(s, id, op))
        invariant |trace| == |old(trace)| + s + 1 && old(trace) == trace[..|old(trace)|]
        invariant forall i :: |old(trace)| <= i < |trace| ==>
          trace[i] == before.(log := before.log + Partial(i - |old(trace)|, id, op))
      {
        s := s + 1;
        Put(before.(log := before.log + Partial(s, id, op)), true);
      }
      stage := s;
    }

    // An operation that only reads.
    method TryToRead() returns (ok: bool)
      modifies this`faults
      ensures faults == old(faults) + if ok then 0 else 1
    {
      ok := *;
      faults := faults + if ok then 0 else 1;
    }

    // The data file as it decodes. A read that fails on the way looks like a
    // file that does not decode.
    method ReadDataFile(id: TxId) returns (content: Option<Table>, misread: bool)
      requires id in disk.files
      modifies this`faults
      ensures faults == old(faults) + if misread then 1 else 0
      ensures content == if misread then None else Checkpoints.Decode(disk.files[id])
    {
      content := Checkpoints.Decode(disk.files[id]);
      misread := *;
      if misread {
        content := None;
        faults := faults + 1;
      }
    }

    // The log as far as it can be read. A read that fails between two documents
    // looks like the end of the log, and within one like a document cut short.
    method ReadLog() returns (seen: seq<Token>, misread: bool)
      modifies this`faults
      ensures faults == old(faults) + if misread then 1 else 0
      ensures if misread then IsCutShort(seen, disk.log) else seen == disk.log
    {
      seen := disk.log;
      misread := *;
      if misread {
        var n: int :| 0 <= n <= |disk.log|;
        var within: bool := *;
        seen := disk.log[..n] + if within then [Torn] else [];
        faults := faults + 1;
        assert seen == disk.log[..n] || seen == disk.log[..n] + [Torn];
      }
    }

    // The numbered data files, in the order the directory lists them.
    method ListDataFiles() returns (infos: seq<TxId>, ok: bool)
      modifies this`faults
      ensures faults == old(faults) + if ok then 0 else 1
      ensures ok ==> forall id :: id in infos <==> id in disk.files
      ensures ok ==> forall i, j :: 0 <= i < j < |infos| ==> infos[i] != infos[j]
    {
      infos := [];
      ok := TryToRead();
      if !ok {
        return;
      }
      var left := disk.files.Keys;
      while left != {}
        invariant left <= disk.files.Keys
        invariant forall id :: id in infos <==> id in disk.files.Keys - left
        invariant forall i, j :: 0 <= i < j < |infos| ==> infos[i] != infos[j]
        decreases left
      {
        var id :| id in left;
        assert id !in infos;
        infos := infos + [id];
        left := left - {id};
      }
    }
  }
}
