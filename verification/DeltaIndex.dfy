/** Sequence-numbered index deltas: what a peer that already holds a mirror still has to be sent. */
module DeltaIndex {
  import opened FileTypes

  type IndexId = nat
  type Device = nat

  // ---- The folder's entries and sequence counter ----

  /** The entries with the next sequence numbers assigned in order. */
  function Numbered(files: seq<FileInfo>, sequence: nat): seq<FileInfo> {
    if files == [] then []
    else [files[0].(sequence := sequence + 1)] + Numbered(files[1..], sequence + 1)
  }

  /** The entries with a sequence number above `since`. */
  function Newer(m: Files, since: nat): Files {
    map n | n in m && m[n].sequence > since :: m[n]
  }

  lemma {:induction false} NumberedIs(files: seq<FileInfo>, sequence: nat)
    ensures |Numbered(files, sequence)| == |files|
    ensures forall i :: 0 <= i < |files| ==> Numbered(files, sequence)[i] == files[i].(sequence := sequence + 1 + i)
    decreases |files|
  {
    if files != [] {
      NumberedIs(files[1..], sequence + 1);
    }
  }

  class FolderStore {
    var files: Files
    var sequence: nat
    var indexMeta: Option<(IndexId, nat)>

    constructor ()
      ensures files == map[] && sequence == 0 && indexMeta == None
    {
      files, sequence, indexMeta := map[], 0, None;
    }

    method IncrementSequence() returns (s: nat)
      modifies this`sequence
      ensures s == sequence == old(sequence) + 1
    {
      sequence := sequence + 1;
      return sequence;
    }

    /** Numbers entries from the folder's counter. */
    method AssignSequences(files: seq<FileInfo>) returns (numbered: seq<FileInfo>)
      modifies this`sequence
      ensures numbered == Numbered(files, old(sequence))
      ensures sequence == old(sequence) + |files|
    {
      numbered := [];
      for i := 0 to |files|
        invariant sequence == old(sequence) + i
        invariant numbered + Numbered(files[i..], sequence) == Numbered(files, old(sequence))
      {
        assert files[i..][1..] == files[i + 1..];
        var s := IncrementSequence();
        numbered := numbered + [files[i].(sequence := s)];
      }
    }

    method UpdateFiles(batch: seq<FileInfo>)
      modifies this`files
      ensures files == StoreAll(old(files), batch)
    {
      for i := 0 to |batch|
        invariant StoreAll(files, batch[i..]) == StoreAll(old(files), batch)
      {
        assert batch[i..][1..] == batch[i + 1..];
        files := files[batch[i].name := batch[i]];
      }
    }

    /** A scan numbers what it found changed and persists it. */
    method PersistScan(changed: seq<FileInfo>)
      modifies this`files, this`sequence
      ensures files == StoreAll(old(files), Numbered(changed, old(sequence)))
      ensures sequence == old(sequence) + |changed|
    {
      var numbered := AssignSequences(changed);
      UpdateFiles(numbered);
    }
  }

  // ---- The manager ----

  datatype Payload = Full(files: Files) | Delta(id: IndexId, start: nat, files: Files)

  datatype State = State(files: Files, sequence: nat, localId: Option<IndexId>,
                         remoteIds: map<Device, IndexId>, remoteMax: map<Device, nat>)

  datatype Op =
    | UpdateIndex(batch: seq<FileInfo>, drawn: IndexId)
    | ScanChanges(changed: seq<FileInfo>)
    | RotateId(drawn: IndexId)
    | Register(device: Device, id: IndexId, sequence: nat)
    | StoreRemote(info: FileInfo)

  function Apply(s: State, op: Op): State {
    match op
    case UpdateIndex(batch, drawn) =>
      s.(files := StoreAll(s.files, Numbered(batch, s.sequence)), sequence := s.sequence + |batch|,
         localId := if s.localId.Some? then s.localId else Some(drawn))
    case ScanChanges(changed) =>
      s.(files := StoreAll(s.files, Numbered(changed, s.sequence)), sequence := s.sequence + |changed|)
    case RotateId(drawn) =>
      s.(sequence := 0, localId := Some(drawn))
    case Register(device, id, sequence) =>
      s.(remoteIds := s.remoteIds[device := id], remoteMax := s.remoteMax[device := sequence])
    case StoreRemote(info) =>
      s.(files := s.files[info.name := info])
  }

  function DeltaFor(s: State, device: Device): Option<Payload> {
    if s.localId.None? || device !in s.remoteIds || s.localId.value != s.remoteIds[device] then None
    else
      var since := if device in s.remoteMax then s.remoteMax[device] else 0;
      Some(Delta(s.localId.value, since, Newer(s.files, since)))
  }

  function Prepared(s: State, device: Device): Payload {
    var delta := DeltaFor(s, device);
    if delta.Some? && delta.value.files != map[] then delta.value else Full(s.files)
  }

  class IndexManager {
    const db: FolderStore
    var localId: Option<IndexId>
    var localMaxSequence: nat
    var remoteIds: map<Device, IndexId>
    var remoteMax: map<Device, nat>

    ghost function Abstract(): State
      reads this, db
    {
      State(db.files, db.sequence, localId, remoteIds, remoteMax)
    }

    constructor (db: FolderStore)
      ensures this.db == db
      ensures Abstract() == State(db.files, db.sequence,
                                  if db.indexMeta.Some? then Some(db.indexMeta.value.0) else None, map[], map[])
      ensures localMaxSequence == db.sequence
    {
      this.db := db;
      localId := if db.indexMeta.Some? then Some(db.indexMeta.value.0) else None;
      localMaxSequence := db.sequence;
      remoteIds, remoteMax := map[], map[];
    }

    method RegisterRemoteIndex(device: Device, id: IndexId, maxSequence: nat)
      modifies this`remoteIds, this`remoteMax
      ensures Abstract() == Apply(old(Abstract()), Register(device, id, maxSequence))
    {
      remoteIds := remoteIds[device := id];
      remoteMax := remoteMax[device := maxSequence];
    }

    method GetIndexDelta(device: Device) returns (r: Option<Payload>)
      ensures r == DeltaFor(Abstract(), device)
    {
      if localId.None? || device !in remoteIds {
        return None;
      }
      if localId.value != remoteIds[device] {
        return None;
      }
      var since := if device in remoteMax then remoteMax[device] else 0;
      var files := map n | n in db.files && db.files[n].sequence > since :: db.files[n];
      return Some(Delta(localId.value, since, files));
    }

    /** Gives the folder a new index ID and restarts its sequence numbers; `drawn` is the random ID drawn. */
    method UpdateIndexId(drawn: IndexId)
      modifies this`localId, this`localMaxSequence, db`sequence, db`indexMeta
      ensures Abstract() == Apply(old(Abstract()), RotateId(drawn))
      ensures localMaxSequence == db.sequence == 0 && db.indexMeta == Some((drawn, 0)) && localId == Some(drawn)
    {
      localId := Some(drawn);
      localMaxSequence := 0;
      db.sequence := 0;
      db.indexMeta := Some((drawn, 0));
    }

    /** Numbers and stores a batch; `drawn` is the ID drawn in case the folder has none yet. */
    method UpdateIndexWith(batch: seq<FileInfo>, drawn: IndexId) returns (numbered: seq<FileInfo>)
      modifies this`localId, this`localMaxSequence, db
      ensures numbered == Numbered(batch, old(db.sequence))
      ensures Abstract() == Apply(old(Abstract()), UpdateIndex(batch, drawn))
      ensures localMaxSequence == db.sequence
      ensures localId.Some? && db.indexMeta == Some((localId.value, db.sequence))
    {
      if localId.None? {
        localId := Some(drawn);
      }
      numbered := db.AssignSequences(batch);
      db.UpdateFiles(numbered);
      localMaxSequence := db.sequence;
      db.indexMeta := Some((localId.value, db.sequence));
    }

    method PrepareIndexForDevice(device: Device) returns (p: Payload)
      ensures p == Prepared(Abstract(), device)
    {
      var delta := GetIndexDelta(device);
      if delta.Some? && delta.value.files != map[] {
        return delta.value;
      }
      return Full(db.files);
    }
  }

  // ---- The peer's mirror ----

  /** Everything that differs from the mirror is numbered above `since`. */
  ghost predicate Covered(mirror: Files, files: Files, since: nat) {
    && mirror.Keys <= files.Keys
    && (forall n :: n in files ==> (n in mirror && mirror[n] == files[n]) || files[n].sequence > since)
  }

  /** Overlaying the delta completes the mirror exactly when it is covered. */
  lemma {:induction false} DeltaCompletesIff(mirror: Files, files: Files, since: nat)
    ensures mirror + Newer(files, since) == files <==> Covered(mirror, files, since)
  {
  }

  lemma {:induction false} StoreAllCovered(mirror: Files, files: Files, batch: seq<FileInfo>, sequence: nat, since: nat)
    requires Covered(mirror, files, since) && since <= sequence
    ensures Covered(mirror, StoreAll(files, Numbered(batch, sequence)), since)
    decreases |batch|
  {
    if batch != [] {
      var first := batch[0].(sequence := sequence + 1);
      assert Numbered(batch, sequence)[0] == first;
      assert Numbered(batch, sequence)[1..] == Numbered(batch[1..], sequence + 1);
      StoreAllCovered(mirror, files[first.name := first], batch[1..], sequence + 1, since);
    }
  }

  lemma {:induction false} StoreAllKeeps(files: Files, batch: seq<FileInfo>)
    ensures files.Keys <= StoreAll(files, batch).Keys
    decreases |batch|
  {
    if batch != [] {
      StoreAllKeeps(files[batch[0].name := batch[0]], batch[1..]);
    }
  }

  /** What holds from a registration on: the device's record is unchanged, no name is lost,
      and while the index ID lasts the mirror stays covered. */
  ghost predicate Tracking(s: State, device: Device, id: IndexId, since: nat, mirror: Files) {
    && device in s.remoteIds && s.remoteIds[device] == id
    && device in s.remoteMax && s.remoteMax[device] == since
    && mirror.Keys <= s.files.Keys
    && (s.localId == Some(id) ==> since <= s.sequence && Covered(mirror, s.files, since))
  }

  /** Operations after a registration: the device is not registered again, new index IDs are
      different ones, and entries taken over from peers are numbered above the registered sequence. */
  ghost predicate Permitted(op: Op, device: Device, id: IndexId, since: nat) {
    match op
    case UpdateIndex(_, drawn) => drawn != id
    case ScanChanges(_) => true
    case RotateId(drawn) => drawn != id
    case Register(other, _, _) => other != device
    case StoreRemote(info) => info.sequence > since
  }

  lemma {:induction false} ApplyTracks(s: State, op: Op, device: Device, id: IndexId, since: nat, mirror: Files)
    requires Tracking(s, device, id, since, mirror) && Permitted(op, device, id, since)
    ensures Tracking(Apply(s, op), device, id, since, mirror)
  {
    hide Numbered, StoreAll, Covered;
    match op
    case UpdateIndex(batch, drawn) =>
      StoreAllKeeps(s.files, Numbered(batch, s.sequence));
      if s.localId == Some(id) {
        StoreAllCovered(mirror, s.files, batch, s.sequence, since);
      }
    case ScanChanges(changed) =>
      StoreAllKeeps(s.files, Numbered(changed, s.sequence));
      if s.localId == Some(id) {
        StoreAllCovered(mirror, s.files, changed, s.sequence, since);
      }
    case RotateId(_) =>
    case Register(_, _, _) =>
    case StoreRemote(info) =>
      if s.localId == Some(id) {
        StoreCovered(mirror, s.files, info, since);
      }
  }

  lemma {:induction false} StoreCovered(mirror: Files, files: Files, info: FileInfo, since: nat)
    requires Covered(mirror, files, since) && info.sequence > since
    ensures Covered(mirror, files[info.name := info], since)
  {
  }

  function RunOps(s: State, ops: seq<Op>): State
    decreases |ops|
  {
    if ops == [] then s else RunOps(Apply(s, ops[0]), ops[1..])
  }

  lemma {:induction false} RunTracks(s: State, ops: seq<Op>, device: Device, id: IndexId, since: nat, mirror: Files)
    requires Tracking(s, device, id, since, mirror)
    requires forall op :: op in ops ==> Permitted(op, device, id, since)
    ensures Tracking(RunOps(s, ops), device, id, since, mirror)
    decreases |ops|
  {
    hide Apply, Tracking, Permitted;
    if ops != [] {
      assert ops[0] in ops;
      ApplyTracks(s, ops[0], device, id, since, mirror);
      RunTracks(Apply(s, ops[0]), ops[1..], device, id, since, mirror);
    }
  }

  lemma {:induction false} TrackedPayload(s: State, device: Device, id: IndexId, since: nat, mirror: Files)
    requires Tracking(s, device, id, since, mirror)
    ensures mirror + Prepared(s, device).files == s.files
  {
  }

  ghost predicate PermittedRun(ops: seq<Op>, device: Device, id: IndexId, since: nat) {
    forall op :: op in ops ==> Permitted(op, device, id, since)
  }

  /** The mirror held at registration is complete after the run. */
  ghost predicate Completes(s: State, device: Device, ops: seq<Op>)
    requires s.localId.Some?
  {
    var end := RunOps(Apply(s, Register(device, s.localId.value, s.sequence)), ops);
    s.files + Prepared(end, device).files == end.files
  }

  /** A device registers with the folder's index ID and sequence number and a mirror of the
      folder. After any later run of updates, scans, ID rotations and registrations of other
      devices, overlaying what is prepared for it gives exactly the folder's files. */
  lemma {:induction false} DeltaTheorem(s: State, device: Device, ops: seq<Op>)
    requires s.localId.Some?
    requires PermittedRun(ops, device, s.localId.value, s.sequence)
    ensures Completes(s, device, ops)
  {
    var registered := Apply(s, Register(device, s.localId.value, s.sequence));
    assert Tracking(registered, device, s.localId.value, s.sequence, s.files);
    RunTracks(registered, ops, device, s.localId.value, s.sequence, s.files);
    TrackedPayload(RunOps(registered, ops), device, s.localId.value, s.sequence, s.files);
  }

  // ---- While the index ID lasts ----

  /** Neither a new index ID nor another registration of the device. */
  ghost predicate Ordinary(ops: seq<Op>, device: Device) {
    forall op :: op in ops ==> !op.RotateId? && (op.Register? ==> op.device != device)
  }

  lemma {:induction false} IdLasts(s: State, ops: seq<Op>, device: Device)
    requires s.localId.Some? && Ordinary(ops, device) && device in s.remoteIds && device in s.remoteMax
    ensures var end := RunOps(s, ops);
            && end.localId == s.localId
            && device in end.remoteIds && end.remoteIds[device] == s.remoteIds[device]
            && device in end.remoteMax && end.remoteMax[device] == s.remoteMax[device]
    decreases |ops|
  {
    hide StoreAll, Numbered;
    if ops != [] {
      assert ops[0] in ops;
      IdLasts(Apply(s, ops[0]), ops[1..], device);
    }
  }

  /** Until the index ID changes, a registered device is sent a delta exactly when some entry is
      numbered above its sequence, and then just those entries, under that ID and number. */
  lemma {:induction false} DeltaWhileIdLasts(s: State, device: Device, ops: seq<Op>)
    requires s.localId.Some? && Ordinary(ops, device)
    ensures var end := RunOps(Apply(s, Register(device, s.localId.value, s.sequence)), ops);
            var p := Prepared(end, device);
            && (p.Delta? <==> exists n :: n in end.files && end.files[n].sequence > s.sequence)
            && (p.Delta? ==> p.id == s.localId.value && p.start == s.sequence
                             && forall n :: n in p.files <==> n in end.files && end.files[n].sequence > s.sequence)
            && (forall n :: n in p.files ==> n in end.files && p.files[n] == end.files[n])
            && (!p.Delta? ==> p.files == end.files)
  {
    hide RunOps, Prepared, Newer;
    var registered := Apply(s, Register(device, s.localId.value, s.sequence));
    IdLasts(registered, ops, device);
    var end := RunOps(registered, ops);
    PreparedIs(end, device, s.localId.value, s.sequence);
    NewerIs(end.files, s.sequence);
  }

  lemma {:induction false} PreparedIs(s: State, device: Device, id: IndexId, since: nat)
    requires s.localId == Some(id) && device in s.remoteIds && s.remoteIds[device] == id
    requires device in s.remoteMax && s.remoteMax[device] == since
    ensures var newer := Newer(s.files, since);
            Prepared(s, device) == if newer == map[] then Full(s.files) else Delta(id, since, newer)
  {
    hide Newer;
  }

  lemma {:induction false} NewerIs(files: Files, since: nat)
    ensures var newer := Newer(files, since);
            && (newer != map[] <==> exists n :: n in files && files[n].sequence > since)
            && (forall n :: n in newer <==> n in files && files[n].sequence > since)
            && (forall n :: n in newer ==> newer[n] == files[n])
  {
    var newer := Newer(files, since);
    if n :| n in files && files[n].sequence > since {
      assert n in newer;
    }
    assert newer != map[] ==> exists n :: n in newer;
  }

  // ---- Entries that keep a peer's number ----

  lemma {:induction false} RunTwo(s: State, first: Op, second: Op)
    ensures RunOps(s, [first, second]) == Apply(Apply(s, first), second)
  {
    hide Apply;
    assert [first, second][1..] == [second] && [second][1..] == [];
    assert RunOps(Apply(s, first), [second]) == RunOps(Apply(Apply(s, first), second), []);
  }

  lemma {:induction false} StoreOne(files: Files, local: FileInfo, sequence: nat)
    ensures StoreAll(files, Numbered([local], sequence)) == files[local.name := local.(sequence := sequence + 1)]
  {
    var mine := local.(sequence := sequence + 1);
    assert Numbered([local], sequence) == [mine] && [mine][1..] == [];
    assert StoreAll(files[mine.name := mine], []) == files[mine.name := mine];
  }

  /** An entry taken over from a peer keeps the peer's number. If that is not above the
      registered sequence and another entry makes the delta non-empty, the device misses it. */
  lemma {:induction false} RemoteNumberMissed(s: State, device: Device, info: FileInfo, local: FileInfo)
    requires s.localId.Some? && info.sequence <= s.sequence && info.name != local.name
    requires info.name in s.files ==> s.files[info.name] != info
    ensures !Completes(s, device, [StoreRemote(info), ScanChanges([local])])
  {
    hide RunOps, StoreAll, Numbered;
    var registered := Apply(s, Register(device, s.localId.value, s.sequence));
    RunTwo(registered, StoreRemote(info), ScanChanges([local]));
    StoreOne(s.files[info.name := info], local, s.sequence);
    var end := Apply(Apply(registered, StoreRemote(info)), ScanChanges([local]));
    assert end.files[local.name].sequence == s.sequence + 1;
    assert local.name in Newer(end.files, s.sequence);
    assert end.files[info.name] == info;
    DeltaCompletesIff(s.files, end.files, s.sequence);
  }

  /** After an entry was taken over, every later permitted run completes the mirror exactly when
      the entry is numbered above the registered sequence or was in the folder already. */
  lemma {:induction false} RemoteEntryReachesIff(s: State, device: Device, info: FileInfo)
    requires s.localId.Some?
    ensures (forall ops :: PermittedRun(ops, device, s.localId.value, s.sequence) ==> Completes(s, device, [StoreRemote(info)] + ops))
            <==> info.sequence > s.sequence || (info.name in s.files && s.files[info.name] == info)
  {
    hide RunOps, Prepared;
    if info.sequence > s.sequence || (info.name in s.files && s.files[info.name] == info) {
      forall ops | PermittedRun(ops, device, s.localId.value, s.sequence)
        ensures Completes(s, device, [StoreRemote(info)] + ops)
      {
        if info.sequence > s.sequence {
          DeltaTheorem(s, device, [StoreRemote(info)] + ops);
        } else {
          HeldAlready(s, device, info, ops);
          DeltaTheorem(s, device, ops);
        }
      }
    } else {
      var other := info.(name := info.name + "x");
      RemoteNumberMissed(s, device, info, other);
      assert [StoreRemote(info)] + [ScanChanges([other])] == [StoreRemote(info), ScanChanges([other])];
      assert PermittedRun([ScanChanges([other])], device, s.localId.value, s.sequence);
      assert !Completes(s, device, [StoreRemote(info)] + [ScanChanges([other])]);
    }
  }

  lemma {:induction false} HeldAlready(s: State, device: Device, info: FileInfo, ops: seq<Op>)
    requires s.localId.Some? && info.name in s.files && s.files[info.name] == info
    ensures var registered := Apply(s, Register(device, s.localId.value, s.sequence));
            RunOps(registered, [StoreRemote(info)] + ops) == RunOps(registered, ops)
  {
    var registered := Apply(s, Register(device, s.localId.value, s.sequence));
    assert registered.files[info.name := info] == registered.files;
    assert ([StoreRemote(info)] + ops)[1..] == ops;
  }
}
