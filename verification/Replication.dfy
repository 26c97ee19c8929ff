/** Processing a peer's index: a replicated map from names to file entries. */
module Replication {
  import opened FileTypes
  import opened Paths
  import opened Arbitration

  // ---- What processing means ----

  /** The database after one remote entry has been processed. */
  ghost function Offer(db: Files, remote: FileInfo): Files {
    if !ValidRemoteName(remote.name) then db
    else if remote.name in db then db[remote.name := Accept(db[remote.name], remote)]
    else if remote.IsDeleted() then db
    else db[remote.name := remote]
  }

  /** Whether the remote entry has to be downloaded afterwards. */
  ghost predicate Wanted(db: Files, remote: FileInfo) {
    && ValidRemoteName(remote.name) && !remote.IsDeleted()
    && (remote.name in db ==>
          var local := db[remote.name];
          match NeedsUpdate(local, remote)
          case Update => true
          case Ignore => false
          case Conflict =>
            !IsConflict(local, remote) || (RemoteWins(local, remote) && IsMergeableText(local.name)))
  }

  ghost function Process(db: Files, files: seq<FileInfo>): Files
    decreases |files|
  {
    if files == [] then db else Process(Offer(db, files[0]), files[1..])
  }

  ghost function Needed(db: Files, files: seq<FileInfo>): seq<FileInfo>
    decreases |files|
  {
    if files == [] then []
    else (if Wanted(db, files[0]) then [files[0]] else []) + Needed(Offer(db, files[0]), files[1..])
  }

  // ---- The handler ----

  datatype Resolution = UseLocal | UseRemote | RenameBoth

  datatype SyncEvent = LocalIndexUpdated(files: set<FileInfo>) | RemoteIndexReceived(update: seq<FileInfo>)

  /** Entries of the local folder that the peer's full index does not mention. */
  ghost function LocalOnly(db: Files, files: seq<FileInfo>): set<FileInfo> {
    set n | n in db && !db[n].IsDeleted() && (forall f :: f in files ==> f.name != n) :: db[n]
  }

  /** A full index is taken at face value unless it is much smaller than a large local folder. */
  predicate TrustsFullIndex(remoteCount: nat, localCount: nat) {
    if remoteCount > 0 then !(2 * remoteCount < (if localCount > 1 then localCount else 1) && localCount > 10)
    else localCount <= 10
  }

  /** Folders of at most ten entries trust any full index, larger ones those of at least half their size. */
  lemma {:induction false} TrustsIff(remoteCount: nat, localCount: nat)
    ensures TrustsFullIndex(remoteCount, localCount) <==> localCount <= 10 || 2 * remoteCount >= localCount
  {
  }

  class IndexHandler {
    const folder: string
    var db: Files
    var events: seq<SyncEvent>

    constructor (folder: string, db: Files)
      ensures this.folder == folder && this.db == db && events == []
    {
      this.folder, this.db, this.events := folder, db, [];
    }

    /** The database effect of resolving a conflict. */
    method ResolveConflict(local: FileInfo, remote: FileInfo) returns (r: Resolution)
      requires local.name == remote.name && local.name in db && db[local.name] == local
      modifies this`db
      ensures !IsConflict(local, remote) ==> r == UseRemote && db == old(db)
      ensures IsConflict(local, remote) ==>
                && db == old(db)[local.name := Accept(local, remote)]
                && r == (if !RemoteWins(local, remote) then UseLocal
                         else if IsMergeableText(local.name) then UseRemote else RenameBoth)
    {
      if !IsConflict(local, remote) {
        return UseRemote;
      }
      var remoteWins := RemoteWinsConflict(local, remote);
      if !remoteWins {
        db := db[local.name := local];
        return UseLocal;
      }
      db := db[remote.name := remote];
      if IsMergeableText(local.name) {
        return UseRemote;
      }
      return RenameBoth;
    }

    /** Processes one remote entry; `wanted` tells whether it has to be downloaded. */
    method ProcessFile(remote: FileInfo) returns (wanted: bool)
      requires Keyed(db)
      modifies this`db
      ensures Keyed(db)
      ensures db == Offer(old(db), remote)
      ensures wanted == Wanted(old(db), remote)
    {
      if !ValidRemoteName(remote.name) {
        return false;
      }
      if remote.name !in db {
        if remote.IsDeleted() {
          return false;
        }
        db := db[remote.name := remote];
        return true;
      }
      var local := db[remote.name];
      match NeedsUpdate(local, remote)
      case Update =>
        db := db[remote.name := remote];
        return !remote.IsDeleted();
      case Ignore =>
        assert db[remote.name := local] == db;
        return false;
      case Conflict =>
        assert db[remote.name := local] == db;
        var resolution := ResolveConflict(local, remote);
        return resolution == UseRemote && !remote.IsDeleted();
    }

    /** Processes a list of remote entries and collects the ones to download. */
    method ProcessFiles(files: seq<FileInfo>, isFullIndex: bool) returns (needed: seq<FileInfo>)
      requires Keyed(db)
      modifies this`db, this`events
      ensures Keyed(db)
      ensures db == Process(old(db), files)
      ensures needed == Needed(old(db), files)
      ensures events == if isFullIndex && LocalOnly(db, files) != {}
                        then old(events) + [LocalIndexUpdated(LocalOnly(db, files))] else old(events)
    {
      needed := [];
      for i := 0 to |files|
        invariant Keyed(db) && events == old(events)
        invariant Process(db, files[i..]) == Process(old(db), files)
        invariant needed + Needed(db, files[i..]) == Needed(old(db), files)
      {
        assert files[i..][1..] == files[i + 1..];
        var wanted := ProcessFile(files[i]);
        if wanted {
          needed := needed + [files[i]];
        }
      }
      if isFullIndex {
        var mentioned := set f | f in files :: f.name;
        var unpushed := set n | n in db && !db[n].IsDeleted() && n !in mentioned :: db[n];
        assert forall n :: n in mentioned <==> exists f :: f in files && f.name == n;
        assert unpushed == LocalOnly(db, files);
        if unpushed != {} {
          events := events + [LocalIndexUpdated(unpushed)];
        }
      }
    }

    method HandleIndex(indexFolder: string, files: seq<FileInfo>) returns (r: Result<seq<FileInfo>>)
      requires Keyed(db)
      modifies this`db, this`events
      ensures Keyed(db)
      ensures indexFolder != folder ==> r.Err? && db == old(db) && events == old(events)
      ensures indexFolder == folder ==>
                && r == Ok(Needed(old(db), files))
                && db == Process(old(db), files)
                && events == (if TrustsFullIndex(|files|, |old(db)|) && LocalOnly(db, files) != {}
                              then old(events) + [LocalIndexUpdated(LocalOnly(db, files))] else old(events))
    {
      if indexFolder != folder {
        return Err("Folder mismatch");
      }
      var trusted := TrustsFullIndex(|files|, |db|);
      var needed := ProcessFiles(files, trusted);
      return Ok(needed);
    }

    method HandleIndexUpdate(updateFolder: string, files: seq<FileInfo>) returns (r: Result<seq<FileInfo>>)
      requires Keyed(db)
      modifies this`db, this`events
      ensures Keyed(db)
      ensures updateFolder != folder ==> r.Err? && db == old(db) && events == old(events)
      ensures updateFolder == folder ==>
                && r == Ok(Needed(old(db), files))
                && db == Process(old(db), files)
                && events == old(events) + [RemoteIndexReceived(files)]
    {
      if updateFolder != folder {
        return Err("Folder mismatch");
      }
      var needed := ProcessFiles(files, false);
      events := events + [RemoteIndexReceived(files)];
      return Ok(needed);
    }
  }

  // ---- What processing leaves alone ----

  lemma {:induction false} OfferElsewhere(db: Files, remote: FileInfo, n: string)
    requires remote.name != n
    ensures n in Offer(db, remote) <==> n in db
    ensures n in db ==> Offer(db, remote)[n] == db[n]
  {
  }

  /** Names that an index does not mention keep their entries, whatever the index says otherwise. */
  lemma {:induction false} UnmentionedUnchanged(db: Files, files: seq<FileInfo>, n: string)
    requires forall f :: f in files ==> f.name != n
    ensures n in Process(db, files) <==> n in db
    ensures n in db ==> Process(db, files)[n] == db[n]
    decreases |files|
  {
    hide Offer;
    if files != [] {
      assert files[0] in files;
      OfferElsewhere(db, files[0], n);
      UnmentionedUnchanged(Offer(db, files[0]), files[1..], n);
    }
  }

  lemma {:induction false} OfferKeeps(db: Files, remote: FileInfo, n: string)
    requires n in db
    ensures n in Offer(db, remote)
    ensures Offer(db, remote)[n] == db[n] ||
            (remote.name == n && Offer(db, remote)[n] == remote && Beats(remote, db[n]))
  {
  }

  /** A live entry turns into a tombstone only through a remote tombstone of that name
      which, when its turn came, beat the live entry held at that moment. */
  lemma {:induction false} DeletedOnlyByWinner(db: Files, files: seq<FileInfo>, n: string) returns (i: nat)
    requires n in db && !db[n].IsDeleted()
    ensures n in Process(db, files)
    ensures Process(db, files)[n].IsDeleted() ==>
              && i < |files| && files[i].name == n && files[i].IsDeleted()
              && n in Process(db, files[..i]) && !Process(db, files[..i])[n].IsDeleted()
              && Beats(files[i], Process(db, files[..i])[n])
    decreases |files|
  {
    hide Offer, Beats;
    i := 0;
    if files != [] {
      var next := Offer(db, files[0]);
      OfferKeeps(db, files[0], n);
      if next[n].IsDeleted() {
        assert files[..0] == [];
        HeldStays(next, files[1..], n);
      } else {
        i := DeletedOnlyByWinner(next, files[1..], n);
        if Process(next, files[1..])[n].IsDeleted() {
          assert files[..i + 1][1..] == files[1..][..i];
          i := i + 1;
        }
      }
    }
  }

  lemma {:induction false} HeldStays(db: Files, files: seq<FileInfo>, n: string)
    requires n in db
    ensures n in Process(db, files)
    decreases |files|
  {
    hide Offer;
    if files != [] {
      OfferKeeps(db, files[0], n);
      HeldStays(Offer(db, files[0]), files[1..], n);
    }
  }
}
