/** Which entries of a peer's index are requested for download, said without the decision procedure. */
module Requests {
  import opened Versions
  import opened FileTypes
  import opened Paths
  import opened Arbitration
  import opened Replication
  import opened Exchange

  /** Later, or at the same time and ahead at the first divergent counter. */
  ghost predicate WinsTie(x: FileInfo, y: FileInfo) {
    LaterMtime(x, y) || (SameMtime(x, y) && LexGreater(x.version, y.version))
  }

  ghost predicate Concurrent(x: FileInfo, y: FileInfo) {
    !Dominates(x.version, y.version) && !Dominates(y.version, x.version)
  }

  /** A live entry under a valid name that is new to the folder, or is of a strictly newer version,
      or differs in size or time at the same version, or wins a conflict over a text file. */
  ghost predicate MustFetch(db: Files, remote: FileInfo) {
    && ValidRemoteName(remote.name) && !remote.IsDeleted()
    && (remote.name in db ==>
          var held := db[remote.name];
          || (Dominates(remote.version, held.version) && !Dominates(held.version, remote.version))
          || (Dominates(remote.version, held.version) && Dominates(held.version, remote.version)
              && !(remote.size == held.size && SameMtime(remote, held)))
          || (Concurrent(remote, held) && WinsTie(remote, held) && IsMergeableText(remote.name)))
  }

  ghost predicate DistinctFiles(files: seq<FileInfo>) {
    forall i, j :: 0 <= i < j < |files| ==> files[i].name != files[j].name
  }

  /** The entries of an index that must be fetched, judged by the folder as it was before. */
  ghost function Fetched(db: Files, files: seq<FileInfo>): seq<FileInfo> {
    if files == [] then []
    else (if MustFetch(db, files[0]) then [files[0]] else []) + Fetched(db, files[1..])
  }

  lemma {:induction false} WantedIff(db: Files, remote: FileInfo)
    requires Keyed(db)
    ensures Wanted(db, remote) <==> MustFetch(db, remote)
  {
    hide ValidRemoteName, IsMergeableText, Dominates, LexGreater;
    if remote.name in db {
      LexTotal(remote.version, db[remote.name].version);
    }
  }

  lemma {:induction false} OfferKeyed(db: Files, remote: FileInfo)
    requires Keyed(db)
    ensures Keyed(Offer(db, remote))
  {
    hide NeedsUpdate, RemoteWins, ValidRemoteName;
  }

  lemma {:induction false} FetchedElsewhere(db: Files, remote: FileInfo, files: seq<FileInfo>)
    requires forall f :: f in files ==> f.name != remote.name
    ensures Fetched(Offer(db, remote), files) == Fetched(db, files)
    decreases |files|
  {
    hide Offer;
    if files != [] {
      assert files[0] in files;
      OfferElsewhere(db, remote, files[0].name);
      FetchedElsewhere(db, remote, files[1..]);
    }
  }

  /** Processing an index requests exactly the entries that must be fetched, in their order. */
  lemma {:induction false} RequestedExactly(db: Files, files: seq<FileInfo>)
    requires Keyed(db) && DistinctFiles(files)
    ensures Needed(db, files) == Fetched(db, files)
    decreases |files|
  {
    hide Wanted, MustFetch, Offer, Keyed;
    if files != [] {
      var first, rest := files[0], files[1..];
      WantedIff(db, first);
      OfferKeyed(db, first);
      assert forall f :: f in rest ==> f.name != first.name;
      RequestedExactly(Offer(db, first), rest);
      FetchedElsewhere(db, first, rest);
    }
  }

  lemma {:induction false} InFetched(db: Files, files: seq<FileInfo>, f: FileInfo)
    ensures f in Fetched(db, files) <==> f in files && MustFetch(db, f)
  {
    hide MustFetch;
    if files != [] {
      InFetched(db, files[1..], f);
      assert f in files <==> f == files[0] || f in files[1..];
    }
  }

  /** An entry of an index is requested exactly when it must be fetched. */
  lemma {:induction false} RequestedIff(db: Files, files: seq<FileInfo>, f: FileInfo)
    requires Keyed(db) && DistinctFiles(files) && f in files
    ensures f in Needed(db, files) <==> MustFetch(db, f)
  {
    hide MustFetch, Needed, Fetched;
    RequestedExactly(db, files);
    InFetched(db, files, f);
  }

  lemma {:induction false} OfferedChange(db: Files, f: FileInfo)
    requires f.name in Offer(db, f) && (f.name in db ==> Offer(db, f)[f.name] != db[f.name])
    ensures Offer(db, f)[f.name] == f && ValidRemoteName(f.name)
    ensures f.name in db ==> Beats(f, db[f.name])
  {
    hide ValidRemoteName, RemoteWins;
    if f.name in db {
      OfferKeeps(db, f, f.name);
    }
  }

  /** Whenever processing an index changes an entry to a live one, the entry is requested, or it was
      concurrent with the one held and is no mergeable text, so that a conflict copy is made. */
  lemma {:induction false} ChangedLiveIsRequested(db: Files, files: seq<FileInfo>, i: nat)
    requires Keyed(db) && DistinctFiles(files) && i < |files|
    requires var n := files[i].name; var after := Process(db, files);
             n in after && !after[n].IsDeleted() && (n in db ==> after[n] != db[n])
    ensures Process(db, files)[files[i].name] == files[i]
    ensures || files[i] in Needed(db, files)
            || (files[i].name in db && Concurrent(files[i], db[files[i].name]) && !IsMergeableText(files[i].name))
  {
    hide Offer, Process, Needed, ValidRemoteName, IsMergeableText, Dominates, LexGreater, Beats;
    var f := files[i];
    ProcessAt(db, files, i);
    OfferedChange(db, f);
    RequestedIff(db, files, f);
    if f.name in db {
      BeatsMeans(f, db[f.name]);
    }
  }
}
