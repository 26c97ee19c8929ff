/** A folder scan: what it finds changed, how it numbers and versions it, and what it stores. */
module Scanner {
  import opened Versions
  import opened FileTypes
  import opened Arbitration

  /** What a scan sees on disk: the entries the walk found, the names whose paths exist, and
      the names with a temporary download beside them. */
  datatype DiskView = DiskView(scanned: seq<FileInfo>, existing: set<string>, downloading: set<string>)

  predicate SameHashes(a: seq<BlockInfo>, b: seq<BlockInfo>) {
    |a| == |b| && forall i | 0 <= i < |a| :: a[i].hash == b[i].hash
  }

  /** Equal block hashes mean unchanged; without them the remaining comparisons all end in changed. */
  predicate HasFileChanged(before: FileInfo, now: FileInfo) {
    if SameHashes(before.blocks, now.blocks) then false
    else if before.size != now.size then true
    else if before.modifiedS != now.modifiedS || before.modifiedNs != now.modifiedNs then true
    else if before.permissions != now.permissions then true
    else true
  }

  // ---- Rename detection ----

  predicate SameBlocks(a: FileInfo, b: FileInfo) {
    a.blocks != [] && SameHashes(a.blocks, b.blocks)
  }

  /** A live entry with the contents of one that is being deleted. */
  predicate RenameTarget(f: FileInfo, changed: seq<FileInfo>) {
    && !f.IsDeleted() && f.blocks != []
    && (exists d | d in changed :: d.IsDeleted() && SameBlocks(d, f))
  }

  function Select(files: seq<FileInfo>, changed: seq<FileInfo>, targets: bool): seq<FileInfo> {
    if files == [] then []
    else (if RenameTarget(files[0], changed) == targets then [files[0]] else []) + Select(files[1..], changed, targets)
  }

  /** Rename targets move to the front; everything else keeps its order. */
  function Reordered(changed: seq<FileInfo>): seq<FileInfo> {
    Select(changed, changed, true) + Select(changed, changed, false)
  }

  lemma {:induction false} SelectSplits(files: seq<FileInfo>, changed: seq<FileInfo>)
    ensures multiset(Select(files, changed, true)) + multiset(Select(files, changed, false)) == multiset(files)
  {
    hide RenameTarget;
    if files != [] {
      SelectSplits(files[1..], changed);
      assert files == [files[0]] + files[1..];
    }
  }

  /** Reordering for renames loses and invents nothing. */
  lemma {:induction false} ReorderedIsPermutation(changed: seq<FileInfo>)
    ensures multiset(Reordered(changed)) == multiset(changed)
    ensures forall f :: f in Reordered(changed) <==> f in changed
  {
    hide Select;
    SelectSplits(changed, changed);
    forall f
      ensures f in Reordered(changed) <==> f in changed
    {
      assert f in Reordered(changed) <==> f in multiset(Reordered(changed));
      assert f in changed <==> f in multiset(changed);
    }
  }

  lemma {:induction false} SelectOnly(files: seq<FileInfo>, changed: seq<FileInfo>, targets: bool)
    ensures forall f :: f in Select(files, changed, targets) ==> RenameTarget(f, changed) == targets
  {
    hide RenameTarget;
    if files != [] {
      SelectOnly(files[1..], changed, targets);
    }
  }

  /** A peer meets a live file with the block hashes of a deleted one before any deletion, so the
      old contents are still there. */
  lemma {:induction false} RenamedBeforeDeleted(changed: seq<FileInfo>, i: nat, j: nat, gone: FileInfo)
    requires i < |Reordered(changed)| && j < |Reordered(changed)| && gone in changed && gone.IsDeleted()
    requires var f := Reordered(changed)[i];
             !f.IsDeleted() && f.blocks != [] && |gone.blocks| == |f.blocks|
             && forall k :: 0 <= k < |f.blocks| ==> gone.blocks[k].hash == f.blocks[k].hash
    requires Reordered(changed)[j].IsDeleted()
    ensures i < j
  {
    hide Select;
    assert RenameTarget(Reordered(changed)[i], changed);
    SelectOnly(changed, changed, true);
    SelectOnly(changed, changed, false);
    var front, back := Select(changed, changed, true), Select(changed, changed, false);
    assert forall k :: |front| <= k < |front + back| ==> (front + back)[k] in back;
    assert forall k :: 0 <= k < |front| ==> (front + back)[k] in front;
  }

  lemma {:induction false} SelectKeepsOrder(files: seq<FileInfo>, changed: seq<FileInfo>, targets: bool, a: nat, b: nat)
    returns (i: nat, j: nat)
    requires a < b < |files|
    requires RenameTarget(files[a], changed) == RenameTarget(files[b], changed) == targets
    ensures i < j < |Select(files, changed, targets)|
    ensures Select(files, changed, targets)[i] == files[a] && Select(files, changed, targets)[j] == files[b]
  {
    hide RenameTarget;
    if a == 0 {
      i := 0;
      j := SelectHolds(files[1..], changed, targets, b - 1);
      j := j + 1;
    } else {
      i, j := SelectKeepsOrder(files[1..], changed, targets, a - 1, b - 1);
      if RenameTarget(files[0], changed) == targets {
        i, j := i + 1, j + 1;
      }
    }
  }

  lemma {:induction false} SelectHolds(files: seq<FileInfo>, changed: seq<FileInfo>, targets: bool, b: nat) returns (j: nat)
    requires b < |files| && RenameTarget(files[b], changed) == targets
    ensures j < |Select(files, changed, targets)| && Select(files, changed, targets)[j] == files[b]
  {
    hide RenameTarget;
    if b == 0 {
      j := 0;
    } else {
      j := SelectHolds(files[1..], changed, targets, b - 1);
      if RenameTarget(files[0], changed) == targets {
        j := j + 1;
      }
    }
  }

  /** Two renamed files keep their order, and so do two entries of which neither is one. */
  lemma {:induction false} ReorderingIsStable(changed: seq<FileInfo>, a: nat, b: nat) returns (i: nat, j: nat)
    requires a < b < |changed| && RenameTarget(changed[a], changed) == RenameTarget(changed[b], changed)
    ensures i < j < |Reordered(changed)| && Reordered(changed)[i] == changed[a] && Reordered(changed)[j] == changed[b]
  {
    hide RenameTarget, Select;
    var targets := RenameTarget(changed[a], changed);
    i, j := SelectKeepsOrder(changed, changed, targets, a, b);
    if !targets {
      var front := |Select(changed, changed, true)|;
      i, j := i + front, j + front;
    }
  }

  method DetectAndReorderRenames(changed: seq<FileInfo>) returns (r: seq<FileInfo>)
    ensures r == Reordered(changed)
  {
    hide RenameTarget;
    var targets, others := [], [];
    for i := 0 to |changed|
      invariant targets + Select(changed[i..], changed, true) == Select(changed, changed, true)
      invariant others + Select(changed[i..], changed, false) == Select(changed, changed, false)
    {
      assert changed[i..][1..] == changed[i + 1..];
      if RenameTarget(changed[i], changed) {
        targets := targets + [changed[i]];
      } else {
        others := others + [changed[i]];
      }
    }
    return targets + others;
  }

  // ---- Scanning ----

  /** A stored live entry whose path is gone and which is not being downloaded. */
  predicate Vanished(f: FileInfo, disk: DiskView) {
    f.name !in disk.existing && !f.IsDeleted() && f.name !in disk.downloading
  }

  function Tombstone(f: FileInfo, sequence: nat, counter: nat): FileInfo {
    f.(deleted := Some(true), size := 0, sequence := sequence, version := Increment(f.version, counter))
  }

  function Deletions(stored: seq<FileInfo>, disk: DiskView, sequence: nat, counter: nat): seq<FileInfo> {
    if stored == [] then []
    else if Vanished(stored[0], disk) then
      [Tombstone(stored[0], sequence + 1, counter)] + Deletions(stored[1..], disk, sequence + 1, counter)
    else Deletions(stored[1..], disk, sequence, counter)
  }

  predicate Changed(db: Files, f: FileInfo) {
    f.name in db ==> HasFileChanged(db[f.name], f)
  }

  /** A found file starts at version {1:1}; a modified one continues the stored version. */
  function NewEntry(db: Files, f: FileInfo, sequence: nat, counter: nat): FileInfo {
    f.(sequence := sequence,
       version := if f.name in db then Increment(db[f.name].version, counter) else map[1 := 1])
  }

  function Modifications(db: Files, scanned: seq<FileInfo>, sequence: nat, counter: nat): seq<FileInfo> {
    if scanned == [] then []
    else if Changed(db, scanned[0]) then
      [NewEntry(db, scanned[0], sequence + 1, counter)] + Modifications(db, scanned[1..], sequence + 1, counter)
    else Modifications(db, scanned[1..], sequence, counter)
  }

  function Cleared(f: FileInfo): FileInfo {
    if f.IsDeleted() then f.(blocks := []) else f
  }

  function ClearAll(files: seq<FileInfo>): (r: seq<FileInfo>)
    ensures |r| == |files| && forall i :: 0 <= i < |files| ==> r[i] == Cleared(files[i])
  {
    seq(|files|, i requires 0 <= i < |files| => Cleared(files[i]))
  }

  /** Everything one scan reports as changed, given the order in which entries are stored. */
  function ScanResult(db: Files, stored: seq<FileInfo>, disk: DiskView, sequence: nat, counter: nat): seq<FileInfo> {
    var gone := Deletions(stored, disk, sequence, counter);
    var found := Modifications(db, disk.scanned, sequence + |gone|, counter);
    ClearAll(Reordered(gone + found))
  }

  class FolderScanner {
    const counter: nat
    var db: Files
    var sequence: nat

    constructor (db: Files, sequence: nat, counter: nat)
      ensures this.db == db && this.sequence == sequence && this.counter == counter
    {
      this.db, this.sequence, this.counter := db, sequence, counter;
    }

    method FindDeletions(stored: seq<FileInfo>, disk: DiskView) returns (gone: seq<FileInfo>)
      modifies this`sequence
      ensures gone == Deletions(stored, disk, old(sequence), counter)
      ensures sequence == old(sequence) + |gone|
    {
      gone := [];
      for i := 0 to |stored|
        invariant sequence == old(sequence) + |gone|
        invariant gone + Deletions(stored[i..], disk, sequence, counter) == Deletions(stored, disk, old(sequence), counter)
      {
        assert stored[i..][1..] == stored[i + 1..];
        if stored[i].name !in disk.existing && !stored[i].IsDeleted() {
          if stored[i].name !in disk.downloading {
            sequence := sequence + 1;
            gone := gone + [Tombstone(stored[i], sequence, counter)];
          }
        }
      }
    }

    method FindModifications(scanned: seq<FileInfo>) returns (found: seq<FileInfo>)
      modifies this`sequence
      ensures found == Modifications(db, scanned, old(sequence), counter)
      ensures sequence == old(sequence) + |found|
    {
      hide HasFileChanged, NewEntry;
      found := [];
      for i := 0 to |scanned|
        invariant sequence == old(sequence) + |found|
        invariant found + Modifications(db, scanned[i..], sequence, counter) == Modifications(db, scanned, old(sequence), counter)
      {
        assert scanned[i..][1..] == scanned[i + 1..];
        if scanned[i].name !in db || HasFileChanged(db[scanned[i].name], scanned[i]) {
          sequence := sequence + 1;
          found := found + [NewEntry(db, scanned[i], sequence, counter)];
        }
      }
    }

    method Persist(changed: seq<FileInfo>)
      modifies this`db
      ensures db == StoreAll(old(db), changed)
    {
      for i := 0 to |changed|
        invariant StoreAll(db, changed[i..]) == StoreAll(old(db), changed)
      {
        assert changed[i..][1..] == changed[i + 1..];
        db := db[changed[i].name := changed[i]];
      }
    }

    /** A full scan; `stored` is the order in which the store lists its entries. */
    method ScanFolder(stored: seq<FileInfo>, disk: DiskView) returns (changed: seq<FileInfo>)
      requires Lists(stored, db)
      modifies this`db, this`sequence
      ensures changed == ScanResult(old(db), stored, disk, old(sequence), counter)
      ensures db == StoreAll(old(db), changed)
      ensures sequence == old(sequence) + |changed|
    {
      hide Lists, Deletions, Modifications, Reordered, StoreAll, Cleared;
      var gone := FindDeletions(stored, disk);
      var found := FindModifications(disk.scanned);
      ReorderedLength(gone + found);
      changed := DetectAndReorderRenames(gone + found);
      changed := ClearAll(changed);
      Persist(changed);
    }
  }

  lemma {:induction false} ReorderedLength(changed: seq<FileInfo>)
    ensures |Reordered(changed)| == |changed|
  {
    hide Reordered;
    ReorderedIsPermutation(changed);
    SameSize(Reordered(changed), changed);
  }

  lemma {:induction false} SameSize(a: seq<FileInfo>, b: seq<FileInfo>)
    requires multiset(a) == multiset(b)
    ensures |a| == |b|
  {
    assert |multiset(a)| == |a| && |multiset(b)| == |b|;
  }

  // ---- What a scan stores ----

  /** The walk finds live entries, and their paths exist. */
  ghost predicate ProperView(disk: DiskView) {
    forall f :: f in disk.scanned ==> !f.IsDeleted() && f.name in disk.existing
  }

  lemma {:induction false} InDeletions(stored: seq<FileInfo>, disk: DiskView, sequence: nat, counter: nat, f: FileInfo)
    requires f in Deletions(stored, disk, sequence, counter)
    ensures f.IsDeleted() && f.name !in disk.existing
    decreases |stored|
  {
    if Vanished(stored[0], disk) {
      if f != Tombstone(stored[0], sequence + 1, counter) {
        InDeletions(stored[1..], disk, sequence + 1, counter, f);
      }
    } else {
      InDeletions(stored[1..], disk, sequence, counter, f);
    }
  }

  lemma {:induction false} VanishedIsDeleted(stored: seq<FileInfo>, disk: DiskView, sequence: nat, counter: nat, g: FileInfo)
    returns (f: FileInfo)
    requires g in stored && Vanished(g, disk)
    ensures f in Deletions(stored, disk, sequence, counter) && f.name == g.name
    decreases |stored|
  {
    if Vanished(stored[0], disk) {
      if g == stored[0] {
        f := Tombstone(g, sequence + 1, counter);
      } else {
        f := VanishedIsDeleted(stored[1..], disk, sequence + 1, counter, g);
      }
    } else {
      f := VanishedIsDeleted(stored[1..], disk, sequence, counter, g);
    }
  }

  lemma {:induction false} InModifications(db: Files, scanned: seq<FileInfo>, sequence: nat, counter: nat, f: FileInfo)
    returns (g: FileInfo)
    requires f in Modifications(db, scanned, sequence, counter)
    ensures g in scanned && Changed(db, g)
    ensures f.name == g.name && f.blocks == g.blocks && f.deleted == g.deleted
    decreases |scanned|
  {
    hide Changed;
    if Changed(db, scanned[0]) {
      if f == NewEntry(db, scanned[0], sequence + 1, counter) {
        g := scanned[0];
      } else {
        g := InModifications(db, scanned[1..], sequence + 1, counter, f);
      }
    } else {
      g := InModifications(db, scanned[1..], sequence, counter, f);
    }
  }

  lemma {:induction false} ChangedIsModified(db: Files, scanned: seq<FileInfo>, sequence: nat, counter: nat, g: FileInfo)
    returns (f: FileInfo)
    requires g in scanned && Changed(db, g)
    ensures f in Modifications(db, scanned, sequence, counter) && f.name == g.name
    decreases |scanned|
  {
    hide Changed;
    if Changed(db, scanned[0]) {
      if g == scanned[0] {
        f := NewEntry(db, g, sequence + 1, counter);
      } else {
        f := ChangedIsModified(db, scanned[1..], sequence + 1, counter, g);
      }
    } else {
      f := ChangedIsModified(db, scanned[1..], sequence, counter, g);
    }
  }

  lemma {:induction false} StoredAt(m: Files, files: seq<FileInfo>, n: string)
    ensures (exists f :: f in files && f.name == n) ==>
              n in StoreAll(m, files) && StoreAll(m, files)[n] in files && StoreAll(m, files)[n].name == n
    ensures (forall f :: f in files ==> f.name != n) ==>
              (n in StoreAll(m, files) <==> n in m) && (n in m ==> StoreAll(m, files)[n] == m[n])
    decreases |files|
  {
    if files != [] {
      var rest := files[1..];
      assert forall f :: f in files <==> f == files[0] || f in rest;
      StoredAt(m[files[0].name := files[0]], rest, n);
    }
  }

  /** Every reported entry is a tombstone of a vanished name, or has the blocks of a changed scanned entry. */
  lemma {:induction false} InScanResult(db: Files, stored: seq<FileInfo>, disk: DiskView, sequence: nat, counter: nat, f: FileInfo)
    returns (g: FileInfo)
    requires ProperView(disk) && f in ScanResult(db, stored, disk, sequence, counter)
    ensures f.name in disk.existing ==>
              !f.IsDeleted() && g in disk.scanned && Changed(db, g) && g.name == f.name && g.blocks == f.blocks
    ensures f.name !in disk.existing ==> f.IsDeleted()
  {
    hide Deletions, Modifications, Reordered, Changed;
    var gone := Deletions(stored, disk, sequence, counter);
    var found := Modifications(db, disk.scanned, sequence + |gone|, counter);
    ReorderedIsPermutation(gone + found);
    var k :| 0 <= k < |Reordered(gone + found)| && Cleared(Reordered(gone + found)[k]) == f;
    var raw := Reordered(gone + found)[k];
    assert raw in Reordered(gone + found);
    assert raw in gone || raw in found;
    if raw in gone {
      InDeletions(stored, disk, sequence, counter, raw);
      g := f;
    } else {
      g := InModifications(db, disk.scanned, sequence + |gone|, counter, raw);
    }
  }

  lemma {:induction false} ScanReports(db: Files, stored: seq<FileInfo>, disk: DiskView, sequence: nat, counter: nat, g: FileInfo)
    requires (g in stored && Vanished(g, disk)) || (g in disk.scanned && Changed(db, g))
    ensures exists f :: f in ScanResult(db, stored, disk, sequence, counter) && f.name == g.name
  {
    hide Deletions, Modifications, Reordered, Changed, Vanished;
    var gone := Deletions(stored, disk, sequence, counter);
    var found := Modifications(db, disk.scanned, sequence + |gone|, counter);
    ReorderedIsPermutation(gone + found);
    var raw: FileInfo;
    if g in stored && Vanished(g, disk) {
      raw := VanishedIsDeleted(stored, disk, sequence, counter, g);
    } else {
      raw := ChangedIsModified(db, disk.scanned, sequence + |gone|, counter, g);
    }
    assert raw in gone + found;
    var k :| 0 <= k < |Reordered(gone + found)| && Reordered(gone + found)[k] == raw;
    var f := ClearAll(Reordered(gone + found))[k];
    assert f == Cleared(raw) && f.name == g.name;
    assert f in ScanResult(db, stored, disk, sequence, counter);
  }

  /** A scan reports nothing exactly when nothing vanished and nothing changed. */
  lemma {:induction false} SilentIff(db: Files, stored: seq<FileInfo>, disk: DiskView, sequence: nat, counter: nat)
    ensures ScanResult(db, stored, disk, sequence, counter) == [] <==>
            && (forall g :: g in stored ==> !Vanished(g, disk))
            && (forall g :: g in disk.scanned ==> !Changed(db, g))
  {
    hide Vanished, Changed, Reordered, ScanResult;
    if (exists g :: g in stored && Vanished(g, disk)) {
      var g :| g in stored && Vanished(g, disk);
      ScanReports(db, stored, disk, sequence, counter, g);
    } else if (exists g :: g in disk.scanned && Changed(db, g)) {
      var g :| g in disk.scanned && Changed(db, g);
      ScanReports(db, stored, disk, sequence, counter, g);
    } else {
      NothingDeleted(stored, disk, sequence, counter);
      NothingModified(db, disk.scanned, sequence, counter);
      NothingScanned(db, stored, disk, sequence, counter);
    }
  }

  lemma {:induction false} NothingScanned(db: Files, stored: seq<FileInfo>, disk: DiskView, sequence: nat, counter: nat)
    requires Deletions(stored, disk, sequence, counter) == [] && Modifications(db, disk.scanned, sequence, counter) == []
    ensures ScanResult(db, stored, disk, sequence, counter) == []
  {
  }

  lemma {:induction false} NothingDeleted(stored: seq<FileInfo>, disk: DiskView, sequence: nat, counter: nat)
    requires forall g :: g in stored ==> !Vanished(g, disk)
    ensures Deletions(stored, disk, sequence, counter) == []
    decreases |stored|
  {
    hide Vanished;
    if stored != [] {
      assert stored[0] in stored;
      NothingDeleted(stored[1..], disk, sequence, counter);
    }
  }

  lemma {:induction false} NothingModified(db: Files, scanned: seq<FileInfo>, sequence: nat, counter: nat)
    requires forall g :: g in scanned ==> !Changed(db, g)
    ensures Modifications(db, scanned, sequence, counter) == []
    decreases |scanned|
  {
    hide Changed;
    if scanned != [] {
      assert scanned[0] in scanned;
      NothingModified(db, scanned[1..], sequence, counter);
    }
  }

  // ---- The next scan ----

  /** Entries the walk found under one name have the same contents. */
  ghost predicate NamesakesAgree(scanned: seq<FileInfo>) {
    forall f, g :: f in scanned && g in scanned && f.name == g.name ==> SameHashes(f.blocks, g.blocks)
  }

  lemma {:induction false} NothingVanishedAfter(db: Files, stored: seq<FileInfo>, disk: DiskView, sequence: nat, counter: nat, g: FileInfo)
    requires Keyed(db) && Lists(stored, db) && ProperView(disk)
    requires var db' := StoreAll(db, ScanResult(db, stored, disk, sequence, counter)); g.name in db' && db'[g.name] == g
    ensures !Vanished(g, disk)
  {
    hide ScanResult, StoreAll;
    var changed := ScanResult(db, stored, disk, sequence, counter);
    StoredAt(db, changed, g.name);
    if g.name !in disk.existing {
      if f :| f in changed && f.name == g.name {
        var h := InScanResult(db, stored, disk, sequence, counter, g);
      } else {
        if Vanished(g, disk) {
          ScanReports(db, stored, disk, sequence, counter, g);
        }
      }
    }
  }

  lemma {:induction false} UnchangedAfter(db: Files, stored: seq<FileInfo>, disk: DiskView, sequence: nat, counter: nat, g: FileInfo)
    requires ProperView(disk) && NamesakesAgree(disk.scanned) && g in disk.scanned
    ensures !Changed(StoreAll(db, ScanResult(db, stored, disk, sequence, counter)), g)
  {
    hide ScanResult, StoreAll, Vanished;
    var changed := ScanResult(db, stored, disk, sequence, counter);
    var db' := StoreAll(db, changed);
    StoredAt(db, changed, g.name);
    if f :| f in changed && f.name == g.name {
      var h := InScanResult(db, stored, disk, sequence, counter, db'[g.name]);
      assert SameHashes(h.blocks, g.blocks);
    } else {
      if Changed(db, g) {
        ScanReports(db, stored, disk, sequence, counter, g);
      }
    }
  }

  lemma {:induction false} NamesakesDiffer(db: Files, f: FileInfo, g: FileInfo)
    requires f.name == g.name && !SameHashes(f.blocks, g.blocks)
    ensures Changed(db, f) || Changed(db, g)
  {
  }

  /** Whatever was stored before, a second full scan of an unchanged disk reports nothing, and
      so numbers and stores nothing, exactly when entries found under one name agree. */
  lemma {:induction false} SecondScanSilentIff(db: Files, stored: seq<FileInfo>, disk: DiskView, sequence: nat, counter: nat,
                                               stored': seq<FileInfo>, sequence': nat)
    requires Keyed(db) && Lists(stored, db) && ProperView(disk)
    requires Lists(stored', StoreAll(db, ScanResult(db, stored, disk, sequence, counter)))
    ensures ScanResult(StoreAll(db, ScanResult(db, stored, disk, sequence, counter)), stored', disk, sequence', counter) == []
            <==> NamesakesAgree(disk.scanned)
  {
    hide ScanResult, StoreAll, Vanished, Changed, SameHashes;
    var db' := StoreAll(db, ScanResult(db, stored, disk, sequence, counter));
    SilentIff(db', stored', disk, sequence', counter);
    forall g | g in stored'
      ensures !Vanished(g, disk)
    {
      NothingVanishedAfter(db, stored, disk, sequence, counter, g);
    }
    if NamesakesAgree(disk.scanned) {
      forall g | g in disk.scanned
        ensures !Changed(db', g)
      {
        UnchangedAfter(db, stored, disk, sequence, counter, g);
      }
    } else {
      var f, g :| f in disk.scanned && g in disk.scanned && f.name == g.name && !SameHashes(f.blocks, g.blocks);
      NamesakesDiffer(db', f, g);
    }
  }

  // ---- What is on disk is live afterwards, with one exception ----

  /** The name is stored as deleted with the block hashes that are on disk now. */
  ghost predicate StoredAsGone(db: Files, g: FileInfo) {
    g.name in db && db[g.name].IsDeleted() && SameHashes(db[g.name].blocks, g.blocks)
  }

  lemma {:induction false} UnreportedWhenUnchanged(db: Files, stored: seq<FileInfo>, disk: DiskView,
                                                   sequence: nat, counter: nat, g: FileInfo, f: FileInfo)
    requires ProperView(disk) && NamesakesAgree(disk.scanned) && g in disk.scanned && !Changed(db, g)
    requires f in ScanResult(db, stored, disk, sequence, counter)
    ensures f.name != g.name
  {
    hide ScanResult;
    if f.name == g.name {
      var h := InScanResult(db, stored, disk, sequence, counter, f);
    }
  }

  /** After a scan every name found on disk is stored with the contents found, and it is live
      unless the store had it as deleted with those same block hashes. */
  lemma {:induction false} FoundIsLiveIff(db: Files, stored: seq<FileInfo>, disk: DiskView, sequence: nat, counter: nat, g: FileInfo)
    requires ProperView(disk) && NamesakesAgree(disk.scanned) && g in disk.scanned
    ensures var after := StoreAll(db, ScanResult(db, stored, disk, sequence, counter));
            && g.name in after && SameHashes(after[g.name].blocks, g.blocks)
            && (!after[g.name].IsDeleted() <==> !StoredAsGone(db, g))
  {
    hide ScanResult, StoreAll, SameHashes, Vanished;
    var changed := ScanResult(db, stored, disk, sequence, counter);
    var after := StoreAll(db, changed);
    StoredAt(db, changed, g.name);
    if Changed(db, g) {
      ScanReports(db, stored, disk, sequence, counter, g);
      var h := InScanResult(db, stored, disk, sequence, counter, after[g.name]);
      assert SameHashes(h.blocks, g.blocks);
    } else {
      forall f | f in changed
        ensures f.name != g.name
      {
        UnreportedWhenUnchanged(db, stored, disk, sequence, counter, g, f);
      }
    }
  }

  /** A directory has no blocks, and neither has a tombstone that a scan wrote. So a directory
      that was deleted and made again stays deleted in the store. */
  lemma {:induction false} RecreatedDirectoryStaysDeleted(db: Files, stored: seq<FileInfo>, disk: DiskView,
                                                          sequence: nat, counter: nat, g: FileInfo)
    requires ProperView(disk) && NamesakesAgree(disk.scanned) && g in disk.scanned
    requires g.fileType == Directory && g.blocks == []
    requires g.name in db && db[g.name].IsDeleted() && db[g.name].blocks == []
    ensures var after := StoreAll(db, ScanResult(db, stored, disk, sequence, counter));
            g.name in after && after[g.name].IsDeleted()
  {
    hide ScanResult, StoreAll;
    FoundIsLiveIff(db, stored, disk, sequence, counter, g);
  }

  // ---- What is gone from disk is deleted afterwards ----

  lemma {:induction false} DeletionShape(stored: seq<FileInfo>, disk: DiskView, sequence: nat, counter: nat, f: FileInfo)
    returns (before: FileInfo)
    requires f in Deletions(stored, disk, sequence, counter)
    ensures before in stored && !before.IsDeleted() && before.name !in disk.existing && before.name !in disk.downloading
    ensures f == before.(deleted := Some(true), size := 0, version := Increment(before.version, counter), sequence := f.sequence)
    ensures f.sequence > sequence
    decreases |stored|
  {
    hide Increment;
    if f == Tombstone(stored[0], sequence + 1, counter) && Vanished(stored[0], disk) {
      before := stored[0];
    } else if Vanished(stored[0], disk) {
      before := DeletionShape(stored[1..], disk, sequence + 1, counter, f);
    } else {
      before := DeletionShape(stored[1..], disk, sequence, counter, f);
    }
  }

  /** An entry that is gone from disk, as a scan writes it down. */
  ghost predicate IsTombstoneOf(f: FileInfo, before: FileInfo, sequence: nat, counter: nat) {
    && f == before.(deleted := Some(true), size := 0, blocks := [], version := Increment(before.version, counter),
                    sequence := f.sequence)
    && f.sequence > sequence
  }

  lemma {:induction false} ReportedGone(db: Files, stored: seq<FileInfo>, disk: DiskView, sequence: nat, counter: nat, f: FileInfo)
    requires Lists(stored, db) && ProperView(disk) && f in ScanResult(db, stored, disk, sequence, counter) && f.name !in disk.existing
    ensures f.name in db && !db[f.name].IsDeleted() && f.name !in disk.downloading
    ensures IsTombstoneOf(f, db[f.name], sequence, counter)
  {
    hide Deletions, Modifications, Reordered, Increment, Changed;
    var gone := Deletions(stored, disk, sequence, counter);
    var found := Modifications(db, disk.scanned, sequence + |gone|, counter);
    ReorderedIsPermutation(gone + found);
    var k :| 0 <= k < |Reordered(gone + found)| && Cleared(Reordered(gone + found)[k]) == f;
    var raw := Reordered(gone + found)[k];
    assert raw in Reordered(gone + found);
    if raw in found {
      var g := InModifications(db, disk.scanned, sequence + |gone|, counter, raw);
      assert false;
    }
    var before := DeletionShape(stored, disk, sequence, counter, raw);
    assert db[before.name] == before;
  }

  /** A stored name whose path is gone is deleted after the scan unless it is being downloaded. What
      was live then is a tombstone with an incremented version; anything else is as it was. */
  lemma {:induction false} GoneIsDeletedIff(db: Files, stored: seq<FileInfo>, disk: DiskView, sequence: nat, counter: nat, n: string)
    requires Keyed(db) && Lists(stored, db) && ProperView(disk) && n in db && n !in disk.existing
    ensures var after := StoreAll(db, ScanResult(db, stored, disk, sequence, counter));
            && n in after
            && (after[n].IsDeleted() <==> db[n].IsDeleted() || n !in disk.downloading)
            && (if db[n].IsDeleted() || n in disk.downloading then after[n] == db[n]
                else IsTombstoneOf(after[n], db[n], sequence, counter))
  {
    hide ScanResult, StoreAll, Lists;
    var changed := ScanResult(db, stored, disk, sequence, counter);
    var after := StoreAll(db, changed);
    StoredAt(db, changed, n);
    if f :| f in changed && f.name == n {
      ReportedGone(db, stored, disk, sequence, counter, after[n]);
    } else {
      if !db[n].IsDeleted() && n !in disk.downloading {
        assert db[n] in stored by { ListsHolds(stored, db, n); }
        ScanReports(db, stored, disk, sequence, counter, db[n]);
      }
    }
  }

  lemma {:induction false} ListsHolds(stored: seq<FileInfo>, db: Files, n: string)
    requires Lists(stored, db) && n in db
    ensures db[n] in stored
  {
  }

  // ---- What a scan writes for a name it found ----

  /** The entry a scan writes for a found file: a new one starts at {1:1}, a changed one continues
      the stored version. */
  ghost predicate IsEntryFor(f: FileInfo, g: FileInfo, db: Files, sequence: nat, counter: nat) {
    && f == g.(sequence := f.sequence,
               version := if g.name in db then Increment(db[g.name].version, counter) else map[1 := 1])
    && f.sequence > sequence
  }

  lemma {:induction false} ModificationShape(db: Files, scanned: seq<FileInfo>, sequence: nat, counter: nat, f: FileInfo)
    returns (g: FileInfo)
    requires f in Modifications(db, scanned, sequence, counter)
    ensures g in scanned && IsEntryFor(f, g, db, sequence, counter)
    ensures g.name in db ==> !SameHashes(db[g.name].blocks, g.blocks)
    decreases |scanned|
  {
    hide Increment, SameHashes;
    if Changed(db, scanned[0]) {
      if f == NewEntry(db, scanned[0], sequence + 1, counter) {
        g := scanned[0];
      } else {
        g := ModificationShape(db, scanned[1..], sequence + 1, counter, f);
      }
    } else {
      g := ModificationShape(db, scanned[1..], sequence, counter, f);
    }
  }

  lemma {:induction false} ReportedFound(db: Files, stored: seq<FileInfo>, disk: DiskView, sequence: nat, counter: nat, f: FileInfo)
    returns (g: FileInfo)
    requires ProperView(disk) && f in ScanResult(db, stored, disk, sequence, counter) && f.name in disk.existing
    ensures g in disk.scanned && IsEntryFor(f, g, db, sequence, counter)
    ensures g.name in db ==> !SameHashes(db[g.name].blocks, g.blocks)
  {
    hide Deletions, Modifications, Reordered, Increment, SameHashes;
    var gone := Deletions(stored, disk, sequence, counter);
    var found := Modifications(db, disk.scanned, sequence + |gone|, counter);
    ReorderedIsPermutation(gone + found);
    var k :| 0 <= k < |Reordered(gone + found)| && Cleared(Reordered(gone + found)[k]) == f;
    var raw := Reordered(gone + found)[k];
    assert raw in Reordered(gone + found);
    if raw in gone {
      InDeletions(stored, disk, sequence, counter, raw);
      assert false;
    }
    g := ModificationShape(db, disk.scanned, sequence + |gone|, counter, raw);
  }

  /** A name found once on disk keeps its stored entry if the block hashes are the same, and
      otherwise gets an entry with what was found. */
  lemma {:induction false} FoundIsWritten(db: Files, stored: seq<FileInfo>, disk: DiskView, sequence: nat, counter: nat, g: FileInfo)
    requires ProperView(disk) && g in disk.scanned && forall h :: h in disk.scanned && h.name == g.name ==> h == g
    ensures var after := StoreAll(db, ScanResult(db, stored, disk, sequence, counter));
            && g.name in after
            && (if g.name in db && SameHashes(db[g.name].blocks, g.blocks) then after[g.name] == db[g.name]
                else IsEntryFor(after[g.name], g, db, sequence, counter))
  {
    hide ScanResult, StoreAll, SameHashes;
    var changed := ScanResult(db, stored, disk, sequence, counter);
    var after := StoreAll(db, changed);
    StoredAt(db, changed, g.name);
    if f :| f in changed && f.name == g.name {
      var h := ReportedFound(db, stored, disk, sequence, counter, after[g.name]);
    } else {
      if !(g.name in db && SameHashes(db[g.name].blocks, g.blocks)) {
        ScanReports(db, stored, disk, sequence, counter, g);
      }
    }
  }

  // ---- The numbers a scan writes ----

  ghost predicate InSequence(files: seq<FileInfo>, sequence: nat) {
    forall i :: 0 <= i < |files| ==> files[i].sequence == sequence + 1 + i
  }

  lemma {:induction false} InSequenceConcat(a: seq<FileInfo>, b: seq<FileInfo>, sequence: nat)
    requires InSequence(a, sequence) && InSequence(b, sequence + |a|)
    ensures InSequence(a + b, sequence)
  {
  }

  lemma {:induction false} DeletionNumbers(stored: seq<FileInfo>, disk: DiskView, sequence: nat, counter: nat)
    ensures InSequence(Deletions(stored, disk, sequence, counter), sequence)
    decreases |stored|
  {
    hide Vanished, Increment;
    if stored == [] {
    } else if Vanished(stored[0], disk) {
      DeletionNumbers(stored[1..], disk, sequence + 1, counter);
      InSequenceConcat([Tombstone(stored[0], sequence + 1, counter)], Deletions(stored[1..], disk, sequence + 1, counter), sequence);
    } else {
      DeletionNumbers(stored[1..], disk, sequence, counter);
    }
  }

  lemma {:induction false} ModificationNumbers(db: Files, scanned: seq<FileInfo>, sequence: nat, counter: nat)
    ensures InSequence(Modifications(db, scanned, sequence, counter), sequence)
    decreases |scanned|
  {
    hide Changed, Increment;
    if scanned == [] {
    } else if Changed(db, scanned[0]) {
      ModificationNumbers(db, scanned[1..], sequence + 1, counter);
      InSequenceConcat([NewEntry(db, scanned[0], sequence + 1, counter)],
                       Modifications(db, scanned[1..], sequence + 1, counter), sequence);
    } else {
      ModificationNumbers(db, scanned[1..], sequence, counter);
    }
  }

  ghost predicate HasNumber(files: seq<FileInfo>, q: int) {
    exists i :: 0 <= i < |files| && files[i].sequence == q
  }

  /** The entries are numbered from `sequence + 1` on without gap or repetition, in any order. */
  ghost predicate NumberedFrom(files: seq<FileInfo>, sequence: nat) {
    && (forall f :: f in files ==> sequence < f.sequence <= sequence + |files|)
    && (forall q :: sequence < q <= sequence + |files| ==> HasNumber(files, q))
    && (forall i, j :: 0 <= i < j < |files| ==> files[i].sequence != files[j].sequence)
  }

  lemma {:induction false} CountAtLeast(s: seq<FileInfo>, i: nat, j: nat)
    requires i < j < |s| && s[i] == s[j]
    ensures multiset(s)[s[i]] >= 2
  {
    var rest := s[..j] + s[j + 1..];
    assert s == s[..j] + [s[j]] + s[j + 1..];
    assert s[i] == s[..j][i];
    assert s[i] in multiset(s[..j]);
  }

  lemma {:induction false} PermutedNumbers(files: seq<FileInfo>, order: seq<FileInfo>, sequence: nat)
    requires InSequence(files, sequence)
    requires multiset(order) == multiset(files)
    ensures NumberedFrom(order, sequence)
  {
    SameSize(order, files);
    forall f
      ensures f in order <==> f in files
    {
      assert f in multiset(order) <==> f in multiset(files);
    }
    forall q | sequence < q <= sequence + |order|
      ensures HasNumber(order, q)
    {
      assert files[q - sequence - 1] in order;
    }
    forall i, j | 0 <= i < j < |order|
      ensures order[i].sequence != order[j].sequence
    {
      if order[i].sequence == order[j].sequence {
        assert order[i] in files && order[j] in files;
        CountAtLeast(order, i, j);
        OnlyOnce(files, order[i], sequence);
      }
    }
  }

  lemma {:induction false} OnlyOnce(files: seq<FileInfo>, f: FileInfo, sequence: nat)
    requires InSequence(files, sequence)
    ensures multiset(files)[f] <= 1
  {
    if files != [] {
      var front, last := files[..|files| - 1], files[|files| - 1];
      OnlyOnce(front, f, sequence);
      assert files == front + [last];
      if f == last {
        assert f !in front;
      }
    }
  }

  /** A scan numbers what it reports from the counter on, each number once. */
  lemma {:induction false} ScanNumbers(db: Files, stored: seq<FileInfo>, disk: DiskView, sequence: nat, counter: nat)
    ensures NumberedFrom(ScanResult(db, stored, disk, sequence, counter), sequence)
  {
    hide Deletions, Modifications, Reordered, NumberedFrom;
    var gone := Deletions(stored, disk, sequence, counter);
    var found := Modifications(db, disk.scanned, sequence + |gone|, counter);
    DeletionNumbers(stored, disk, sequence, counter);
    ModificationNumbers(db, disk.scanned, sequence + |gone|, counter);
    InSequenceConcat(gone, found, sequence);
    ReorderedIsPermutation(gone + found);
    PermutedNumbers(gone + found, Reordered(gone + found), sequence);
    ClearedNumbers(Reordered(gone + found), sequence);
  }

  lemma {:induction false} ClearedNumbers(files: seq<FileInfo>, sequence: nat)
    requires NumberedFrom(files, sequence)
    ensures NumberedFrom(ClearAll(files), sequence)
  {
    var cleared := ClearAll(files);
    assert forall i :: 0 <= i < |files| ==> cleared[i].sequence == files[i].sequence && files[i] in files;
    forall q | sequence < q <= sequence + |cleared|
      ensures HasNumber(cleared, q)
    {
      assert HasNumber(files, q);
      var i :| 0 <= i < |files| && files[i].sequence == q;
      assert cleared[i].sequence == q;
    }
  }

  // ---- Local changes reach the peers ----

  lemma {:induction false} IncrementBeats(before: FileInfo, now: FileInfo, counter: nat)
    requires now.version == Increment(before.version, counter)
    ensures Beats(now, before) && Accept(before, now) == now
  {
  }

  lemma {:induction false} DeletionVersion(stored: seq<FileInfo>, disk: DiskView, sequence: nat, counter: nat, f: FileInfo)
    returns (before: FileInfo)
    requires f in Deletions(stored, disk, sequence, counter)
    ensures before in stored && before.name == f.name && f.version == Increment(before.version, counter)
    decreases |stored|
  {
    hide Vanished, Increment;
    if Vanished(stored[0], disk) {
      if f == Tombstone(stored[0], sequence + 1, counter) {
        before := stored[0];
      } else {
        before := DeletionVersion(stored[1..], disk, sequence + 1, counter, f);
      }
    } else {
      before := DeletionVersion(stored[1..], disk, sequence, counter, f);
    }
  }

  lemma {:induction false} ModificationVersion(db: Files, scanned: seq<FileInfo>, sequence: nat, counter: nat, f: FileInfo)
    requires f in Modifications(db, scanned, sequence, counter) && f.name in db
    ensures f.version == Increment(db[f.name].version, counter)
    decreases |scanned|
  {
    hide Changed, Increment;
    if Changed(db, scanned[0]) {
      if f != NewEntry(db, scanned[0], sequence + 1, counter) {
        ModificationVersion(db, scanned[1..], sequence + 1, counter, f);
      }
    } else {
      ModificationVersion(db, scanned[1..], sequence, counter, f);
    }
  }

  /** Whatever a scan reports about a stored name continues the stored version. */
  lemma {:induction false} ReportedVersion(db: Files, stored: seq<FileInfo>, disk: DiskView, sequence: nat, counter: nat, f: FileInfo)
    requires Lists(stored, db) && f in ScanResult(db, stored, disk, sequence, counter) && f.name in db
    ensures f.version == Increment(db[f.name].version, counter)
  {
    hide Deletions, Modifications, Reordered, Increment;
    var gone := Deletions(stored, disk, sequence, counter);
    var found := Modifications(db, disk.scanned, sequence + |gone|, counter);
    ReorderedIsPermutation(gone + found);
    var k :| 0 <= k < |Reordered(gone + found)| && Cleared(Reordered(gone + found)[k]) == f;
    var raw := Reordered(gone + found)[k];
    assert raw in Reordered(gone + found);
    if raw in gone {
      var before := DeletionVersion(stored, disk, sequence, counter, raw);
    } else {
      ModificationVersion(db, disk.scanned, sequence + |gone|, counter, raw);
    }
  }

  /** A scan leaves a stored name as it is or stores what beats the old entry at every peer that
      holds it, whatever the clocks say. */
  lemma {:induction false} ScanBeatsOld(db: Files, stored: seq<FileInfo>, disk: DiskView, sequence: nat, counter: nat, n: string)
    requires Lists(stored, db) && n in db
    ensures var after := StoreAll(db, ScanResult(db, stored, disk, sequence, counter));
            n in after && (after[n] == db[n] || (Beats(after[n], db[n]) && Accept(db[n], after[n]) == after[n]))
  {
    hide ScanResult, StoreAll, Lists, Beats, Accept;
    var changed := ScanResult(db, stored, disk, sequence, counter);
    var after := StoreAll(db, changed);
    StoredAt(db, changed, n);
    if f :| f in changed && f.name == n {
      ReportedVersion(db, stored, disk, sequence, counter, after[n]);
      IncrementBeats(db[n], after[n], counter);
    }
  }
}
