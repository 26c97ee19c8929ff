/** Two file-metadata stores: a plain in-memory one, and one on disk behind an evicting cache. */
module Databases {
  import opened FileTypes

  // ---- Lists of entries, looked up by name ----

  function Find(list: seq<FileInfo>, name: string): Option<FileInfo> {
    if list == [] then None
    else if list[0].name == name then Some(list[0])
    else Find(list[1..], name)
  }

  function Upsert(list: seq<FileInfo>, info: FileInfo): seq<FileInfo> {
    if list == [] then [info]
    else if list[0].name == info.name then [info] + list[1..]
    else [list[0]] + Upsert(list[1..], info)
  }

  function Remove(list: seq<FileInfo>, name: string): seq<FileInfo> {
    if list == [] then []
    else (if list[0].name != name then [list[0]] else []) + Remove(list[1..], name)
  }

  lemma {:induction false} FindUpsert(list: seq<FileInfo>, info: FileInfo, name: string)
    ensures Find(Upsert(list, info), name) == if name == info.name then Some(info) else Find(list, name)
  {
    if list != [] && list[0].name != info.name {
      FindUpsert(list[1..], info, name);
    }
  }

  lemma {:induction false} FindRemove(list: seq<FileInfo>, gone: string, name: string)
    ensures Find(Remove(list, gone), name) == if name == gone then None else Find(list, name)
  {
    if list != [] {
      FindRemove(list[1..], gone, name);
      if list[0].name != gone {
        assert Remove(list, gone)[1..] == Remove(list[1..], gone);
      } else {
        assert Remove(list, gone) == Remove(list[1..], gone);
      }
    }
  }

  lemma {:induction false} FindSome(list: seq<FileInfo>, name: string)
    ensures Find(list, name).Some? ==> Find(list, name).value in list && Find(list, name).value.name == name
    ensures Find(list, name).None? ==> forall f :: f in list ==> f.name != name
  {
    if list != [] && list[0].name != name {
      FindSome(list[1..], name);
      assert forall f :: f in list <==> f == list[0] || f in list[1..];
    }
  }

  // ---- The in-memory store ----

  type MemState = map<string, seq<FileInfo>>

  function ListOf(m: MemState, folder: string): seq<FileInfo> {
    if folder in m then m[folder] else []
  }

  function MemGet(m: MemState, folder: string, name: string): Option<FileInfo> {
    Find(ListOf(m, folder), name)
  }

  function MemUpdate(m: MemState, folder: string, info: FileInfo): MemState {
    m[folder := Upsert(ListOf(m, folder), info)]
  }

  function MemDelete(m: MemState, folder: string, name: string): MemState {
    if folder in m then m[folder := Remove(m[folder], name)] else m
  }

  class MemoryDatabase {
    var files: MemState

    constructor ()
      ensures files == map[]
    {
      files := map[];
    }

    method GetFile(folder: string, name: string) returns (r: Option<FileInfo>)
      ensures r == MemGet(files, folder, name)
    {
      var list := ListOf(files, folder);
      for i := 0 to |list|
        invariant Find(list[i..], name) == Find(list, name)
      {
        if list[i].name == name {
          return Some(list[i]);
        }
        assert list[i..][1..] == list[i + 1..];
      }
      return None;
    }

    method UpdateFile(folder: string, info: FileInfo)
      modifies this
      ensures files == MemUpdate(old(files), folder, info)
    {
      files := files[folder := Upsert(ListOf(files, folder), info)];
    }

    method DeleteFile(folder: string, name: string)
      modifies this
      ensures files == MemDelete(old(files), folder, name)
    {
      if folder in files {
        files := files[folder := Remove(files[folder], name)];
      }
    }
  }

  // ---- The store on disk, with its cache ----

  /** File names on disk: slashes become underscores. */
  function Flat(name: string): string {
    seq(|name|, i requires 0 <= i < |name| => if name[i] == '/' then '_' else name[i])
  }

  type Disk = map<(string, string), FileInfo>

  datatype FsState = FsState(disk: Disk, cache: map<string, seq<FileInfo>>, cacheSize: int)

  function DiskGet(disk: Disk, folder: string, name: string): Option<FileInfo> {
    if (folder, Flat(name)) in disk then Some(disk[(folder, Flat(name))]) else None
  }

  function FsGet(s: FsState, folder: string, name: string): Option<FileInfo> {
    var cached := if folder in s.cache then Find(s.cache[folder], name) else None;
    if cached.Some? then cached else DiskGet(s.disk, folder, name)
  }

  /** One folder's cache entries are dropped; which folder is not determined. */
  function Evict(s: FsState, victim: string): FsState
    requires victim in s.cache
  {
    s.(cache := s.cache - {victim}, cacheSize := s.cacheSize - |s.cache[victim]|)
  }

  /** The state after the entry has been written and cached, before any eviction. */
  function Written(s: FsState, folder: string, info: FileInfo): FsState {
    var list := if folder in s.cache then s.cache[folder] else [];
    FsState(s.disk[(folder, Flat(info.name)) := info],
            s.cache[folder := Upsert(list, info)],
            if Find(list, info.name).None? then s.cacheSize + 1 else s.cacheSize)
  }

  ghost predicate FsUpdated(cap: nat, s: FsState, folder: string, info: FileInfo, s': FsState) {
    var w := Written(s, folder, info);
    if w.cacheSize > s.cacheSize && w.cacheSize > cap then
      exists victim :: victim in w.cache && s' == Evict(w, victim)
    else s' == w
  }

  function FsDeleted(s: FsState, folder: string, name: string): FsState {
    var list := if folder in s.cache then Remove(s.cache[folder], name) else [];
    FsState(s.disk - {(folder, Flat(name))},
            if folder in s.cache then s.cache[folder := list] else s.cache,
            if folder in s.cache then s.cacheSize - (|s.cache[folder]| - |list|) else s.cacheSize)
  }

  class FileSystemDatabase {
    var disk: Disk
    var cache: map<string, seq<FileInfo>>
    var cacheSize: int
    const cap: nat

    ghost function State(): FsState
      reads this
    {
      FsState(disk, cache, cacheSize)
    }

    constructor (disk: Disk, cap: nat)
      ensures State() == FsState(disk, map[], 0) && this.cap == cap
    {
      this.disk, this.cache, this.cacheSize, this.cap := disk, map[], 0, cap;
    }

    method GetFile(folder: string, name: string) returns (r: Option<FileInfo>)
      ensures r == FsGet(State(), folder, name)
    {
      if folder in cache {
        var cached := Find(cache[folder], name);
        if cached.Some? {
          return cached;
        }
      }
      if (folder, Flat(name)) !in disk {
        return None;
      }
      return Some(disk[(folder, Flat(name))]);
    }

    method EvictOneFolder() returns (count: nat)
      modifies this`cache, this`cacheSize
      ensures old(cache) == map[] ==> State() == old(State()) && count == 0
      ensures old(cache) != map[] ==>
                exists victim :: victim in old(cache) && State() == Evict(old(State()), victim)
    {
      if cache == map[] {
        return 0;
      }
      assert exists victim :: victim in cache;
      var victim :| victim in cache;
      count := |cache[victim]|;
      cache := cache - {victim};
      cacheSize := cacheSize - count;
    }

    method UpdateFile(folder: string, info: FileInfo)
      modifies this
      ensures FsUpdated(cap, old(State()), folder, info, State())
    {
      disk := disk[(folder, Flat(info.name)) := info];
      var list := if folder in cache then cache[folder] else [];
      var isNew := Find(list, info.name).None?;
      cache := cache[folder := Upsert(list, info)];
      if isNew {
        cacheSize := cacheSize + 1;
        if cacheSize > cap {
          assert folder in cache;
          var count := EvictOneFolder();
        }
      }
    }

    method DeleteFile(folder: string, name: string)
      modifies this
      ensures State() == FsDeleted(old(State()), folder, name)
    {
      disk := disk - {(folder, Flat(name))};
      if folder in cache {
        var before := |cache[folder]|;
        cache := cache[folder := Remove(cache[folder], name)];
        var after := |cache[folder]|;
        RemoveShorter(old(cache[folder]), name);
        if after < before {
          cacheSize := cacheSize - (before - after);
        }
      }
    }
  }

  lemma {:induction false} RemoveShorter(list: seq<FileInfo>, name: string)
    ensures |Remove(list, name)| <= |list|
  {
    if list != [] {
      RemoveShorter(list[1..], name);
    }
  }

  // ---- Runs of both stores ----

  datatype Op = Update(folder: string, info: FileInfo) | Delete(folder: string, name: string) {
    function Name(): string {
      if Update? then info.name else name
    }
  }

  ghost predicate FsNext(cap: nat, s: FsState, op: Op, s': FsState) {
    match op
    case Update(folder, info) => FsUpdated(cap, s, folder, info, s')
    case Delete(folder, name) => s' == FsDeleted(s, folder, name)
  }

  function MemNext(m: MemState, op: Op): MemState {
    match op
    case Update(folder, info) => MemUpdate(m, folder, info)
    case Delete(folder, name) => MemDelete(m, folder, name)
  }

  ghost predicate FsRun(cap: nat, s: FsState, ops: seq<Op>, s': FsState)
    decreases |ops|
  {
    if ops == [] then s' == s
    else exists m :: FsNext(cap, s, ops[0], m) && FsRun(cap, m, ops[1..], s')
  }

  function MemRun(m: MemState, ops: seq<Op>): MemState
    decreases |ops|
  {
    if ops == [] then m else MemRun(MemNext(m, ops[0]), ops[1..])
  }

  ghost predicate OpsOver(ops: seq<Op>, names: set<string>) {
    forall op :: op in ops ==> op.Name() in names
  }

  ghost predicate FlatInjective(names: set<string>) {
    forall a, b :: a in names && b in names && Flat(a) == Flat(b) ==> a == b
  }

  // ---- The cache invariant ----

  ghost predicate DistinctNames(list: seq<FileInfo>) {
    forall i, j :: 0 <= i < j < |list| ==> list[i].name != list[j].name
  }

  /** Every cached entry equals its copy on disk, and its name is one of `names`. */
  ghost predicate CacheMatchesDisk(s: FsState, names: set<string>) {
    forall folder, f :: folder in s.cache && f in s.cache[folder] ==>
      f.name in names && DiskGet(s.disk, folder, f.name) == Some(f)
  }

  ghost function Cached(cache: map<string, seq<FileInfo>>): set<(string, FileInfo)> {
    set folder, f | folder in cache && f in cache[folder] :: (folder, f)
  }

  ghost predicate FsInv(s: FsState, m: MemState, names: set<string>) {
    && CacheMatchesDisk(s, names)
    && (forall folder :: folder in s.cache ==> DistinctNames(s.cache[folder]))
    && s.cacheSize == |Cached(s.cache)|
    && (forall folder, name :: name in names ==> DiskGet(s.disk, folder, name) == MemGet(m, folder, name))
  }

  /** The invariant makes both stores answer alike. */
  lemma {:induction false} InvAgrees(s: FsState, m: MemState, names: set<string>, folder: string, name: string)
    requires FsInv(s, m, names) && name in names
    ensures FsGet(s, folder, name) == MemGet(m, folder, name)
  {
    hide Cached;
    if folder in s.cache {
      FindSome(s.cache[folder], name);
    }
  }

  lemma {:induction false} UpsertMembers(list: seq<FileInfo>, info: FileInfo)
    requires DistinctNames(list)
    ensures DistinctNames(Upsert(list, info))
    ensures forall f :: f in Upsert(list, info) <==> f == info || (f in list && f.name != info.name)
    ensures |Upsert(list, info)| == |list| + (if Find(list, info.name).None? then 1 else 0)
  {
    if list != [] {
      var rest := list[1..];
      assert list == [list[0]] + rest && DistinctNames(rest);
      assert forall f :: f in rest ==> f.name != list[0].name;
      if list[0].name != info.name {
        UpsertMembers(rest, info);
      }
    }
  }

  lemma {:induction false} RemoveMembers(list: seq<FileInfo>, name: string)
    requires DistinctNames(list)
    ensures DistinctNames(Remove(list, name))
    ensures forall f :: f in Remove(list, name) <==> f in list && f.name != name
    ensures |Remove(list, name)| == |list| - (if Find(list, name).None? then 0 else 1)
  {
    if list != [] {
      var rest := list[1..];
      assert list == [list[0]] + rest && DistinctNames(rest);
      assert forall f :: f in rest ==> f.name != list[0].name;
      RemoveMembers(rest, name);
      FindSome(rest, name);
    }
  }

  // ---- The size counter ----

  ghost function Pairs(folder: string, list: seq<FileInfo>): set<(string, FileInfo)> {
    set f | f in list :: (folder, f)
  }

  lemma {:induction false} PairsCount(folder: string, list: seq<FileInfo>)
    requires DistinctNames(list)
    ensures |Pairs(folder, list)| == |list|
  {
    if list != [] {
      var rest := list[1..];
      assert DistinctNames(rest);
      PairsCount(folder, rest);
      assert forall f :: f in list <==> f == list[0] || f in rest;
      assert forall f :: f in rest ==> f.name != list[0].name;
      assert Pairs(folder, list) == Pairs(folder, rest) + {(folder, list[0])};
    }
  }

  lemma {:induction false} CachedSet(cache: map<string, seq<FileInfo>>, folder: string, list: seq<FileInfo>)
    ensures Cached(cache[folder := list]) == Cached(cache - {folder}) + Pairs(folder, list)
  {
  }

  /** Replacing one folder's list changes the count by the change of that list's length. */
  lemma {:induction false} CachedCount(cache: map<string, seq<FileInfo>>, folder: string, list: seq<FileInfo>)
    requires DistinctNames(list) && (folder in cache ==> DistinctNames(cache[folder]))
    ensures |Cached(cache[folder := list])| == |Cached(cache - {folder})| + |list|
    ensures |Cached(cache)| == |Cached(cache - {folder})| + (if folder in cache then |cache[folder]| else 0)
  {
    CachedSet(cache, folder, list);
    PairsCount(folder, list);
    NoPairs(cache, folder, list);
    if folder in cache {
      var own := cache[folder];
      assert cache == cache[folder := own];
      CachedSet(cache, folder, own);
      PairsCount(folder, own);
      NoPairs(cache, folder, own);
    } else {
      assert cache - {folder} == cache;
    }
  }

  lemma {:induction false} NoPairs(cache: map<string, seq<FileInfo>>, folder: string, list: seq<FileInfo>)
    ensures Cached(cache - {folder}) !! Pairs(folder, list)
  {
  }

  // ---- Every operation keeps the invariant ----

  lemma {:induction false} WrittenKeepsInv(s: FsState, m: MemState, names: set<string>, folder: string, info: FileInfo)
    requires FsInv(s, m, names) && FlatInjective(names) && info.name in names
    ensures FsInv(Written(s, folder, info), MemUpdate(m, folder, info), names)
  {
    hide Cached, Flat, Find, Upsert;
    var list := if folder in s.cache then s.cache[folder] else [];
    assert DistinctNames(list);
    UpsertMembers(list, info);
    CachedCount(s.cache, folder, Upsert(list, info));
    UpdateOnDisk(s.disk, m, names, folder, info);
  }

  lemma {:induction false} UpdateOnDisk(disk: Disk, m: MemState, names: set<string>, folder: string, info: FileInfo)
    requires FlatInjective(names) && info.name in names
    requires forall f, n :: n in names ==> DiskGet(disk, f, n) == MemGet(m, f, n)
    ensures forall f, n :: n in names ==>
              DiskGet(disk[(folder, Flat(info.name)) := info], f, n) == MemGet(MemUpdate(m, folder, info), f, n)
  {
    hide Flat, Find, Upsert;
    forall f, n | n in names
      ensures DiskGet(disk[(folder, Flat(info.name)) := info], f, n) == MemGet(MemUpdate(m, folder, info), f, n)
    {
      FindUpsert(ListOf(m, folder), info, n);
      assert DiskGet(disk, f, n) == MemGet(m, f, n);
    }
  }

  lemma {:induction false} EvictKeepsInv(s: FsState, m: MemState, names: set<string>, victim: string)
    requires FsInv(s, m, names) && victim in s.cache
    ensures FsInv(Evict(s, victim), m, names)
  {
    hide Cached, Flat, Find;
    CachedCount(s.cache, victim, []);
  }

  lemma {:induction false} DeletedKeepsInv(s: FsState, m: MemState, names: set<string>, folder: string, name: string)
    requires FsInv(s, m, names) && FlatInjective(names) && name in names
    ensures FsInv(FsDeleted(s, folder, name), MemDelete(m, folder, name), names)
  {
    hide Cached, Flat, Find, Remove;
    DeleteOnDisk(s.disk, m, names, folder, name);
    if folder in s.cache {
      RemoveMembers(s.cache[folder], name);
      CachedCount(s.cache, folder, Remove(s.cache[folder], name));
    }
  }

  lemma {:induction false} DeleteOnDisk(disk: Disk, m: MemState, names: set<string>, folder: string, name: string)
    requires FlatInjective(names) && name in names
    requires forall f, n :: n in names ==> DiskGet(disk, f, n) == MemGet(m, f, n)
    ensures forall f, n :: n in names ==>
              DiskGet(disk - {(folder, Flat(name))}, f, n) == MemGet(MemDelete(m, folder, name), f, n)
  {
    hide Flat, Find, Remove;
    forall f, n | n in names
      ensures DiskGet(disk - {(folder, Flat(name))}, f, n) == MemGet(MemDelete(m, folder, name), f, n)
    {
      FindRemove(ListOf(m, folder), name, n);
      assert DiskGet(disk, f, n) == MemGet(m, f, n);
      if folder !in m {
        FindNothing(n);
      }
    }
  }

  lemma {:induction false} FindNothing(name: string)
    ensures Find([], name) == None
  {
  }

  lemma {:induction false} NextKeepsInv(cap: nat, s: FsState, m: MemState, names: set<string>, op: Op, s': FsState)
    requires FsInv(s, m, names) && FlatInjective(names) && op.Name() in names && FsNext(cap, s, op, s')
    ensures FsInv(s', MemNext(m, op), names)
  {
    hide FsInv, Written, FsDeleted, MemUpdate, MemDelete, Flat;
    match op
    case Update(folder, info) =>
      WrittenKeepsInv(s, m, names, folder, info);
      var w := Written(s, folder, info);
      if s' != w {
        var victim :| victim in w.cache && s' == Evict(w, victim);
        EvictKeepsInv(w, MemUpdate(m, folder, info), names, victim);
      }
    case Delete(folder, name) =>
      DeletedKeepsInv(s, m, names, folder, name);
  }

  lemma {:induction false} RunKeepsInv(cap: nat, s: FsState, m: MemState, names: set<string>, ops: seq<Op>, s': FsState)
    requires FsInv(s, m, names) && FlatInjective(names) && OpsOver(ops, names) && FsRun(cap, s, ops, s')
    ensures FsInv(s', MemRun(m, ops), names)
    decreases |ops|
  {
    hide FsInv, FsNext, MemNext, FlatInjective;
    if ops != [] {
      var next :| FsNext(cap, s, ops[0], next) && FsRun(cap, next, ops[1..], s');
      assert ops[0] in ops && forall op :: op in ops[1..] ==> op in ops;
      NextKeepsInv(cap, s, m, names, ops[0], next);
      RunKeepsInv(cap, next, MemNext(m, ops[0]), names, ops[1..], s');
    }
  }

  const EMPTY := FsState(map[], map[], 0)

  lemma {:induction false} EmptyInv(names: set<string>)
    ensures FsInv(EMPTY, map[], names)
  {
  }

  /** After every run of single-file operations over names that stay distinct on disk, and
      whatever was evicted, both stores answer every lookup alike, every cached entry equals
      its disk copy, and the counter is the number of cached entries. */
  lemma {:induction false} RunsAgree(cap: nat, names: set<string>, ops: seq<Op>, s: FsState)
    requires FlatInjective(names) && OpsOver(ops, names) && FsRun(cap, EMPTY, ops, s)
    ensures forall folder, name :: name in names ==> FsGet(s, folder, name) == MemGet(MemRun(map[], ops), folder, name)
    ensures CacheMatchesDisk(s, names) && s.cacheSize == |Cached(s.cache)|
  {
    hide FsRun, MemRun, FsGet, MemGet, FlatInjective;
    EmptyInv(names);
    RunKeepsInv(cap, EMPTY, map[], names, ops, s);
    forall folder, name | name in names
      ensures FsGet(s, folder, name) == MemGet(MemRun(map[], ops), folder, name)
    {
      InvAgrees(s, MemRun(map[], ops), names, folder, name);
    }
  }

  /** Two names that collide on disk are told apart by one store only, after a single update. */
  lemma {:induction false} CollisionDisagrees(cap: nat, info: FileInfo, other: string)
    requires info.name != other && Flat(info.name) == Flat(other)
    ensures exists s :: FsRun(cap, EMPTY, [Update("f", info)], s)
                     && FsGet(s, "f", other) != MemGet(MemRun(map[], [Update("f", info)]), "f", other)
  {
    hide Flat;
    var op, w := Update("f", info), Written(EMPTY, "f", info);
    var s := if cap == 0 then Evict(w, "f") else w;
    assert FsNext(cap, EMPTY, op, s);
    var ops := [op];
    assert ops[1..] == [];
    assert FsRun(cap, s, ops[1..], s);
    assert Upsert([], info) == [info] && [info][1..] == [];
    assert Find([info], other) == None;
    assert FsGet(s, "f", other) == Some(info);
    assert MemRun(map[], ops) == MemNext(map[], op);
    assert MemGet(MemRun(map[], ops), "f", other) == None;
  }

  ghost predicate AlwaysAgree(cap: nat, names: set<string>) {
    forall ops, s, folder, name ::
      OpsOver(ops, names) && FsRun(cap, EMPTY, ops, s) && name in names ==>
        FsGet(s, folder, name) == MemGet(MemRun(map[], ops), folder, name)
  }

  /** The cached store is a faithful stand-in for the plain one exactly on sets of names that
      stay distinct when `/` becomes `_`. */
  lemma {:induction false} AgreementIff(cap: nat, names: set<string>)
    ensures AlwaysAgree(cap, names) <==> FlatInjective(names)
  {
    hide FsRun, MemRun, FsGet, MemGet, Flat;
    if FlatInjective(names) {
      forall ops, s, folder, name | OpsOver(ops, names) && FsRun(cap, EMPTY, ops, s) && name in names
        ensures FsGet(s, folder, name) == MemGet(MemRun(map[], ops), folder, name)
      {
        RunsAgree(cap, names, ops, s);
      }
    } else {
      var a, b :| a in names && b in names && Flat(a) == Flat(b) && a != b;
      var info := FileInfo(a, File, 0, 0, 0, 0, map[], 0, [], None);
      CollisionDisagrees(cap, info, b);
      assert OpsOver([Update("f", info)], names);
    }
  }

  // ---- The capacity of the cache ----

  /** The update brings a name that is not cached, and there is no room left. */
  predicate Overflows(cap: nat, s: FsState, folder: string, info: FileInfo) {
    (folder in s.cache ==> Find(s.cache[folder], info.name).None?) && s.cacheSize >= cap
  }

  /** Cached folders without a single entry, which deletions leave behind. */
  ghost function Empties(cache: map<string, seq<FileInfo>>): set<string> {
    set folder | folder in cache && cache[folder] == []
  }

  lemma {:induction false} UpsertNotEmpty(list: seq<FileInfo>, info: FileInfo)
    ensures Upsert(list, info) != []
  {
  }

  lemma {:induction false} SubsetSize(a: set<string>, b: set<string>)
    requires a <= b
    ensures |a| <= |b|
  {
    assert b == a + (b - a);
    assert |a + (b - a)| == |a| + |b - a|;
  }

  /** What every state after `deletions` deletions satisfies. */
  ghost predicate WithinBound(cap: nat, s: FsState, deletions: nat) {
    s.cacheSize + |Empties(s.cache)| <= cap + deletions && |Empties(s.cache)| <= deletions
  }

  lemma {:induction false} WrittenEmpties(s: FsState, folder: string, info: FileInfo)
    ensures Empties(Written(s, folder, info).cache) == Empties(s.cache) - {folder}
  {
    UpsertNotEmpty(if folder in s.cache then s.cache[folder] else [], info);
    hide Upsert;
  }

  lemma {:induction false} EvictEmpties(s: FsState, victim: string)
    requires victim in s.cache
    ensures Empties(Evict(s, victim).cache) == Empties(s.cache) - {victim}
    ensures s.cache[victim] == [] ==> |Empties(Evict(s, victim).cache)| == |Empties(s.cache)| - 1
  {
    if s.cache[victim] == [] {
      assert victim in Empties(s.cache);
    }
  }

  lemma {:induction false} UpdateWithinBound(cap: nat, s: FsState, folder: string, info: FileInfo, s': FsState, deletions: nat)
    requires WithinBound(cap, s, deletions) && FsUpdated(cap, s, folder, info, s')
    ensures WithinBound(cap, s', deletions)
  {
    hide Upsert, Find, Empties;
    var w := Written(s, folder, info);
    WrittenEmpties(s, folder, info);
    SubsetSize(Empties(w.cache), Empties(s.cache));
    if w.cacheSize > s.cacheSize && w.cacheSize > cap {
      var victim :| victim in w.cache && s' == Evict(w, victim);
      EvictEmpties(w, victim);
      SubsetSize(Empties(s'.cache), Empties(w.cache));
    }
  }

  lemma {:induction false} DeleteWithinBound(cap: nat, s: FsState, folder: string, name: string, deletions: nat)
    requires WithinBound(cap, s, deletions)
    ensures WithinBound(cap, FsDeleted(s, folder, name), deletions + 1)
  {
    hide Remove;
    var t := FsDeleted(s, folder, name);
    if folder in s.cache {
      RemoveShorter(s.cache[folder], name);
    }
    assert Empties(t.cache) <= Empties(s.cache) + {folder};
    SubsetSize(Empties(t.cache), Empties(s.cache) + {folder});
    assert |Empties(s.cache) + {folder}| <= |Empties(s.cache)| + 1;
  }

  function DeletionsIn(ops: seq<Op>): nat {
    if ops == [] then 0 else (if ops[0].Delete? then 1 else 0) + DeletionsIn(ops[1..])
  }

  lemma {:induction false} RunWithinBound(cap: nat, s: FsState, ops: seq<Op>, s': FsState, deletions: nat)
    requires WithinBound(cap, s, deletions) && FsRun(cap, s, ops, s')
    ensures WithinBound(cap, s', deletions + DeletionsIn(ops))
    decreases |ops|
  {
    hide FsUpdated, FsDeleted, WithinBound;
    if ops != [] {
      var m :| FsNext(cap, s, ops[0], m) && FsRun(cap, m, ops[1..], s');
      match ops[0] {
        case Update(folder, info) =>
          UpdateWithinBound(cap, s, folder, info, m, deletions);
          RunWithinBound(cap, m, ops[1..], s', deletions);
        case Delete(folder, name) =>
          DeleteWithinBound(cap, s, folder, name, deletions);
          RunWithinBound(cap, m, ops[1..], s', deletions + 1);
      }
    }
  }

  /** Over every run the cache exceeds its capacity by at most the number of deletions; runs of
      updates alone never exceed it. */
  lemma {:induction false} CacheBounded(cap: nat, ops: seq<Op>, s: FsState)
    requires FsRun(cap, EMPTY, ops, s)
    ensures s.cacheSize <= cap + DeletionsIn(ops)
    ensures (forall op :: op in ops ==> op.Update?) ==> s.cacheSize <= cap
  {
    hide FsRun;
    assert Empties(EMPTY.cache) == {};
    RunWithinBound(cap, EMPTY, ops, s, 0);
    NoDeletions(ops);
  }

  lemma {:induction false} NoDeletions(ops: seq<Op>)
    ensures (forall op :: op in ops ==> op.Update?) ==> DeletionsIn(ops) == 0
  {
    if ops != [] {
      NoDeletions(ops[1..]);
      assert ops[0] in ops && forall op :: op in ops[1..] ==> op in ops;
    }
  }

  /** From a state within the capacity an update is sure to stay within it exactly when it does not
      overflow, or no other cached folder is empty: evicting an empty one frees nothing. */
  lemma {:induction false} CapacityKeptIff(cap: nat, s: FsState, folder: string, info: FileInfo)
    requires s.cacheSize <= cap
    ensures (forall s' :: FsUpdated(cap, s, folder, info, s') ==> s'.cacheSize <= cap) <==>
            !Overflows(cap, s, folder, info) || (forall f :: f in s.cache && f != folder ==> s.cache[f] != [])
  {
    var w := Written(s, folder, info);
    FindNothing(info.name);
    UpsertNotEmpty(if folder in s.cache then s.cache[folder] else [], info);
    hide Upsert, Find;
    assert Overflows(cap, s, folder, info) <==> w.cacheSize > s.cacheSize && w.cacheSize > cap;
    if Overflows(cap, s, folder, info) {
      if f :| f in s.cache && f != folder && s.cache[f] == [] {
        assert w.cache[f] == [];
        var t := Evict(w, f);
        assert FsUpdated(cap, s, folder, info, t) && t.cacheSize > cap;
      } else {
        forall s' | FsUpdated(cap, s, folder, info, s')
          ensures s'.cacheSize <= cap
        {
          var victim :| victim in w.cache && s' == Evict(w, victim);
          assert w.cache[victim] != [];
        }
      }
    }
  }

  /** The capacity is one. Folder `f` is emptied, so that evicting it for the second entry of `g`
      frees nothing, and two entries stay cached. */
  lemma {:induction false} CapacityExceeded(a: FileInfo, b: FileInfo, c: FileInfo)
    requires b.name != c.name
    ensures exists s :: FsRun(1, EMPTY, [Update("f", a), Delete("f", a.name), Update("g", b), Update("g", c)], s) && s.cacheSize == 2
  {
    var ops := [Update("f", a), Delete("f", a.name), Update("g", b), Update("g", c)];
    var s1 := Written(EMPTY, "f", a);
    var s2 := FsDeleted(s1, "f", a.name);
    var s3 := Written(s2, "g", b);
    var w := Written(s3, "g", c);
    var s4 := Evict(w, "f");
    assert Upsert([], a) == [a] && Remove([a], a.name) == [] && Upsert([], b) == [b] && Upsert([b], c) == [b, c];
    assert s3.cache["g"] == [b] && Find([b], c.name) == None;
    assert FsUpdated(1, EMPTY, "f", a, s1) && FsUpdated(1, s2, "g", b, s3) && FsUpdated(1, s3, "g", c, s4);
    FourSteps(1, ops, s1, s2, s3, s4);
  }

  lemma {:induction false} FourSteps(cap: nat, ops: seq<Op>, s1: FsState, s2: FsState, s3: FsState, s4: FsState)
    requires |ops| == 4 && FsNext(cap, EMPTY, ops[0], s1) && FsNext(cap, s1, ops[1], s2)
    requires FsNext(cap, s2, ops[2], s3) && FsNext(cap, s3, ops[3], s4)
    ensures FsRun(cap, EMPTY, ops, s4)
  {
    hide FsNext;
    var o1, o2, o3 := ops[1..], ops[2..], ops[3..];
    assert o1[1..] == o2 && o2[1..] == o3 && o3[1..] == [];
    assert FsRun(cap, s4, [], s4);
    assert FsRun(cap, s3, o3, s4) && o3[0] == ops[3];
    assert FsRun(cap, s2, o2, s4) && o2[0] == ops[2];
    assert FsRun(cap, s1, o1, s4);
  }

  /** An update that does not overflow leaves every other cached entry in the cache. */
  lemma {:induction false} NothingDropped(cap: nat, s: FsState, folder: string, info: FileInfo, s': FsState, g: string, n: string)
    requires FsUpdated(cap, s, folder, info, s') && !Overflows(cap, s, folder, info)
    requires g in s.cache && (g != folder || n != info.name)
    ensures g in s'.cache && Find(s'.cache[g], n) == Find(s.cache[g], n)
  {
    FindNothing(info.name);
    FindUpsert(if folder in s.cache then s.cache[folder] else [], info, n);
    hide Upsert, Find;
  }

  /** An update that overflows drops exactly one folder from the cache and keeps all others. */
  lemma {:induction false} OneFolderDropped(cap: nat, s: FsState, folder: string, info: FileInfo, s': FsState) returns (victim: string)
    requires FsUpdated(cap, s, folder, info, s') && Overflows(cap, s, folder, info)
    ensures victim in s.cache.Keys + {folder} && s'.cache.Keys == s.cache.Keys + {folder} - {victim}
    ensures forall g :: g in s'.cache && g != folder ==> s'.cache[g] == s.cache[g]
  {
    FindNothing(info.name);
    hide Upsert, Find;
    var w := Written(s, folder, info);
    victim :| victim in w.cache && s' == Evict(w, victim);
  }
}
