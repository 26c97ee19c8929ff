/** The recursive walk over a folder, and the filter of the incremental path. */
module ScanTree {
  import opened Paths
  import opened IgnoreRules

  datatype Node = FileNode | DirNode(entries: seq<Entry>)

  datatype Entry = Entry(name: string, node: Node)

  datatype Found = Found(path: string, isDir: bool)

  const DEFAULT_IGNORED_NAMES := [
    ".stfolder", ".stversions", ".sttrash", ".stignore", "config.json", "cert.pem", "key.pem", "db", "logs"]

  predicate Contains(s: string, part: string) {
    exists i | 0 <= i <= |s| :: part <= s[i..]
  }

  predicate DefaultIgnored(name: string) {
    name in DEFAULT_IGNORED_NAMES
  }

  /** Temporary, hidden and conflict files, which only the recursive walk filters out. */
  predicate ExtraSkipped(name: string) {
    || EndsWith(name, ".syncthing.tmp") || EndsWith(name, "~syncthing~")
    || (name != "" && (name[0] == '.' || name[0] == '~')) || EndsWith(name, ".tmp")
    || Contains(name, ".sync-conflict-")
  }

  predicate NameSkipped(name: string) {
    DefaultIgnored(name) || ExtraSkipped(name)
  }

  function RelativePath(prefix: string, name: string): string {
    if prefix == "" then Normalize(name) else Normalize(prefix) + "/" + Normalize(name)
  }

  function Push(prefix: string, name: string): string {
    if prefix == "" then name else prefix + "/" + name
  }

  // ---- The walk ----

  ghost function ScanEntry(rules: seq<IgnoreRule>, e: Entry, prefix: string): seq<Found>
    decreases e, 1
  {
    if NameSkipped(e.name) || Ignored(rules, RelativePath(prefix, e.name), e.node.DirNode?) then []
    else if e.node.DirNode? then
      Scan(rules, e.node.entries, Push(prefix, e.name)) + [Found(RelativePath(prefix, e.name), true)]
    else [Found(RelativePath(prefix, e.name), false)]
  }

  ghost function Scan(rules: seq<IgnoreRule>, entries: seq<Entry>, prefix: string): seq<Found>
    decreases entries, 0
  {
    if entries == [] then []
    else ScanEntry(rules, entries[0], prefix) + Scan(rules, entries[1..], prefix)
  }

  method ScanOne(matcher: IgnoreMatcher, e: Entry, prefix: string) returns (files: seq<Found>)
    ensures files == ScanEntry(matcher.rules, e, prefix)
    decreases e, 1
  {
    hide Ignored;
    if NameSkipped(e.name) {
      return [];
    }
    var path := RelativePath(prefix, e.name);
    var ignored := matcher.Matches(path, e.node.DirNode?);
    if ignored {
      return [];
    }
    if e.node.DirNode? {
      files := ScanDirectory(matcher, e.node.entries, Push(prefix, e.name));
      files := files + [Found(path, true)];
    } else {
      files := [Found(path, false)];
    }
  }

  /** Walks a directory; a subdirectory's contents come before the subdirectory itself. */
  method ScanDirectory(matcher: IgnoreMatcher, entries: seq<Entry>, prefix: string) returns (files: seq<Found>)
    ensures files == Scan(matcher.rules, entries, prefix)
    decreases entries, 0
  {
    hide ScanEntry;
    files := [];
    for i := 0 to |entries|
      invariant files + Scan(matcher.rules, entries[i..], prefix) == Scan(matcher.rules, entries, prefix)
    {
      assert entries[i..][1..] == entries[i + 1..];
      var found := ScanOne(matcher, entries[i], prefix);
      files := files + found;
    }
  }

  // ---- Trees and paths into them ----

  /** Directory entries have proper, pairwise different names. */
  ghost predicate ValidTree(entries: seq<Entry>)
    decreases entries
  {
    && (forall i :: 0 <= i < |entries| ==> ProperName(entries[i].name))
    && (forall i, j :: 0 <= i < j < |entries| ==> entries[i].name != entries[j].name)
    && (forall i :: 0 <= i < |entries| && entries[i].node.DirNode? ==> ValidTree(entries[i].node.entries))
  }

  ghost predicate StepsInto(e: Entry, comps: seq<string>, node: Node)
    requires comps != []
    decreases comps, 0
  {
    && e.name == comps[0]
    && (if |comps| == 1 then e.node == node else e.node.DirNode? && Leads(e.node.entries, comps[1..], node))
  }

  /** The component path leads from a directory's entries to a node. */
  ghost predicate Leads(entries: seq<Entry>, comps: seq<string>, node: Node)
    decreases comps, 1
  {
    comps != [] && exists i :: 0 <= i < |entries| && StepsInto(entries[i], comps, node)
  }

  lemma {:induction false} LeadsProper(entries: seq<Entry>, comps: seq<string>, node: Node)
    requires ValidTree(entries) && Leads(entries, comps, node)
    ensures ProperNames(comps)
    decreases |comps|
  {
    var i :| 0 <= i < |entries| && StepsInto(entries[i], comps, node);
    if |comps| > 1 {
      LeadsProper(entries[i].node.entries, comps[1..], node);
      assert forall k :: 0 < k < |comps| ==> comps[k] == comps[1..][k - 1];
    }
  }

  lemma {:induction false} RelativePathIsJoin(pre: seq<string>, name: string)
    requires ProperNames(pre) && ProperName(name)
    ensures RelativePath(Join(pre, '/'), name) == Join(pre + [name], '/')
    ensures Push(Join(pre, '/'), name) == Join(pre + [name], '/')
  {
    NoBackslash(pre);
    JoinSnoc(pre, name);
    if pre != [] {
      GrownPrefixIsJoin(pre, |pre|);
      assert pre[..|pre|] == pre;
    }
  }

  lemma {:induction false} JoinInjective(a: seq<string>, b: seq<string>)
    requires a != [] && b != [] && ProperNames(a) && ProperNames(b)
    requires Join(a, '/') == Join(b, '/')
    ensures a == b
  {
    SplitJoin(a, '/');
    SplitJoin(b, '/');
  }

  lemma {:induction false} InScan(rules: seq<IgnoreRule>, entries: seq<Entry>, prefix: string, f: Found)
    ensures f in Scan(rules, entries, prefix) <==>
            exists i :: 0 <= i < |entries| && f in ScanEntry(rules, entries[i], prefix)
    decreases |entries|
  {
    hide ScanEntry;
    if entries != [] {
      InScan(rules, entries[1..], prefix, f);
      if i :| 0 <= i < |entries[1..]| && f in ScanEntry(rules, entries[1..][i], prefix) {
        assert entries[i + 1] == entries[1..][i];
      }
      if i :| 0 <= i < |entries| && f in ScanEntry(rules, entries[i], prefix) {
        assert i > 0 ==> entries[1..][i - 1] == entries[i];
      }
    }
  }

  /** Everything found through an entry lies at or below it. */
  lemma {:induction false} FoundBelow(rules: seq<IgnoreRule>, e: Entry, pre: seq<string>, f: Found) returns (rest: seq<string>)
    requires ProperName(e.name) && ProperNames(pre) && (e.node.DirNode? ==> ValidTree(e.node.entries))
    requires f in ScanEntry(rules, e, Join(pre, '/'))
    ensures ProperNames(rest) && f.path == Join(pre + [e.name] + rest, '/')
    decreases e
  {
    hide Ignored, NameSkipped, Scan, RelativePath, Push;
    RelativePathIsJoin(pre, e.name);
    rest := [];
    assert pre + [e.name] + [] == pre + [e.name];
    if e.node.DirNode? && f.path != Join(pre + [e.name], '/') {
      InScan(rules, e.node.entries, Join(pre + [e.name], '/'), f);
      var i :| 0 <= i < |e.node.entries| && f in ScanEntry(rules, e.node.entries[i], Join(pre + [e.name], '/'));
      var below := FoundBelow(rules, e.node.entries[i], pre + [e.name], f);
      rest := [e.node.entries[i].name] + below;
      assert pre + [e.name] + [e.node.entries[i].name] + below == pre + [e.name] + rest;
    }
  }

  /** Only the entry with the right name can find a path. */
  lemma {:induction false} OnlyThroughItsEntry(rules: seq<IgnoreRule>, entries: seq<Entry>, pre: seq<string>,
                                               comps: seq<string>, f: Found, i: nat)
    requires ValidTree(entries) && ProperNames(pre) && comps != [] && ProperNames(comps)
    requires i < |entries| && entries[i].name == comps[0] && f.path == Join(pre + comps, '/')
    ensures f in Scan(rules, entries, Join(pre, '/')) <==> f in ScanEntry(rules, entries[i], Join(pre, '/'))
  {
    hide ScanEntry, Scan;
    InScan(rules, entries, Join(pre, '/'), f);
    if j :| 0 <= j < |entries| && f in ScanEntry(rules, entries[j], Join(pre, '/')) {
      var rest := FoundBelow(rules, entries[j], pre, f);
      var other := pre + [entries[j].name] + rest;
      JoinInjective(pre + comps, other);
      assert (pre + comps)[|pre|] == comps[0] && other[|pre|] == entries[j].name;
    }
  }

  /** No component is filtered by name, and no directory above nor the path itself is ignored. */
  ghost predicate Passes(rules: seq<IgnoreRule>, pre: seq<string>, comps: seq<string>, isDir: bool) {
    && (forall i :: 0 <= i < |comps| ==> !NameSkipped(comps[i]))
    && (forall k :: 1 <= k <= |comps| ==> !Ignored(rules, Join(pre + comps[..k], '/'), k < |comps| || isDir))
  }

  lemma {:induction false} PassesStep(rules: seq<IgnoreRule>, pre: seq<string>, comps: seq<string>, isDir: bool)
    requires |comps| > 1
    ensures Passes(rules, pre, comps, isDir) <==>
            && !NameSkipped(comps[0]) && !Ignored(rules, Join(pre + [comps[0]], '/'), true)
            && Passes(rules, pre + [comps[0]], comps[1..], isDir)
  {
    hide Ignored, NameSkipped;
    var rest := comps[1..];
    forall k | 1 <= k <= |rest|
      ensures pre + [comps[0]] + rest[..k] == pre + comps[..k + 1]
    {
    }
    assert pre + comps[..1] == pre + [comps[0]];
    if Passes(rules, pre, comps, isDir) {
      forall k | 1 <= k <= |rest|
        ensures !Ignored(rules, Join(pre + [comps[0]] + rest[..k], '/'), k < |rest| || isDir)
      {
        assert !Ignored(rules, Join(pre + comps[..k + 1], '/'), k + 1 < |comps| || isDir);
      }
      assert !Ignored(rules, Join(pre + comps[..1], '/'), 1 < |comps| || isDir);
    } else if !NameSkipped(comps[0]) && !Ignored(rules, Join(pre + [comps[0]], '/'), true) {
      if k :| 1 <= k <= |comps| && Ignored(rules, Join(pre + comps[..k], '/'), k < |comps| || isDir) {
        assert k > 1;
        assert pre + [comps[0]] + rest[..k - 1] == pre + comps[..k];
      }
    }
  }

  lemma {:induction false} WalkReaches(rules: seq<IgnoreRule>, entries: seq<Entry>, pre: seq<string>,
                                       comps: seq<string>, node: Node)
    requires ValidTree(entries) && ProperNames(pre) && Leads(entries, comps, node)
    ensures Found(Join(pre + comps, '/'), node.DirNode?) in Scan(rules, entries, Join(pre, '/'))
            <==> Passes(rules, pre, comps, node.DirNode?)
    decreases |comps|
  {
    hide Ignored, NameSkipped, Scan, Passes, RelativePath, Push;
    var i :| 0 <= i < |entries| && StepsInto(entries[i], comps, node);
    var e, f := entries[i], Found(Join(pre + comps, '/'), node.DirNode?);
    LeadsProper(entries, comps, node);
    OnlyThroughItsEntry(rules, entries, pre, comps, f, i);
    RelativePathIsJoin(pre, e.name);
    if |comps| == 1 {
      assert comps == [e.name];
      WalkEndsHere(rules, e, pre, f);
    } else {
      PassesStep(rules, pre, comps, node.DirNode?);
      WalkReaches(rules, e.node.entries, pre + [e.name], comps[1..], node);
      assert pre + [e.name] + comps[1..] == pre + comps;
      if f.path == Join(pre + [e.name], '/') {
        JoinInjective(pre + comps, pre + [e.name]);
        assert |pre + comps| == |pre| + |comps|;
      }
    }
  }

  lemma {:induction false} WalkEndsHere(rules: seq<IgnoreRule>, e: Entry, pre: seq<string>, f: Found)
    requires ProperName(e.name) && ProperNames(pre)
    requires f == Found(Join(pre + [e.name], '/'), e.node.DirNode?)
    ensures f in ScanEntry(rules, e, Join(pre, '/')) <==> Passes(rules, pre, [e.name], e.node.DirNode?)
  {
    hide Ignored, NameSkipped, Scan, RelativePath;
    RelativePathIsJoin(pre, e.name);
    var one := [e.name];
    assert one[..1] == one;
    if Passes(rules, pre, one, e.node.DirNode?) {
      assert !NameSkipped(one[0]) && !Ignored(rules, Join(pre + one[..1], '/'), 1 < |one| || e.node.DirNode?);
    }
  }

  /** A path of the tree is found by the recursive walk exactly when no component is filtered
      by name and the check of the path with its ancestors does not ignore it. */
  lemma {:induction false} WalkVisitsIff(rules: seq<IgnoreRule>, root: seq<Entry>, comps: seq<string>, node: Node)
    requires ValidTree(root) && Leads(root, comps, node)
    ensures Found(Join(comps, '/'), node.DirNode?) in Scan(rules, root, "") <==>
            && (forall i :: 0 <= i < |comps| ==> !NameSkipped(comps[i]))
            && !IgnoredWithAncestors(rules, Join(comps, '/'), node.DirNode?)
  {
    hide Ignored, NameSkipped, Scan, IgnoredWithAncestors;
    LeadsProper(root, comps, node);
    WalkReaches(rules, root, [], comps, node);
    assert [] + comps == comps && forall k :: 0 <= k <= |comps| ==> [] + comps[..k] == comps[..k];
    AncestorsMeaning(rules, comps, node.DirNode?);
  }

  // ---- The walk reports the tree, each path once, contents first ----

  /** Whatever the walk reports is a node of the tree, under its own path and of its own kind. */
  lemma {:induction false} FoundLeads(rules: seq<IgnoreRule>, entries: seq<Entry>, pre: seq<string>, f: Found)
    returns (comps: seq<string>, node: Node)
    requires ValidTree(entries) && ProperNames(pre) && f in Scan(rules, entries, Join(pre, '/'))
    ensures Leads(entries, comps, node) && ProperNames(comps)
    ensures f.path == Join(pre + comps, '/') && f.isDir == node.DirNode?
    decreases entries
  {
    hide Ignored, NameSkipped, Scan, RelativePath, Push, Join;
    InScan(rules, entries, Join(pre, '/'), f);
    var i :| 0 <= i < |entries| && f in ScanEntry(rules, entries[i], Join(pre, '/'));
    var e := entries[i];
    RelativePathIsJoin(pre, e.name);
    if f == Found(Join(pre + [e.name], '/'), e.node.DirNode?) {
      comps, node := [e.name], e.node;
      assert StepsInto(e, comps, node);
    } else {
      var rest;
      rest, node := FoundLeads(rules, e.node.entries, pre + [e.name], f);
      comps := [e.name] + rest;
      assert comps[1..] == rest && pre + [e.name] + rest == pre + comps;
      assert StepsInto(e, comps, node);
    }
  }

  lemma {:induction false} SplitFirst(c: char, s: string)
    ensures Split([c] + s, '/') ==
            if c == '/' then [""] + Split(s, '/') else [[c] + Split(s, '/')[0]] + Split(s, '/')[1..]
  {
    assert ([c] + s)[1..] == s;
  }

  lemma {:induction false} SplitConcat(a: string, b: string)
    ensures Split(a + "/" + b, '/') == Split(a, '/') + Split(b, '/')
  {
    hide Split;
    if a == "" {
      assert a + "/" + b == ['/'] + b;
      SplitFirst('/', b);
      SplitNothing();
    } else {
      var c, rest := a[0], a[1..];
      assert a == [c] + rest && a + "/" + b == [c] + (rest + "/" + b);
      SplitConcat(rest, b);
      SplitFirst(c, rest);
      SplitFirst(c, rest + "/" + b);
    }
  }

  lemma {:induction false} SplitNothing()
    ensures Split("", '/') == [""]
  {
  }

  /** Below a directory in terms of paths is below it in terms of components. */
  lemma {:induction false} BelowMeans(upper: seq<string>, lower: seq<string>)
    requires upper != [] && lower != [] && ProperNames(upper) && ProperNames(lower)
    ensures Join(upper, '/') + "/" <= Join(lower, '/') ==> upper < lower
  {
    hide Split, Join;
    var u, l := Join(upper, '/'), Join(lower, '/');
    if u + "/" <= l {
      var rest := l[|u| + 1..];
      assert l == u + "/" + rest;
      SplitConcat(u, rest);
      SplitJoin(upper, '/');
      SplitJoin(lower, '/');
    }
  }

  /** Pairwise different paths, and everything below a path comes before it. */
  ghost predicate ContentsFirst(found: seq<Found>) {
    && (forall i, j :: 0 <= i < j < |found| ==> found[i].path != found[j].path)
    && (forall i, j :: 0 <= i < |found| && 0 <= j < |found| && found[j].path + "/" <= found[i].path ==> i < j)
  }

  ghost predicate GoesAlong(f: Found, pre: seq<string>, names: set<string>, comps: seq<string>) {
    comps != [] && ProperNames(comps) && comps[0] in names && f.path == Join(pre + comps, '/')
  }

  ghost predicate GoesThrough(f: Found, pre: seq<string>, names: set<string>) {
    exists comps :: GoesAlong(f, pre, names, comps)
  }

  /** Every reported path goes through one of the entries. */
  ghost predicate Through(found: seq<Found>, pre: seq<string>, names: set<string>) {
    forall i :: 0 <= i < |found| ==> GoesThrough(found[i], pre, names)
  }

  lemma {:induction false} Apart(a: Found, b: Found, pre: seq<string>, x: seq<string>, y: seq<string>)
    requires ProperNames(pre) && x != [] && y != [] && ProperNames(x) && ProperNames(y) && x[0] != y[0]
    requires a.path == Join(pre + x, '/') && b.path == Join(pre + y, '/')
    ensures a.path != b.path && !(a.path + "/" <= b.path) && !(b.path + "/" <= a.path)
  {
    hide Join;
    assert (pre + x)[|pre|] == x[0] && (pre + y)[|pre|] == y[0];
    if a.path == b.path {
      JoinInjective(pre + x, pre + y);
    }
    BelowMeans(pre + x, pre + y);
    BelowMeans(pre + y, pre + x);
  }

  /** Reports that go through different entries can be put one after the other. */
  lemma {:induction false} ContentsFirstConcat(a: seq<Found>, b: seq<Found>, pre: seq<string>, m: set<string>, n: set<string>)
    requires ProperNames(pre) && ContentsFirst(a) && ContentsFirst(b) && Through(a, pre, m) && Through(b, pre, n) && m !! n
    ensures ContentsFirst(a + b)
  {
    hide Join;
    forall i, j | 0 <= i < |a| && 0 <= j < |b|
      ensures a[i].path != b[j].path && !(a[i].path + "/" <= b[j].path) && !(b[j].path + "/" <= a[i].path)
    {
      assert GoesThrough(a[i], pre, m);
      var x :| GoesAlong(a[i], pre, m, x);
      assert GoesThrough(b[j], pre, n);
      var y :| GoesAlong(b[j], pre, n, y);
      Apart(a[i], b[j], pre, x, y);
    }
    var s := a + b;
    forall i, j | 0 <= i < |s| && 0 <= j < |s|
      ensures (i < j ==> s[i].path != s[j].path) && (s[j].path + "/" <= s[i].path ==> i < j)
    {
      assert s[i] == (if i < |a| then a[i] else b[i - |a|]) && s[j] == (if j < |a| then a[j] else b[j - |a|]);
    }
  }

  /** A directory after its contents. */
  lemma {:induction false} ContentsThenDirectory(a: seq<Found>, f: Found, dir: seq<string>, names: set<string>)
    requires ProperNames(dir) && dir != [] && f.path == Join(dir, '/') && ContentsFirst(a) && Through(a, dir, names)
    ensures ContentsFirst(a + [f])
  {
    hide Join;
    forall i | 0 <= i < |a|
      ensures a[i].path != f.path && !(a[i].path + "/" <= f.path)
    {
      assert GoesThrough(a[i], dir, names);
      var x :| GoesAlong(a[i], dir, names, x);
      if a[i].path == f.path {
        JoinInjective(dir + x, dir);
      }
      BelowMeans(dir + x, dir);
    }
    var s := a + [f];
    forall i, j | 0 <= i < |s| && 0 <= j < |s|
      ensures (i < j ==> s[i].path != s[j].path) && (s[j].path + "/" <= s[i].path ==> i < j)
    {
      assert s[i] == (if i < |a| then a[i] else f) && s[j] == (if j < |a| then a[j] else f);
    }
  }

  ghost function Names(entries: seq<Entry>): set<string> {
    set e | e in entries :: e.name
  }

  lemma {:induction false} AlongEntries(rules: seq<IgnoreRule>, entries: seq<Entry>, pre: seq<string>, f: Found)
    returns (comps: seq<string>)
    requires ValidTree(entries) && ProperNames(pre) && f in Scan(rules, entries, Join(pre, '/'))
    ensures GoesAlong(f, pre, Names(entries), comps)
  {
    hide Scan, Join, ValidTree;
    var node;
    comps, node := FoundLeads(rules, entries, pre, f);
    var i :| 0 <= i < |entries| && StepsInto(entries[i], comps, node);
    assert entries[i] in entries;
  }

  lemma {:induction false} AlongEntry(rules: seq<IgnoreRule>, e: Entry, pre: seq<string>, f: Found) returns (comps: seq<string>)
    requires ProperName(e.name) && ProperNames(pre) && (e.node.DirNode? ==> ValidTree(e.node.entries))
    requires f in ScanEntry(rules, e, Join(pre, '/'))
    ensures GoesAlong(f, pre, {e.name}, comps)
  {
    hide ScanEntry, Join, ValidTree;
    var rest := FoundBelow(rules, e, pre, f);
    comps := [e.name] + rest;
    assert pre + [e.name] + rest == pre + comps;
  }

  lemma {:induction false} ScanThrough(rules: seq<IgnoreRule>, entries: seq<Entry>, pre: seq<string>, found: seq<Found>)
    requires ValidTree(entries) && ProperNames(pre) && found == Scan(rules, entries, Join(pre, '/'))
    ensures Through(found, pre, Names(entries))
  {
    hide Scan, Join, ValidTree, GoesAlong;
    forall k | 0 <= k < |found|
      ensures GoesThrough(found[k], pre, Names(entries))
    {
      var comps := AlongEntries(rules, entries, pre, found[k]);
    }
  }

  lemma {:induction false} ScanEntryThrough(rules: seq<IgnoreRule>, e: Entry, pre: seq<string>, found: seq<Found>)
    requires ProperName(e.name) && ProperNames(pre) && (e.node.DirNode? ==> ValidTree(e.node.entries))
    requires found == ScanEntry(rules, e, Join(pre, '/'))
    ensures Through(found, pre, {e.name})
  {
    hide ScanEntry, Join, ValidTree, GoesAlong;
    forall k | 0 <= k < |found|
      ensures GoesThrough(found[k], pre, {e.name})
    {
      var comps := AlongEntry(rules, e, pre, found[k]);
    }
  }

  lemma {:induction false} EntryContentsFirst(rules: seq<IgnoreRule>, e: Entry, pre: seq<string>)
    requires ProperName(e.name) && ProperNames(pre) && (e.node.DirNode? ==> ValidTree(e.node.entries))
    ensures ContentsFirst(ScanEntry(rules, e, Join(pre, '/')))
    decreases e, 1
  {
    hide Ignored, NameSkipped, Scan, RelativePath, Push, Join, ContentsFirst;
    RelativePathIsJoin(pre, e.name);
    var dir := pre + [e.name];
    assert ContentsFirst([]) && forall f :: ContentsFirst([f]) by { NothingFirst(); }
    if e.node.DirNode? {
      ScanContentsFirst(rules, e.node.entries, dir);
      ScanThrough(rules, e.node.entries, dir, Scan(rules, e.node.entries, Join(dir, '/')));
      ContentsThenDirectory(Scan(rules, e.node.entries, Join(dir, '/')), Found(Join(dir, '/'), true), dir, Names(e.node.entries));
    }
  }

  lemma {:induction false} NothingFirst()
    ensures ContentsFirst([]) && forall f :: ContentsFirst([f])
  {
  }

  /** Each path is reported once, and everything below a directory before the directory. */
  lemma {:induction false} ScanContentsFirst(rules: seq<IgnoreRule>, entries: seq<Entry>, pre: seq<string>)
    requires ValidTree(entries) && ProperNames(pre)
    ensures ContentsFirst(Scan(rules, entries, Join(pre, '/')))
    decreases entries, 0
  {
    hide ScanEntry, Join, ContentsFirst;
    if entries == [] {
      NothingFirst();
    } else {
      var e, rest := entries[0], entries[1..];
      ValidRest(entries);
      EntryContentsFirst(rules, e, pre);
      ScanContentsFirst(rules, rest, pre);
      ScanEntryThrough(rules, e, pre, ScanEntry(rules, e, Join(pre, '/')));
      ScanThrough(rules, rest, pre, Scan(rules, rest, Join(pre, '/')));
      ContentsFirstConcat(ScanEntry(rules, e, Join(pre, '/')), Scan(rules, rest, Join(pre, '/')), pre, {e.name}, Names(rest));
    }
  }

  lemma {:induction false} ValidRest(entries: seq<Entry>)
    requires ValidTree(entries) && entries != []
    ensures ValidTree(entries[1..]) && entries[0].name !in Names(entries[1..])
  {
    var rest := entries[1..];
    assert forall i :: 0 <= i < |rest| ==> rest[i] == entries[i + 1];
  }

  /** `f` reports the node that the components lead to. */
  ghost predicate Reports(f: Found, root: seq<Entry>, comps: seq<string>, node: Node) {
    Leads(root, comps, node) && f == Found(Join(comps, '/'), node.DirNode?)
  }

  /** A walk reports nothing but nodes of the tree, each path once, and everything below a
      directory before the directory. */
  lemma {:induction false} WalkReportsTree(rules: seq<IgnoreRule>, root: seq<Entry>)
    requires ValidTree(root)
    ensures forall f :: f in Scan(rules, root, "") ==> exists comps, node :: Reports(f, root, comps, node)
    ensures ContentsFirst(Scan(rules, root, ""))
  {
    hide Scan, ValidTree, ContentsFirst, Leads;
    assert Join([], '/') == "";
    ScanContentsFirst(rules, root, []);
    forall f | f in Scan(rules, root, "")
      ensures exists comps, node :: Reports(f, root, comps, node)
    {
      var comps, node := FoundLeads(rules, root, [], f);
      assert [] + comps == comps;
      assert Reports(f, root, comps, node);
    }
  }

  // ---- The incremental path ----

  predicate DefaultIgnoredPath(path: string) {
    exists c | c in Split(Normalize(path), '/') :: DefaultIgnored(c)
  }

  /** The filters a changed file has to pass before it is looked at. */
  ghost predicate IncrementalAccepts(rules: seq<IgnoreRule>, path: string) {
    !DefaultIgnoredPath(path) && !IgnoredWithAncestors(rules, path, false)
  }

  /** The two scan paths admit the same files, except for those with a temporary, hidden or
      conflict name somewhere on the path, which only the incremental path admits. */
  lemma {:induction false} IncrementalAgreesWithWalk(rules: seq<IgnoreRule>, root: seq<Entry>, comps: seq<string>)
    requires ValidTree(root) && Leads(root, comps, FileNode)
    ensures Found(Join(comps, '/'), false) in Scan(rules, root, "") <==>
            && IncrementalAccepts(rules, Join(comps, '/'))
            && (forall i :: 0 <= i < |comps| ==> !ExtraSkipped(comps[i]))
  {
    hide Scan, IgnoredWithAncestors, DefaultIgnored, ExtraSkipped;
    LeadsProper(root, comps, FileNode);
    WalkVisitsIff(rules, root, comps, FileNode);
    NoBackslash(comps);
    SplitJoin(comps, '/');
  }

  // ---- Names that hold a backslash ----

  /** A tree that is just one path, down to a file or an empty directory. */
  function PathTree(comps: seq<string>, isDir: bool): seq<Entry> {
    if comps == [] then []
    else if |comps| == 1 then [Entry(comps[0], if isDir then DirNode([]) else FileNode)]
    else [Entry(comps[0], DirNode(PathTree(comps[1..], isDir)))]
  }

  /** Names that a directory can hold and that no filter on names excludes. */
  ghost predicate Unfiltered(comps: seq<string>) {
    forall i :: 0 <= i < |comps| ==> comps[i] != "" && '/' !in comps[i] && !NameSkipped(comps[i])
  }

  /** The prefix after descending into the components one by one. */
  function PushAll(prefix: string, comps: seq<string>): string
    decreases |comps|
  {
    if comps == [] then prefix else PushAll(Push(prefix, comps[0]), comps[1..])
  }

  lemma {:induction false} PushAllLonger(prefix: string, comps: seq<string>)
    requires comps != [] && forall i :: 0 <= i < |comps| ==> comps[i] != ""
    ensures |PushAll(prefix, comps)| > |prefix|
    decreases |comps|
  {
    if |comps| > 1 {
      PushAllLonger(Push(prefix, comps[0]), comps[1..]);
    }
  }

  lemma {:induction false} PushAllIsJoin(prefix: string, comps: seq<string>)
    requires comps != [] && forall i :: 0 <= i < |comps| ==> comps[i] != ""
    ensures PushAll(prefix, comps) == Push(prefix, Join(comps, '/'))
    decreases |comps|
  {
    if |comps| > 1 {
      PushAllIsJoin(Push(prefix, comps[0]), comps[1..]);
      var rest := Join(comps[1..], '/');
      assert comps[0] + "/" + rest == comps[0] + ['/'] + rest;
      assert prefix + "/" + (comps[0] + "/" + rest) == (prefix + "/" + comps[0]) + "/" + rest;
    }
  }

  lemma {:induction false} NormalizeConcat(a: string, b: string)
    ensures Normalize(a + "/" + b) == Normalize(a) + "/" + Normalize(b)
  {
  }

  lemma {:induction false} RelativePathIsPush(prefix: string, name: string)
    ensures RelativePath(prefix, name) == Normalize(Push(prefix, name))
  {
    NormalizeConcat(prefix, name);
  }

  /** What the walk asks the rules about the first `k` components. */
  ghost predicate IgnoredAt(rules: seq<IgnoreRule>, prefix: string, comps: seq<string>, k: nat, isDir: bool)
    requires k <= |comps|
  {
    Ignored(rules, Normalize(PushAll(prefix, comps[..k])), k < |comps| || isDir)
  }

  lemma {:induction false} IgnoredAtRest(rules: seq<IgnoreRule>, prefix: string, comps: seq<string>, k: nat, isDir: bool)
    requires 1 <= k <= |comps|
    ensures IgnoredAt(rules, prefix, comps, k, isDir) == IgnoredAt(rules, Push(prefix, comps[0]), comps[1..], k - 1, isDir)
  {
    hide Ignored;
    assert comps[..k][1..] == comps[1..][..k - 1];
  }

  /** The walk reaches the end of the path exactly when no rule ignores any of its stages. */
  lemma {:induction false} WalkAlong(rules: seq<IgnoreRule>, prefix: string, comps: seq<string>, isDir: bool)
    requires comps != [] && Unfiltered(comps)
    ensures Found(Normalize(PushAll(prefix, comps)), isDir) in Scan(rules, PathTree(comps, isDir), prefix) <==>
            forall k :: 1 <= k <= |comps| ==> !IgnoredAt(rules, prefix, comps, k, isDir)
    decreases |comps|
  {
    hide Ignored, NameSkipped, Push;
    var tree := PathTree(comps, isDir);
    var next, rest := Push(prefix, comps[0]), comps[1..];
    RelativePathIsPush(prefix, comps[0]);
    assert tree[1..] == [] && Scan(rules, tree, prefix) == ScanEntry(rules, tree[0], prefix) + [];
    assert comps[..1] == [comps[0]] && PushAll(prefix, [comps[0]]) == next by { assert [comps[0]][1..] == []; }
    if |comps| == 1 {
      assert comps == [comps[0]] && Scan(rules, [], next) == [];
      assert IgnoredAt(rules, prefix, comps, 1, isDir) == Ignored(rules, Normalize(next), isDir);
    } else {
      WalkAlong(rules, next, rest, isDir);
      PushAllLonger(next, rest);
      StagesOfRest(rules, prefix, comps, isDir);
    }
  }

  lemma {:induction false} StagesOfRest(rules: seq<IgnoreRule>, prefix: string, comps: seq<string>, isDir: bool)
    requires |comps| > 1
    ensures (forall k :: 1 <= k <= |comps| ==> !IgnoredAt(rules, prefix, comps, k, isDir)) <==>
            && !IgnoredAt(rules, prefix, comps, 1, isDir)
            && (forall k :: 1 <= k <= |comps| - 1 ==> !IgnoredAt(rules, Push(prefix, comps[0]), comps[1..], k, isDir))
  {
    hide IgnoredAt;
    forall k | 1 <= k <= |comps|
      ensures IgnoredAt(rules, prefix, comps, k, isDir) == IgnoredAt(rules, Push(prefix, comps[0]), comps[1..], k - 1, isDir)
    {
      IgnoredAtRest(rules, prefix, comps, k, isDir);
    }
    var rest, next := comps[1..], Push(prefix, comps[0]);
    if forall k :: 1 <= k <= |comps| ==> !IgnoredAt(rules, prefix, comps, k, isDir) {
      forall k | 1 <= k <= |rest|
        ensures !IgnoredAt(rules, next, rest, k, isDir)
      {
        assert !IgnoredAt(rules, prefix, comps, k + 1, isDir);
      }
    }
  }

  // ---- The segments of a normalized path ----

  lemma {:induction false} SplitWhole(s: string)
    requires '/' !in s
    ensures Split(s, '/') == [s]
  {
    assert Join([s], '/') == s;
    SplitJoin([s], '/');
  }

  /** The stage of the walk after component `j`, as segments. */
  lemma {:induction false} StageSegments(comps: seq<string>, j: nat)
    requires j < |comps| && Unfiltered(comps) && forall i :: 0 <= i < j ==> '\\' !in comps[i]
    ensures Split(Normalize(Join(comps[..j + 1], '/')), '/') == comps[..j] + Split(Normalize(comps[j]), '/')
  {
    hide NameSkipped, Split, Join;
    JoinSnoc(comps[..j], comps[j]);
    assert comps[..j + 1] == comps[..j] + [comps[j]];
    if j > 0 {
      var above := Join(comps[..j], '/');
      assert ProperNames(comps[..j]);
      NoBackslash(comps[..j]);
      SplitJoin(comps[..j], '/');
      NormalizeConcat(above, comps[j]);
      SplitConcat(above, Normalize(comps[j]));
    }
  }

  lemma {:induction false} LaterStageSegments(comps: seq<string>, j: nat, k: nat)
    requires j < k <= |comps| && Unfiltered(comps)
    ensures Split(Normalize(Join(comps[..j + 1], '/')), '/') <= Split(Normalize(Join(comps[..k], '/')), '/')
    decreases k
  {
    hide NameSkipped, Split, Join;
    if k > j + 1 {
      LaterStageSegments(comps, j, k - 1);
      JoinSnoc(comps[..k - 1], comps[k - 1]);
      assert comps[..k] == comps[..k - 1] + [comps[k - 1]];
      var above := Join(comps[..k - 1], '/');
      NormalizeConcat(above, comps[k - 1]);
      SplitConcat(Normalize(above), Normalize(comps[k - 1]));
    }
  }

  lemma {:induction false} FirstSegment(name: string, i: nat)
    requires '/' !in name && i < |name| && name[i] == '\\' && '\\' !in name[..i]
    ensures var parts := Split(Normalize(name), '/'); |parts| > 1 && parts[0] == name[..i]
  {
    hide Split;
    var before, rest := name[..i], Normalize(name)[i + 1..];
    assert Normalize(name) == before + "/" + rest;
    SplitConcat(before, rest);
    SplitWhole(before);
  }

  // ---- The rules that tell walk and check apart ----

  /** Anchored patterns match the paths whose segments begin with theirs, if those match. */
  lemma {:induction false} AnchoredPrefix(pattern: string, path: string)
    requires Split(pattern, '/') <= Split(path, '/')
    ensures AnchoredMatch(pattern, path)
  {
    hide Split;
    var pats := Split(pattern, '/');
    forall i | 0 <= i < |pats|
      ensures Glob.Accepts(pats[i], Split(path, '/')[i])
    {
      Glob.AcceptsItself(pats[i]);
    }
  }

  /** Ignores the directory `phantom`, but not what lies at or below `stage`. */
  function TellingRules(phantom: string, stage: string): seq<IgnoreRule> {
    [IgnoreRule(phantom, false, true, true), IgnoreRule(stage, true, true, false)]
  }

  lemma {:induction false} PhantomIgnored(phantom: string, stage: string)
    requires |Split(phantom, '/')| < |Split(stage, '/')|
    ensures Ignored(TellingRules(phantom, stage), phantom, true)
  {
    hide Split;
    var rules := TellingRules(phantom, stage);
    AnchoredPrefix(phantom, phantom);
    assert RuleMatches(rules[0], phantom, true) && !RuleMatches(rules[1], phantom, true);
  }

  lemma {:induction false} AboveNotIgnored(phantom: string, stage: string, path: string, isDir: bool)
    requires |Split(path, '/')| < |Split(phantom, '/')| < |Split(stage, '/')|
    ensures !Ignored(TellingRules(phantom, stage), path, isDir)
  {
    hide Split;
    var rules := TellingRules(phantom, stage);
    assert !RuleMatches(rules[0], path, isDir) && !RuleMatches(rules[1], path, isDir);
  }

  lemma {:induction false} BelowNotIgnored(phantom: string, stage: string, path: string, isDir: bool)
    requires Split(stage, '/') <= Split(path, '/')
    ensures !Ignored(TellingRules(phantom, stage), path, isDir)
  {
    hide Split;
    var rules := TellingRules(phantom, stage);
    AnchoredPrefix(stage, path);
    assert RuleMatches(rules[1], path, isDir) && |rules| == 2;
  }

  // ---- Walk and check on a path with a backslash ----

  lemma {:induction false} GrownPrefixOf(a: seq<string>, b: seq<string>, k: nat)
    requires k <= |a| && k <= |b| && a[..k] == b[..k]
    ensures GrownPrefix(a, k) == GrownPrefix(b, k)
    decreases k
  {
    if k > 0 {
      assert a[k - 1] == a[..k][k - 1] && b[k - 1] == b[..k][k - 1];
      assert a[..k - 1] == a[..k][..k - 1] && b[..k - 1] == b[..k][..k - 1];
      GrownPrefixOf(a, b, k - 1);
    }
  }

  /** `j` is the first component with a backslash, and `i` its place there. */
  ghost predicate FirstBackslash(comps: seq<string>, j: nat, i: nat) {
    && j < |comps| && i < |comps[j]| && comps[j][i] == '\\' && '\\' !in comps[j][..i]
    && (forall m :: 0 <= m < j ==> '\\' !in comps[m])
  }

  /** The directory that the check takes to lie above the component with the backslash. */
  function Phantom(comps: seq<string>, j: nat, i: nat): string
    requires j < |comps| && i <= |comps[j]|
  {
    Join(comps[..j] + [comps[j][..i]], '/')
  }

  lemma {:induction false} PhantomSegments(comps: seq<string>, j: nat, i: nat)
    requires Unfiltered(comps) && FirstBackslash(comps, j, i)
    ensures Split(Phantom(comps, j, i), '/') == comps[..j] + [comps[j][..i]]
    ensures var stage := Normalize(Join(comps[..j + 1], '/'));
            |Split(stage, '/')| > j + 1 && Split(stage, '/')[..j + 1] == comps[..j] + [comps[j][..i]]
  {
    hide NameSkipped, Split, Join;
    var parts := comps[..j] + [comps[j][..i]];
    assert forall m :: 0 <= m < |parts| ==> '/' !in parts[m];
    SplitJoin(parts, '/');
    StageSegments(comps, j);
    FirstSegment(comps[j], i);
  }

  lemma {:induction false} PhantomGrown(comps: seq<string>, j: nat, i: nat)
    requires Unfiltered(comps) && FirstBackslash(comps, j, i)
    ensures GrownPrefix(comps[..j] + [comps[j][..i]], j + 1) == Phantom(comps, j, i)
  {
    hide NameSkipped;
    var parts := comps[..j] + [comps[j][..i]];
    assert ProperNames(comps[..j]) && parts[..j] == comps[..j][..j];
    GrownPrefixOf(parts, comps[..j], j);
    GrownPrefixIsJoin(comps[..j], j);
    assert comps[..j][..j] == comps[..j];
    JoinSnoc(comps[..j], comps[j][..i]);
    assert parts[j] == comps[j][..i];
  }

  lemma {:induction false} CheckIgnores(comps: seq<string>, j: nat, i: nat, isDir: bool)
    requires Unfiltered(comps) && FirstBackslash(comps, j, i)
    ensures IgnoredWithAncestors(TellingRules(Phantom(comps, j, i), Normalize(Join(comps[..j + 1], '/'))), Join(comps, '/'), isDir)
  {
    var phantom, stage := Phantom(comps, j, i), Normalize(Join(comps[..j + 1], '/'));
    var segments := Split(Normalize(Join(comps, '/')), '/');
    hide NameSkipped, Split, Join, Ignored, GrownPrefix, Phantom, TellingRules;
    PhantomSegments(comps, j, i);
    LaterStageSegments(comps, j, |comps|);
    assert comps[..|comps|] == comps;
    var parts := comps[..j] + [comps[j][..i]];
    assert segments[..j + 1] == Split(stage, '/')[..j + 1] == parts == parts[..j + 1];
    GrownPrefixOf(segments, parts, j + 1);
    PhantomGrown(comps, j, i);
    PhantomIgnored(phantom, stage);
    assert Ignored(TellingRules(phantom, stage), GrownPrefix(segments, j + 1), true);
  }

  lemma {:induction false} WalkPasses(comps: seq<string>, j: nat, i: nat, k: nat, isDir: bool)
    requires Unfiltered(comps) && FirstBackslash(comps, j, i) && 1 <= k <= |comps|
    ensures var rules := TellingRules(Phantom(comps, j, i), Normalize(Join(comps[..j + 1], '/')));
            !IgnoredAt(rules, "", comps, k, isDir)
  {
    hide NameSkipped, Split, Join, Ignored, Phantom, TellingRules, PushAll;
    var phantom, stage := Phantom(comps, j, i), Normalize(Join(comps[..j + 1], '/'));
    PushAllIsJoin("", comps[..k]);
    PhantomSegments(comps, j, i);
    var path := Normalize(Join(comps[..k], '/'));
    if k <= j {
      assert ProperNames(comps[..k]);
      NoBackslash(comps[..k]);
      SplitJoin(comps[..k], '/');
      AboveNotIgnored(phantom, stage, path, k < |comps| || isDir);
    } else {
      LaterStageSegments(comps, j, k);
      BelowNotIgnored(phantom, stage, path, k < |comps| || isDir);
    }
  }

  /** A path with a backslash in a component: rules on the directory that the check with ancestors
      sees before the first one make it ignore the path, while the walk finds it. */
  lemma {:induction false} BackslashDisagrees(comps: seq<string>, j: nat, i: nat, isDir: bool)
    requires Unfiltered(comps) && FirstBackslash(comps, j, i)
    ensures var rules := TellingRules(Phantom(comps, j, i), Normalize(Join(comps[..j + 1], '/')));
            && Found(Normalize(Join(comps, '/')), isDir) in Scan(rules, PathTree(comps, isDir), "")
            && IgnoredWithAncestors(rules, Join(comps, '/'), isDir)
  {
    var rules := TellingRules(Phantom(comps, j, i), Normalize(Join(comps[..j + 1], '/')));
    hide NameSkipped, Scan, Join, IgnoredAt, IgnoredWithAncestors, TellingRules, Phantom, PathTree, PushAll;
    CheckIgnores(comps, j, i, isDir);
    forall k | 1 <= k <= |comps|
      ensures !IgnoredAt(rules, "", comps, k, isDir)
    {
      WalkPasses(comps, j, i, k, isDir);
    }
    WalkAlong(rules, "", comps, isDir);
    PushAllIsJoin("", comps);
  }

  lemma {:induction false} FindBackslash(comps: seq<string>) returns (j: nat, i: nat)
    requires exists m :: 0 <= m < |comps| && '\\' in comps[m]
    ensures FirstBackslash(comps, j, i)
  {
    j := 0;
    while '\\' !in comps[j]
      invariant j < |comps| && (forall m :: 0 <= m < j ==> '\\' !in comps[m])
      decreases |comps| - j
    {
      j := j + 1;
    }
    var name := comps[j];
    i := 0;
    while name[i] != '\\'
      invariant i < |name| && '\\' !in name[..i] && '\\' in name[i..]
      decreases |name| - i
    {
      i := i + 1;
    }
  }

  lemma {:induction false} AlikeWithoutBackslash(rules: seq<IgnoreRule>, comps: seq<string>, isDir: bool)
    requires comps != [] && Unfiltered(comps) && forall m :: 0 <= m < |comps| ==> '\\' !in comps[m]
    ensures Found(Normalize(Join(comps, '/')), isDir) in Scan(rules, PathTree(comps, isDir), "") <==>
            !IgnoredWithAncestors(rules, Join(comps, '/'), isDir)
  {
    hide NameSkipped, Scan, Join, IgnoredWithAncestors, PathTree, PushAll, Ignored, Normalize;
    assert ProperNames(comps);
    AncestorsMeaning(rules, comps, isDir);
    WalkAlong(rules, "", comps, isDir);
    PushAllIsJoin("", comps);
    forall k | 1 <= k <= |comps|
      ensures IgnoredAt(rules, "", comps, k, isDir) == Ignored(rules, Join(comps[..k], '/'), k < |comps| || isDir)
    {
      PushAllIsJoin("", comps[..k]);
      assert ProperNames(comps[..k]);
      NoBackslash(comps[..k]);
    }
  }

  /** The walk and the check with ancestors judge a path alike under every rule list exactly when
      no component of it holds a backslash. */
  lemma {:induction false} JudgedAlikeIff(comps: seq<string>, isDir: bool)
    requires comps != [] && Unfiltered(comps)
    ensures (forall rules: seq<IgnoreRule> ::
               Found(Normalize(Join(comps, '/')), isDir) in Scan(rules, PathTree(comps, isDir), "")
               <==> !IgnoredWithAncestors(rules, Join(comps, '/'), isDir))
            <==> forall m :: 0 <= m < |comps| ==> '\\' !in comps[m]
  {
    hide Unfiltered, Scan, Join, IgnoredWithAncestors, PathTree, Normalize;
    if forall m :: 0 <= m < |comps| ==> '\\' !in comps[m] {
      forall rules: seq<IgnoreRule>
        ensures Found(Normalize(Join(comps, '/')), isDir) in Scan(rules, PathTree(comps, isDir), "")
                <==> !IgnoredWithAncestors(rules, Join(comps, '/'), isDir)
      {
        AlikeWithoutBackslash(rules, comps, isDir);
      }
    } else {
      var j, i := FindBackslash(comps);
      BackslashDisagrees(comps, j, i, isDir);
    }
  }
}
