/** Which of two versions of one file a device keeps. */
module Arbitration {
  import opened Versions
  import opened FileTypes
  import opened Paths

  datatype UpdateDecision = Update | Ignore | Conflict

  predicate LaterMtime(x: FileInfo, y: FileInfo) {
    x.modifiedS > y.modifiedS || (x.modifiedS == y.modifiedS && x.modifiedNs > y.modifiedNs)
  }

  predicate SameMtime(x: FileInfo, y: FileInfo) {
    x.modifiedS == y.modifiedS && x.modifiedNs == y.modifiedNs
  }

  predicate SameMeta(x: FileInfo, y: FileInfo) {
    x.size == y.size && SameMtime(x, y)
  }

  function NeedsUpdate(local: FileInfo, remote: FileInfo): UpdateDecision {
    match CompareVersions(local.version, remote.version)
    case Equal => if !SameMeta(local, remote) then Conflict else Ignore
    case Greater => Ignore
    case Less => Update
    case Concurrent => Conflict
  }

  /** A real conflict: neither version dominates the other. */
  predicate IsConflict(local: FileInfo, remote: FileInfo) {
    !Dominates(local.version, remote.version) && !Dominates(remote.version, local.version)
  }

  ghost predicate RemoteWins(local: FileInfo, remote: FileInfo) {
    LaterMtime(remote, local)
    || (!LaterMtime(local, remote) && DirectionOf(remote.version, local.version) == SelfGreater)
  }

  method RemoteWinsConflict(local: FileInfo, remote: FileInfo) returns (wins: bool)
    ensures wins == RemoteWins(local, remote)
  {
    if LaterMtime(remote, local) {
      return true;
    }
    if LaterMtime(local, remote) {
      return false;
    }
    var dir := ConcurrentOrder(remote.version, local.version);
    return dir == SelfGreater;
  }

  /** The entry a device holds after being offered `remote` while holding `local`. */
  ghost function Accept(local: FileInfo, remote: FileInfo): FileInfo {
    match NeedsUpdate(local, remote)
    case Update => remote
    case Ignore => local
    case Conflict => if IsConflict(local, remote) && RemoteWins(local, remote) then remote else local
  }

  /** The versions differ, and an offer of `x` replaces `y`. */
  ghost predicate Beats(x: FileInfo, y: FileInfo) {
    !SameVersion(x.version, y.version) && Accept(y, x) == x
  }

  /** Strictly larger under (mtime seconds, mtime nanoseconds, first divergent counter). */
  ghost predicate KeyGreater(x: FileInfo, y: FileInfo) {
    LaterMtime(x, y) || (SameMtime(x, y) && LexGreater(x.version, y.version))
  }

  /** A strictly dominating version is not older than the one it dominates. */
  predicate ClockOk(x: FileInfo, y: FileInfo) {
    Dominates(x.version, y.version) && !SameVersion(x.version, y.version) ==> !LaterMtime(y, x)
  }

  /** Both ends of a pair of different versions compute the same winner. */
  lemma {:induction false} ExactlyOneBeats(x: FileInfo, y: FileInfo)
    requires !SameVersion(x.version, y.version)
    ensures Beats(x, y) <==> !Beats(y, x)
    ensures Beats(x, y) ==> Accept(y, x) == x && Accept(x, y) == x
  {
    LexTotal(x.version, y.version);
  }

  lemma {:induction false} SameVersionKeeps(local: FileInfo, remote: FileInfo)
    requires SameVersion(local.version, remote.version)
    ensures Accept(local, remote) == local
  {
  }

  /** With clocks that follow causality, beating means having the larger key. */
  lemma {:induction false} BeatsIsKeyGreater(x: FileInfo, y: FileInfo)
    requires ClockOk(x, y) && ClockOk(y, x) && !SameVersion(x.version, y.version)
    ensures Beats(x, y) <==> KeyGreater(x, y)
  {
    LexTotal(x.version, y.version);
    if Dominates(x.version, y.version) {
      DominatesIsLexGreater(x.version, y.version);
    } else if Dominates(y.version, x.version) {
      DominatesIsLexGreater(y.version, x.version);
    }
  }

  /** Dominance decides first, then mtime, then the first divergent counter. */
  lemma {:induction false} BeatsMeans(x: FileInfo, y: FileInfo)
    ensures Beats(x, y) <==>
            && !Dominates(y.version, x.version)
            && (|| Dominates(x.version, y.version)
                || LaterMtime(x, y)
                || (SameMtime(x, y) && LexGreater(x.version, y.version)))
  {
  }

  /** Beating depends only on version and mtime. */
  lemma {:induction false} BeatsRespectsVersion(w: FileInfo, h: FileInfo, x: FileInfo)
    requires SameVersion(w.version, h.version) && SameMtime(w, h)
    ensures Beats(w, x) <==> Beats(h, x)
    ensures Beats(x, w) <==> Beats(x, h)
  {
    hide Dominates, LexGreater, Beats;
    DominatesRespectsVersion(w.version, h.version, x.version);
    LexRespectsVersion(w.version, h.version, x.version);
    BeatsMeans(w, x);
    BeatsMeans(h, x);
    BeatsMeans(x, w);
    BeatsMeans(x, h);
  }

  lemma {:induction false} KeyTransitive(x: FileInfo, y: FileInfo, z: FileInfo)
    requires KeyGreater(x, y) && KeyGreater(y, z)
    ensures KeyGreater(x, z)
  {
  }

  /** The key order is total up to same mtime and same version. */
  lemma {:induction false} KeyTotal(x: FileInfo, y: FileInfo)
    ensures KeyGreater(x, y) || KeyGreater(y, x) || (SameMtime(x, y) && SameVersion(x.version, y.version))
    ensures !(KeyGreater(x, y) && KeyGreater(y, x))
  {
    LexTotal(x.version, y.version);
  }

  const MERGEABLE_SUFFIXES := [
    ".md", ".txt", ".rs", ".toml", ".json", ".yaml", ".yml", ".py", ".js", ".ts", ".css", ".html",
    ".sh", ".ps1", ".ini", ".cfg", ".log", ".c", ".h", ".cpp", ".go", ".java", ".kt", ".swift", ".rb", ".php"]

  predicate IsMergeableText(path: string) {
    exists s | s in MERGEABLE_SUFFIXES :: EndsWith(path, s)
  }
}
