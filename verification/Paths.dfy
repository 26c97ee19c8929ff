/** Slash-separated names and their segments. */
module Paths {

  function Split(s: string, sep: char): (parts: seq<string>)
    ensures |parts| >= 1
    ensures forall i :: 0 <= i < |parts| ==> sep !in parts[i]
  {
    if s == "" then [""]
    else
      var rest := Split(s[1..], sep);
      if s[0] == sep then [""] + rest else [[s[0]] + rest[0]] + rest[1..]
  }

  function Join(parts: seq<string>, sep: char): string {
    if parts == [] then ""
    else if |parts| == 1 then parts[0]
    else parts[0] + [sep] + Join(parts[1..], sep)
  }

  lemma {:induction false} SplitPrefix(a: string, s: string, sep: char)
    requires sep !in a
    ensures Split(a + s, sep) == [a + Split(s, sep)[0]] + Split(s, sep)[1..]
  {
    if a == "" {
      assert a + s == s;
      assert a + Split(s, sep)[0] == Split(s, sep)[0];
    } else {
      SplitPrefix(a[1..], s, sep);
      assert (a + s)[1..] == a[1..] + s;
      assert [a[0]] + (a[1..] + Split(s, sep)[0]) == a + Split(s, sep)[0];
    }
  }

  /** Splitting undoes joining when no part holds the separator. */
  lemma {:induction false} SplitJoin(parts: seq<string>, sep: char)
    requires parts != [] && forall i :: 0 <= i < |parts| ==> sep !in parts[i]
    ensures Split(Join(parts, sep), sep) == parts
  {
    if |parts| == 1 {
      SplitPrefix(parts[0], "", sep);
      assert parts[0] + "" == parts[0];
    } else {
      var rest := Join(parts[1..], sep);
      SplitJoin(parts[1..], sep);
      SplitPrefix(parts[0], [sep] + rest, sep);
      assert parts[0] + [sep] + rest == parts[0] + ([sep] + rest);
      assert ([sep] + rest)[1..] == rest;
      assert parts[0] + "" == parts[0];
    }
  }

  predicate EndsWith(s: string, suffix: string) {
    |suffix| <= |s| && s[|s| - |suffix|..] == suffix
  }

  /** A name from a peer that stays inside the folder. */
  predicate ValidRemoteName(name: string) {
    && name != ""
    && name[0] != '/' && name[0] != '\\'
    && '\0' !in name
    && (forall seg | seg in Split(name, '/') ::
          seg != "" && seg != "." && seg != ".." && '\\' !in seg)
  }

  // ---- Names that stay inside the folder ----

  /** The segments a path resolves to from the folder on: empty segments and `.` are dropped, `..`
      goes up, and going above the folder is impossible. */
  function Resolved(segs: seq<string>): (r: seq<seq<string>>)
    ensures |r| <= 1
  {
    if segs == [] then [[]]
    else
      var last, above := segs[|segs| - 1], Resolved(segs[..|segs| - 1]);
      if above == [] then []
      else if last == "" || last == "." then above
      else if last == ".." then if above[0] == [] then [] else [above[0][..|above[0]| - 1]]
      else [above[0] + [last]]
  }

  ghost predicate PlainSegment(seg: string) {
    seg != "" && seg != "." && seg != ".."
  }

  ghost predicate AllPlain(segs: seq<string>) {
    forall i :: 0 <= i < |segs| ==> PlainSegment(segs[i])
  }

  lemma {:induction false} AllPlainSnoc(segs: seq<string>)
    requires segs != []
    ensures AllPlain(segs) <==> AllPlain(segs[..|segs| - 1]) && PlainSegment(segs[|segs| - 1])
  {
    var front := segs[..|segs| - 1];
    assert forall i :: 0 <= i < |front| ==> front[i] == segs[i];
  }

  /** Resolving leaves the segments as they are exactly when all of them are plain. */
  lemma {:induction false} ResolvedSameIff(segs: seq<string>)
    ensures Resolved(segs) == [segs] <==> AllPlain(segs)
    ensures !AllPlain(segs) ==> Resolved(segs) == [] || |Resolved(segs)[0]| < |segs|
  {
    if segs != [] {
      var front, last := segs[..|segs| - 1], segs[|segs| - 1];
      AllPlainSnoc(segs);
      ResolvedSameIff(front);
      assert segs == front + [last];
      hide AllPlain;
      var r := Resolved(segs);
      assert !PlainSegment(last) && r != [] ==> |r[0]| <= |front|;
    }
  }

  lemma {:induction false} SplitHead(s: string, sep: char)
    ensures s != "" && s[0] == sep ==> Split(s, sep)[0] == ""
    ensures s == "" ==> Split(s, sep)[0] == ""
  {
  }

  lemma {:induction false} CharsInSplit(s: string, sep: char, c: char)
    requires c != sep
    ensures c in s <==> exists i :: 0 <= i < |Split(s, sep)| && c in Split(s, sep)[i]
  {
    if s != "" {
      var rest := Split(s[1..], sep);
      CharsInSplit(s[1..], sep, c);
      assert c in s <==> c == s[0] || c in s[1..];
      if s[0] == sep {
        assert Split(s, sep) == [""] + rest;
        if i :| 0 <= i < |rest| && c in rest[i] { assert Split(s, sep)[i + 1] == rest[i]; }
        if i :| 0 <= i < |Split(s, sep)| && c in Split(s, sep)[i] { assert i > 0 && rest[i - 1] == Split(s, sep)[i]; }
      } else {
        var first := [s[0]] + rest[0];
        assert Split(s, sep) == [first] + rest[1..];
        assert c in first <==> c == s[0] || c in rest[0];
        if i :| 0 <= i < |rest| && c in rest[i] { assert Split(s, sep)[i] == if i == 0 then first else rest[i]; }
        if i :| 0 <= i < |Split(s, sep)| && c in Split(s, sep)[i] {
          assert i > 0 ==> rest[i] == Split(s, sep)[i];
        }
        if c == s[0] { assert c in Split(s, sep)[0]; }
      }
    }
  }

  /** A peer's name is accepted exactly when it holds no backslash and no NUL and names, segment by
      segment, the very place inside the folder that it resolves to. */
  lemma {:induction false} ValidNameIff(name: string)
    ensures ValidRemoteName(name) <==>
            '\\' !in name && '\0' !in name && Resolved(Split(name, '/')) == [Split(name, '/')]
  {
    var segs := Split(name, '/');
    CharsInSplit(name, '/', '\\');
    SplitHead(name, '/');
    ResolvedSameIff(segs);
    hide Split, Resolved;
    if '\\' !in name && '\0' !in name && Resolved(segs) == [segs] {
      assert PlainSegment(segs[0]);
      forall seg | seg in segs
        ensures seg != "" && seg != "." && seg != ".." && '\\' !in seg
      {
        var i :| 0 <= i < |segs| && segs[i] == seg;
        assert PlainSegment(segs[i]);
      }
    }
    if ValidRemoteName(name) {
      assert forall i :: 0 <= i < |segs| ==> segs[i] in segs;
    }
  }
}
