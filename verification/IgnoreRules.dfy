/** Ignore rules: parsing, matching against paths, and the check of a path with its ancestors. */
module IgnoreRules {
  import opened Paths
  import Glob

  datatype IgnoreRule = IgnoreRule(pattern: string, isNegation: bool, anchored: bool, directoryOnly: bool)

  // ---- Parsing ----

  /** The characters with the Unicode property White_Space. */
  predicate IsSpace(c: char) {
    || '\t' <= c <= '\r' || c == ' ' || c == '\U{85}' || c == '\U{A0}' || c == '\U{1680}'
    || '\U{2000}' <= c <= '\U{200A}' || c == '\U{2028}' || c == '\U{2029}' || c == '\U{202F}'
    || c == '\U{205F}' || c == '\U{3000}'
  }

  function TrimStart(s: string): string {
    if s != "" && IsSpace(s[0]) then TrimStart(s[1..]) else s
  }

  function TrimEnd(s: string): string {
    if s != "" && IsSpace(s[|s| - 1]) then TrimEnd(s[..|s| - 1]) else s
  }

  /** The rules a line adds: none for blank lines and comments, else one. */
  function ParseLine(line: string): seq<IgnoreRule> {
    var trimmed := TrimEnd(TrimStart(line));
    if trimmed == "" || trimmed[0] == '#' then []
    else if trimmed[0] == '!' then [ParseSuffix(trimmed[1..], true)]
    else [ParseSuffix(trimmed, false)]
  }

  function ParseSuffix(text: string, isNegation: bool): IgnoreRule {
    if EndsWith(text, "/") then ParsePrefix(text[..|text| - 1], isNegation, true)
    else ParsePrefix(text, isNegation, false)
  }

  function ParsePrefix(text: string, isNegation: bool, directoryOnly: bool): IgnoreRule {
    if text != "" && text[0] == '/' then IgnoreRule(text[1..], isNegation, true, directoryOnly)
    else IgnoreRule(text, isNegation, false, directoryOnly)
  }

  /** How a rule is written down; the inverse of parsing. */
  function Render(r: IgnoreRule): string {
    if r.isNegation then "!" + RenderSuffix(r) else RenderSuffix(r)
  }

  function RenderSuffix(r: IgnoreRule): string {
    if r.directoryOnly then RenderPrefix(r) + "/" else RenderPrefix(r)
  }

  function RenderPrefix(r: IgnoreRule): string {
    if r.anchored then "/" + r.pattern else r.pattern
  }

  /** A rule whose written form is not trimmed, and in which nothing but its own modifiers
      reads as a modifier or a comment. */
  ghost predicate Writable(r: IgnoreRule) {
    var s := Render(r);
    && s != "" && !IsSpace(s[0]) && !IsSpace(s[|s| - 1])
    && s[0] != '#' && (s[0] == '!' ==> r.isNegation)
    && (EndsWith(RenderPrefix(r), "/") ==> r.directoryOnly)
    && (r.pattern != "" && r.pattern[0] == '/' ==> r.anchored)
  }

  lemma {:induction false} TrimShorter(s: string)
    ensures |TrimStart(s)| <= |s| && |TrimEnd(s)| <= |s|
    ensures |TrimStart(s)| == |s| ==> TrimStart(s) == s
    ensures TrimStart(s) == s <==> s == "" || !IsSpace(s[0])
    ensures TrimEnd(s) == s <==> s == "" || !IsSpace(s[|s| - 1])
  {
    if s != "" {
      TrimShorter(s[1..]);
      TrimShorter(s[..|s| - 1]);
    }
  }

  lemma {:induction false} RenderParseSuffix(text: string, isNegation: bool)
    ensures ParseSuffix(text, isNegation).isNegation == isNegation
    ensures RenderSuffix(ParseSuffix(text, isNegation)) == text
  {
    if EndsWith(text, "/") {
      var front := text[..|text| - 1];
      assert text == front + "/";
      assert RenderPrefix(ParsePrefix(front, isNegation, true)) == front;
    } else {
      assert RenderPrefix(ParsePrefix(text, isNegation, false)) == text;
    }
  }

  /** Writing down the rule a line was parsed into gives the trimmed line back. */
  lemma {:induction false} RenderParse(line: string)
    ensures |ParseLine(line)| <= 1
    ensures ParseLine(line) != [] ==> Render(ParseLine(line)[0]) == TrimEnd(TrimStart(line))
  {
    hide ParseSuffix, RenderSuffix;
    var trimmed := TrimEnd(TrimStart(line));
    if trimmed != "" {
      RenderParseSuffix(trimmed[1..], true);
      RenderParseSuffix(trimmed, false);
      assert "!" + trimmed[1..] == if trimmed[0] == '!' then trimmed else "!" + trimmed[1..];
    }
  }

  lemma {:induction false} ParseRenderSuffixIff(r: IgnoreRule)
    ensures ParseSuffix(RenderSuffix(r), r.isNegation) == r <==>
            && (EndsWith(RenderPrefix(r), "/") ==> r.directoryOnly)
            && (r.pattern != "" && r.pattern[0] == '/' ==> r.anchored)
  {
    var text := RenderPrefix(r);
    assert (text + "/")[..|text|] == text;
    assert r.anchored ==> text[1..] == r.pattern;
  }

  /** Parsing a written rule gives the rule back if and only if it is writable. */
  lemma {:induction false} ParseRenderIff(r: IgnoreRule)
    ensures ParseLine(Render(r)) == [r] <==> Writable(r)
  {
    hide ParseSuffix, RenderSuffix, RenderPrefix, TrimStart, TrimEnd;
    var s := Render(r);
    TrimShorter(s);
    TrimShorter(TrimStart(s));
    RenderParse(s);
    ParseRenderSuffixIff(r);
    if s != "" {
      RenderParseSuffix(s[1..], true);
    }
    assert ("!" + RenderSuffix(r))[1..] == RenderSuffix(r);
  }

  // ---- Matching ----

  predicate WindowMatches(pats: seq<string>, comps: seq<string>, start: nat)
    requires start + |pats| <= |comps|
  {
    forall i | 0 <= i < |pats| :: Glob.Accepts(pats[i], comps[start + i])
  }

  predicate UnanchoredMatch(pattern: string, path: string) {
    var comps := Split(path, '/');
    if '/' in pattern then
      var pats := Split(pattern, '/');
      |pats| <= |comps| &&
      exists start | 0 <= start <= |comps| - |pats| :: WindowMatches(pats, comps, start)
    else
      exists i | 0 <= i < |comps| :: Glob.Accepts(pattern, comps[i])
  }

  predicate AnchoredMatch(pattern: string, path: string) {
    var pats, comps := Split(pattern, '/'), Split(path, '/');
    |pats| <= |comps| && WindowMatches(pats, comps, 0)
  }

  predicate RuleMatches(r: IgnoreRule, path: string, isDir: bool) {
    && (r.directoryOnly ==> isDir)
    && (if r.anchored then AnchoredMatch(r.pattern, path) else UnanchoredMatch(r.pattern, path))
  }

  /** A path is ignored when the last rule that matches it is not a negation. */
  ghost predicate Ignored(rules: seq<IgnoreRule>, path: string, isDir: bool) {
    exists i :: 0 <= i < |rules| && RuleMatches(rules[i], path, isDir) && !rules[i].isNegation
             && forall j :: i < j < |rules| ==> !RuleMatches(rules[j], path, isDir)
  }

  class IgnoreMatcher {
    var rules: seq<IgnoreRule>

    constructor ()
      ensures rules == []
    {
      rules := [];
    }

    method AddLine(line: string)
      modifies this
      ensures rules == old(rules) + ParseLine(line)
    {
      var pattern := TrimEnd(TrimStart(line));
      if pattern == "" || pattern[0] == '#' {
        return;
      }
      var isNegation := pattern[0] == '!';
      if isNegation {
        pattern := pattern[1..];
      }
      var directoryOnly := EndsWith(pattern, "/");
      if directoryOnly {
        pattern := pattern[..|pattern| - 1];
      }
      var anchored := pattern != "" && pattern[0] == '/';
      if anchored {
        pattern := pattern[1..];
      }
      rules := rules + [IgnoreRule(pattern, isNegation, anchored, directoryOnly)];
    }

    method Matches(path: string, isDir: bool) returns (ignored: bool)
      ensures ignored == Ignored(rules, path, isDir)
    {
      ignored := false;
      for i := 0 to |rules|
        invariant ignored == Ignored(rules[..i], path, isDir)
      {
        IgnoredSnoc(rules[..i], rules[i], path, isDir);
        assert rules[..i + 1] == rules[..i] + [rules[i]];
        if RuleMatches(rules[i], path, isDir) {
          ignored := !rules[i].isNegation;
        }
      }
      assert rules[..|rules|] == rules;
    }

    /** The path itself or one of its ancestor directories is ignored. */
    method IsIgnoredWithAncestors(path: string, isDir: bool) returns (ignored: bool)
      ensures ignored == IgnoredWithAncestors(rules, path, isDir)
    {
      var normalized := Normalize(path);
      var self := Matches(normalized, isDir);
      if self {
        return true;
      }
      var segments := Split(normalized, '/');
      var prefix := "";
      for k := 0 to |segments| - 1
        invariant prefix == GrownPrefix(segments, k)
        invariant forall m :: 1 <= m <= k ==> !Ignored(rules, GrownPrefix(segments, m), true)
      {
        if prefix != "" {
          prefix := prefix + "/";
        }
        prefix := prefix + segments[k];
        var hit := Matches(prefix, true);
        assert prefix == GrownPrefix(segments, k + 1);
        if hit {
          return true;
        }
      }
      return false;
    }
  }

  /** A further rule decides where it matches and changes nothing elsewhere. */
  lemma {:induction false} IgnoredSnoc(rules: seq<IgnoreRule>, r: IgnoreRule, path: string, isDir: bool)
    ensures Ignored(rules + [r], path, isDir) ==
            if RuleMatches(r, path, isDir) then !r.isNegation else Ignored(rules, path, isDir)
  {
    hide RuleMatches;
    var more := rules + [r];
    assert more[|rules|] == r;
    if !RuleMatches(r, path, isDir) {
      if Ignored(rules, path, isDir) {
        var i :| 0 <= i < |rules| && RuleMatches(rules[i], path, isDir) && !rules[i].isNegation
              && forall j :: i < j < |rules| ==> !RuleMatches(rules[j], path, isDir);
        assert more[i] == rules[i];
      }
      if Ignored(more, path, isDir) {
        var i :| 0 <= i < |more| && RuleMatches(more[i], path, isDir) && !more[i].isNegation
              && forall j :: i < j < |more| ==> !RuleMatches(more[j], path, isDir);
        assert rules[i] == more[i];
        forall j | i < j < |rules|
          ensures !RuleMatches(rules[j], path, isDir)
        {
          assert rules[j] == more[j];
        }
      }
    }
  }

  // ---- A path and its ancestors ----

  function Normalize(path: string): (r: string)
    ensures |r| == |path| && '\\' !in r
    ensures '\\' !in path ==> r == path
  {
    seq(|path|, i requires 0 <= i < |path| => if path[i] == '\\' then '/' else path[i])
  }

  /** The prefix string after `k` segments, as the check grows it: a separator goes in only
      once the prefix is non-empty. */
  function GrownPrefix(segments: seq<string>, k: nat): string
    requires k <= |segments|
  {
    if k == 0 then ""
    else
      var prefix := GrownPrefix(segments, k - 1);
      (if prefix != "" then prefix + "/" else prefix) + segments[k - 1]
  }

  ghost predicate IgnoredWithAncestors(rules: seq<IgnoreRule>, path: string, isDir: bool) {
    var normalized := Normalize(path);
    var segments := Split(normalized, '/');
    || Ignored(rules, normalized, isDir)
    || (exists k :: 1 <= k < |segments| && Ignored(rules, GrownPrefix(segments, k), true))
  }

  // ---- Paths made of proper components ----

  predicate ProperName(name: string) {
    name != "" && '/' !in name && '\\' !in name
  }

  ghost predicate ProperNames(comps: seq<string>) {
    forall i :: 0 <= i < |comps| ==> ProperName(comps[i])
  }

  lemma {:induction false} JoinSnoc(comps: seq<string>, name: string)
    ensures Join(comps + [name], '/') == if comps == [] then name else Join(comps, '/') + "/" + name
  {
    if comps == [] {
      assert comps + [name] == [name];
    } else if |comps| == 1 {
      assert comps + [name] == [comps[0], name];
      assert [comps[0], name][1..] == [name];
    } else {
      JoinSnoc(comps[1..], name);
      assert (comps + [name])[1..] == comps[1..] + [name];
      assert comps[0] + "/" + (Join(comps[1..], '/') + "/" + name) == comps[0] + "/" + Join(comps[1..], '/') + "/" + name;
    }
  }

  lemma {:induction false} GrownPrefixIsJoin(comps: seq<string>, k: nat)
    requires ProperNames(comps) && k <= |comps|
    ensures GrownPrefix(comps, k) == Join(comps[..k], '/')
    ensures k > 0 ==> GrownPrefix(comps, k) != ""
  {
    if k > 0 {
      GrownPrefixIsJoin(comps, k - 1);
      JoinSnoc(comps[..k - 1], comps[k - 1]);
      assert comps[..k - 1] + [comps[k - 1]] == comps[..k];
    }
  }

  lemma {:induction false} NoBackslash(comps: seq<string>)
    requires ProperNames(comps)
    ensures '\\' !in Join(comps, '/')
  {
    if |comps| > 1 {
      NoBackslash(comps[1..]);
    }
  }

  /** For proper components the check looks at the path and at every directory above it. */
  lemma {:induction false} AncestorsMeaning(rules: seq<IgnoreRule>, comps: seq<string>, isDir: bool)
    requires comps != [] && ProperNames(comps)
    ensures IgnoredWithAncestors(rules, Join(comps, '/'), isDir) <==>
            exists k :: 1 <= k <= |comps| && Ignored(rules, Join(comps[..k], '/'), k < |comps| || isDir)
  {
    hide Ignored, Join, Split, GrownPrefix, Normalize;
    var path := Join(comps, '/');
    NoBackslash(comps);
    SplitJoin(comps, '/');
    assert comps[..|comps|] == comps;
    forall k | 0 <= k <= |comps|
      ensures GrownPrefix(comps, k) == Join(comps[..k], '/')
    {
      GrownPrefixIsJoin(comps, k);
    }
    if Ignored(rules, path, isDir) {
      assert Ignored(rules, Join(comps[..|comps|], '/'), |comps| < |comps| || isDir);
    }
  }

  // ---- What a rule means ----

  /** The components from `start` on match the pattern's components one by one. */
  ghost predicate StretchMatches(pats: seq<string>, comps: seq<string>, start: int) {
    && 0 <= start && start + |pats| <= |comps|
    && (forall i :: 0 <= i < |pats| ==> Glob.Matches(pats[i], comps[start + i]))
  }

  ghost predicate NoStars(comps: seq<string>) {
    forall i :: 0 <= i < |comps| ==> '*' !in comps[i]
  }

  lemma {:induction false} WindowMeans(pats: seq<string>, comps: seq<string>, start: nat)
    requires NoStars(comps) && start + |pats| <= |comps|
    ensures WindowMatches(pats, comps, start) <==> StretchMatches(pats, comps, start)
  {
    forall i | 0 <= i < |pats|
      ensures Glob.Accepts(pats[i], comps[start + i]) <==> Glob.Matches(pats[i], comps[start + i])
    {
      Glob.GlobSound(pats[i], comps[start + i]);
      Glob.GlobComplete(pats[i], comps[start + i]);
    }
  }

  lemma {:induction false} SlashInJoin(pats: seq<string>)
    requires pats != [] && forall i :: 0 <= i < |pats| ==> '/' !in pats[i]
    ensures '/' in Join(pats, '/') <==> |pats| > 1
  {
    if |pats| > 1 {
      assert Join(pats, '/')[|pats[0]|] == '/';
    }
  }

  lemma {:induction false} UnanchoredMeans(pats: seq<string>, comps: seq<string>)
    requires pats != [] && (forall i :: 0 <= i < |pats| ==> '/' !in pats[i])
    requires comps != [] && ProperNames(comps) && NoStars(comps)
    ensures UnanchoredMatch(Join(pats, '/'), Join(comps, '/')) <==> exists start :: StretchMatches(pats, comps, start)
  {
    SplitJoin(pats, '/');
    SplitJoin(comps, '/');
    SlashInJoin(pats);
    hide Split, Join, WindowMatches;
    if |pats| == 1 {
      JoinOne(pats);
    }
    forall start: nat | start + |pats| <= |comps|
      ensures WindowMatches(pats, comps, start) <==> StretchMatches(pats, comps, start)
      ensures |pats| == 1 ==> (WindowMatches(pats, comps, start) <==> Glob.Accepts(pats[0], comps[start]))
    {
      hide StretchMatches;
      WindowMeans(pats, comps, start);
      if |pats| == 1 {
        WindowOfOne(pats, comps, start);
      }
    }
    if UnanchoredMatch(Join(pats, '/'), Join(comps, '/')) {
      var start :| 0 <= start <= |comps| - |pats| && WindowMatches(pats, comps, start);
      assert StretchMatches(pats, comps, start);
    }
    if start :| StretchMatches(pats, comps, start) {
      assert WindowMatches(pats, comps, start);
    }
  }

  lemma {:induction false} WindowOfOne(pats: seq<string>, comps: seq<string>, start: nat)
    requires |pats| == 1 && start < |comps|
    ensures WindowMatches(pats, comps, start) <==> Glob.Accepts(pats[0], comps[start])
  {
  }

  lemma {:induction false} JoinOne(pats: seq<string>)
    requires |pats| == 1
    ensures Join(pats, '/') == pats[0]
  {
  }

  /** An anchored rule matches the paths that begin with components its pattern means, any other
      rule those that hold a stretch of such components; directory-only rules need a directory. */
  lemma {:induction false} RuleMeans(r: IgnoreRule, pats: seq<string>, comps: seq<string>, isDir: bool)
    requires pats != [] && (forall i :: 0 <= i < |pats| ==> '/' !in pats[i]) && r.pattern == Join(pats, '/')
    requires comps != [] && ProperNames(comps) && NoStars(comps)
    ensures RuleMatches(r, Join(comps, '/'), isDir) <==>
            && (r.directoryOnly ==> isDir)
            && (if r.anchored then StretchMatches(pats, comps, 0) else exists start :: StretchMatches(pats, comps, start))
  {
    hide UnanchoredMatch, StretchMatches;
    SplitJoin(pats, '/');
    SplitJoin(comps, '/');
    UnanchoredMeans(pats, comps);
    hide Split, Join, WindowMatches;
    if |pats| <= |comps| {
      WindowMeans(pats, comps, 0);
    } else {
      TooShort(pats, comps);
    }
  }

  lemma {:induction false} TooShort(pats: seq<string>, comps: seq<string>)
    requires |pats| > |comps|
    ensures !StretchMatches(pats, comps, 0)
  {
  }

  /** A rule that is not anchored matches below any further directories. */
  lemma {:induction false} UnanchoredAnywhere(r: IgnoreRule, pre: seq<string>, comps: seq<string>, isDir: bool)
    requires ProperNames(pre) && ProperNames(comps) && comps != [] && !r.anchored
    requires RuleMatches(r, Join(comps, '/'), isDir)
    ensures RuleMatches(r, Join(pre + comps, '/'), isDir)
  {
    SplitJoin(comps, '/');
    SplitJoin(pre + comps, '/');
    hide Join;
    var all, pats := pre + comps, Split(r.pattern, '/');
    if '/' in r.pattern {
      var start :| 0 <= start <= |comps| - |pats| && WindowMatches(pats, comps, start);
      assert forall i :: 0 <= i < |comps| ==> all[|pre| + i] == comps[i];
      assert WindowMatches(pats, all, |pre| + start);
    } else {
      var i :| 0 <= i < |comps| && Glob.Accepts(r.pattern, comps[i]);
      assert all[|pre| + i] == comps[i];
    }
  }

  // ---- Rules without negation and directory restriction ----

  lemma {:induction false} DeeperStillMatches(r: IgnoreRule, comps: seq<string>, k: nat, isDir: bool)
    requires ProperNames(comps) && 1 <= k <= |comps|
    requires !r.directoryOnly && RuleMatches(r, Join(comps[..k], '/'), true)
    ensures RuleMatches(r, Join(comps, '/'), isDir)
  {
    var upper := comps[..k];
    SplitJoin(upper, '/');
    SplitJoin(comps, '/');
    var pats := Split(r.pattern, '/');
    if r.anchored {
      assert WindowMatches(pats, comps, 0);
    } else if '/' in r.pattern {
      var start :| 0 <= start <= |upper| - |pats| && WindowMatches(pats, upper, start);
      assert WindowMatches(pats, comps, start);
    } else {
      var i :| 0 <= i < |upper| && Glob.Accepts(r.pattern, upper[i]);
      assert comps[i] == upper[i];
    }
  }

  ghost predicate PlainRules(rules: seq<IgnoreRule>) {
    forall i :: 0 <= i < |rules| ==> !rules[i].isNegation && !rules[i].directoryOnly
  }

  lemma {:induction false} PlainIgnored(rules: seq<IgnoreRule>, path: string, isDir: bool)
    requires PlainRules(rules)
    ensures Ignored(rules, path, isDir) <==> exists i :: 0 <= i < |rules| && RuleMatches(rules[i], path, isDir)
    decreases |rules|
  {
    hide RuleMatches;
    if rules != [] {
      var front, last := rules[..|rules| - 1], rules[|rules| - 1];
      assert rules == front + [last];
      PlainIgnored(front, path, isDir);
      IgnoredSnoc(front, last, path, isDir);
      if i :| 0 <= i < |front| && RuleMatches(front[i], path, isDir) {
        assert rules[i] == front[i];
      }
    }
  }

  /** With no negated and no directory-only rules, looking at the path alone is enough. */
  lemma {:induction false} PlainRulesNeedNoAncestors(rules: seq<IgnoreRule>, comps: seq<string>, isDir: bool)
    requires PlainRules(rules) && comps != [] && ProperNames(comps)
    ensures IgnoredWithAncestors(rules, Join(comps, '/'), isDir) <==> Ignored(rules, Join(comps, '/'), isDir)
  {
    hide Ignored, RuleMatches;
    AncestorsMeaning(rules, comps, isDir);
    assert comps[..|comps|] == comps;
    PlainIgnored(rules, Join(comps, '/'), isDir);
    if k :| 1 <= k <= |comps| && Ignored(rules, Join(comps[..k], '/'), k < |comps| || isDir) {
      if k < |comps| {
        PlainIgnored(rules, Join(comps[..k], '/'), true);
        var i :| 0 <= i < |rules| && RuleMatches(rules[i], Join(comps[..k], '/'), true);
        DeeperStillMatches(rules[i], comps, k, isDir);
      }
    }
    if Ignored(rules, Join(comps, '/'), isDir) {
      assert Ignored(rules, Join(comps[..|comps|], '/'), |comps| < |comps| || isDir);
    }
  }
}
