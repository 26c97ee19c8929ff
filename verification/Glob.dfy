/** Glob matching by iterative backtracking. A text is a string with one character per byte. */
module Glob {

  /** `c` of the pattern takes `d` of the text one for one. */
  predicate TakesOne(c: char, d: char) {
    c == d || c == '?'
  }

  // ---- The meaning of a pattern ----

  /** The pattern from `p` on matches the text from `t` on: `*` takes any stretch of
      text, every other character takes exactly one. */
  ghost predicate MatchFrom(pat: string, txt: string, p: nat, t: nat)
    requires p <= |pat| && t <= |txt|
    decreases |pat| - p, 0
  {
    if p == |pat| then t == |txt|
    else if pat[p] == '*' then MatchBeyond(pat, txt, p + 1, t)
    else t < |txt| && TakesOne(pat[p], txt[t]) && MatchFrom(pat, txt, p + 1, t + 1)
  }

  /** The pattern from `p` on matches the text from some place at or after `t`. */
  ghost predicate MatchBeyond(pat: string, txt: string, p: nat, t: nat)
    requires p <= |pat| && t <= |txt|
    decreases |pat| - p, 1
  {
    exists k :: t <= k <= |txt| && MatchFrom(pat, txt, p, k)
  }

  ghost predicate Matches(pat: string, txt: string) {
    MatchFrom(pat, txt, 0, 0)
  }

  // ---- The loop ----

  predicate OnlyStars(pat: string, p: nat)
    requires p <= |pat|
    decreases |pat| - p
  {
    p == |pat| || (pat[p] == '*' && OnlyStars(pat, p + 1))
  }

  /** What the loop decides from a given state; `star` is -1 before any `*` was passed.
      A pass over `*` moves `star` on, backtracking moves `mark` on, and anything else
      moves both cursors, so the state decreases lexicographically. */
  function Run(pat: string, txt: string, p: nat, t: nat, star: int, mark: nat): bool
    requires -1 <= star < p <= |pat| && mark <= t <= |txt|
    decreases |pat| - star, |txt| - mark, |txt| - t + |pat| - p
  {
    if t == |txt| then OnlyStars(pat, p)
    else if p < |pat| && TakesOne(pat[p], txt[t]) then Run(pat, txt, p + 1, t + 1, star, mark)
    else if p < |pat| && pat[p] == '*' then Run(pat, txt, p + 1, t, p, t)
    else if star >= 0 then Run(pat, txt, star + 1, mark + 1, star, mark + 1)
    else false
  }

  function Accepts(pat: string, txt: string): bool {
    Run(pat, txt, 0, 0, -1, 0)
  }

  method GlobMatch(pat: string, txt: string) returns (r: bool)
    ensures r == Accepts(pat, txt)
    ensures r ==> Matches(pat, txt)
    ensures '*' !in txt ==> (r <==> Matches(pat, txt))
  {
    GlobSound(pat, txt);
    if '*' !in txt {
      GlobComplete(pat, txt);
    }
    var p: nat, t: nat, star: int, mark: nat := 0, 0, -1, 0;
    while t < |txt|
      invariant -1 <= star < p <= |pat| && mark <= t <= |txt|
      invariant Run(pat, txt, p, t, star, mark) == Accepts(pat, txt)
      decreases |pat| - star, |txt| - mark, |txt| - t + |pat| - p
    {
      if p < |pat| && (pat[p] == txt[t] || pat[p] == '?') {
        p, t := p + 1, t + 1;
      } else if p < |pat| && pat[p] == '*' {
        star, mark := p, t;
        p := p + 1;
      } else if star >= 0 {
        p := star + 1;
        mark := mark + 1;
        t := mark;
      } else {
        return false;
      }
    }
    while p < |pat| && pat[p] == '*'
      invariant p <= |pat|
      invariant OnlyStars(pat, p) == Accepts(pat, txt)
    {
      p := p + 1;
    }
    return p == |pat|;
  }

  // ---- Soundness ----

  /** The pattern after the last passed `*` matches from some later place. */
  ghost predicate LaterMatch(pat: string, txt: string, star: int, mark: nat)
    requires -1 <= star < |pat| && mark <= |txt|
  {
    star >= 0 && mark < |txt| && MatchBeyond(pat, txt, star + 1, mark + 1)
  }

  lemma {:induction false} StarsMatchEnd(pat: string, txt: string, p: nat)
    requires p <= |pat|
    ensures OnlyStars(pat, p) <==> MatchFrom(pat, txt, p, |txt|)
    decreases |pat| - p
  {
    if p < |pat| && pat[p] == '*' {
      StarsMatchEnd(pat, txt, p + 1);
    }
  }

  lemma {:induction false} RunSound(pat: string, txt: string, p: nat, t: nat, star: int, mark: nat)
    requires -1 <= star < p <= |pat| && star < |pat| && mark <= t <= |txt|
    requires Run(pat, txt, p, t, star, mark)
    ensures MatchFrom(pat, txt, p, t) || LaterMatch(pat, txt, star, mark)
    decreases |pat| - star, |txt| - mark, |txt| - t + |pat| - p
  {
    if t == |txt| {
      StarsMatchEnd(pat, txt, p);
    } else if p < |pat| && TakesOne(pat[p], txt[t]) {
      RunSound(pat, txt, p + 1, t + 1, star, mark);
    } else if p < |pat| && pat[p] == '*' {
      RunSound(pat, txt, p + 1, t, p, t);
    } else {
      RunSound(pat, txt, star + 1, mark + 1, star, mark + 1);
    }
  }

  lemma {:induction false} EmptyPattern(txt: string, t: nat)
    requires t <= |txt|
    ensures Run("", txt, 0, t, -1, 0) <==> t == |txt|
  {
  }

  /** Whatever is accepted has the meaning of the pattern. */
  lemma {:induction false} GlobSound(pat: string, txt: string)
    ensures Accepts(pat, txt) ==> Matches(pat, txt)
  {
    if Accepts(pat, txt) {
      if pat == "" {
        EmptyPattern(txt, 0);
      } else {
        RunSound(pat, txt, 0, 0, -1, 0);
      }
    }
  }

  // ---- Completeness ----

  /** Between the last `*` and the cursor the pattern holds no `*` and has advanced in step with the text. */
  ghost predicate InStep(pat: string, txt: string, p: nat, t: nat, star: int, mark: nat)
    requires -1 <= star < p <= |pat| && mark <= t <= |txt|
  {
    star >= 0 ==> t - mark == p - star - 1 && forall i :: star < i < p ==> pat[i] != '*'
  }

  /** A stretch of pattern without `*` uses up as many characters of text. */
  lemma {:induction false} StretchUsesText(pat: string, txt: string, a: nat, b: nat, k: nat)
    requires a <= b <= |pat| && k <= |txt|
    requires forall i :: a <= i < b ==> pat[i] != '*'
    requires MatchFrom(pat, txt, a, k)
    ensures k + (b - a) <= |txt| && MatchFrom(pat, txt, b, k + (b - a))
    decreases b - a
  {
    if a < b {
      StretchUsesText(pat, txt, a + 1, b, k + 1);
    }
  }

  lemma {:induction false} NoLaterMatchAtEnd(pat: string, txt: string, p: nat, star: int, mark: nat)
    requires -1 <= star < p <= |pat| && star < |pat| && mark <= |txt|
    requires InStep(pat, txt, p, |txt|, star, mark)
    ensures !LaterMatch(pat, txt, star, mark)
  {
    if LaterMatch(pat, txt, star, mark) {
      var k :| mark < k <= |txt| && MatchFrom(pat, txt, star + 1, k);
      StretchUsesText(pat, txt, star + 1, p, k);
    }
  }

  /** A later match for the last `*` gives one for the `*` at the cursor. */
  lemma {:induction false} NewStarCovers(pat: string, txt: string, p: nat, t: nat, star: int, mark: nat)
    requires -1 <= star < p < |pat| && mark <= t <= |txt| && pat[p] == '*'
    requires InStep(pat, txt, p, t, star, mark) && LaterMatch(pat, txt, star, mark)
    ensures MatchFrom(pat, txt, p, t)
  {
    var k :| mark < k <= |txt| && MatchFrom(pat, txt, star + 1, k);
    StretchUsesText(pat, txt, star + 1, p, k);
    var m :| k + (p - star - 1) <= m <= |txt| && MatchFrom(pat, txt, p + 1, m);
    assert t <= m;
  }

  lemma {:induction false} RunComplete(pat: string, txt: string, p: nat, t: nat, star: int, mark: nat)
    requires -1 <= star < p <= |pat| && star < |pat| && mark <= t <= |txt| && '*' !in txt
    requires InStep(pat, txt, p, t, star, mark)
    requires MatchFrom(pat, txt, p, t) || LaterMatch(pat, txt, star, mark)
    ensures Run(pat, txt, p, t, star, mark)
    decreases |pat| - star, |txt| - mark, |txt| - t + |pat| - p
  {
    if t == |txt| {
      NoLaterMatchAtEnd(pat, txt, p, star, mark);
      StarsMatchEnd(pat, txt, p);
    } else if p < |pat| && TakesOne(pat[p], txt[t]) {
      assert txt[t] in txt;
      RunComplete(pat, txt, p + 1, t + 1, star, mark);
    } else if p < |pat| && pat[p] == '*' {
      if LaterMatch(pat, txt, star, mark) {
        NewStarCovers(pat, txt, p, t, star, mark);
      }
      assert MatchFrom(pat, txt, p + 1, t) || LaterMatch(pat, txt, p, t);
      RunComplete(pat, txt, p + 1, t, p, t);
    } else {
      var k :| mark < k <= |txt| && MatchFrom(pat, txt, star + 1, k);
      assert k == mark + 1 || LaterMatch(pat, txt, star, mark + 1);
      RunComplete(pat, txt, star + 1, mark + 1, star, mark + 1);
    }
  }

  /** Every text the pattern means is accepted, if the text holds no `*`. */
  lemma {:induction false} GlobComplete(pat: string, txt: string)
    requires '*' !in txt
    ensures Matches(pat, txt) ==> Accepts(pat, txt)
  {
    if Matches(pat, txt) {
      if pat == "" {
        EmptyPattern(txt, 0);
      } else {
        RunComplete(pat, txt, 0, 0, -1, 0);
      }
    }
  }

  // ---- Exactly which texts are matched right ----

  /** `?` everywhere, with one `*` in front of position `i`. */
  function Probe(n: nat, i: nat): string
    requires i < n
  {
    seq(n + 1, k => if k == i then '*' else '?')
  }

  lemma {:induction false} ProbeRejected(txt: string, i: nat, q: nat)
    requires i < |txt| && txt[i] == '*' && q <= |txt|
    ensures !Run(Probe(|txt|, i), txt, q, q, -1, 0)
    decreases |txt| - q
  {
    if q < |txt| {
      ProbeRejected(txt, i, q + 1);
    }
  }

  lemma {:induction false} ProbeTail(txt: string, i: nat, q: nat)
    requires i < |txt| && i <= q <= |txt|
    ensures MatchFrom(Probe(|txt|, i), txt, q + 1, q)
    decreases |txt| - q
  {
    if q < |txt| {
      ProbeTail(txt, i, q + 1);
    }
  }

  lemma {:induction false} ProbeMatches(txt: string, i: nat, q: nat)
    requires i < |txt| && q <= i
    ensures MatchFrom(Probe(|txt|, i), txt, q, q)
    decreases i - q
  {
    if q == i {
      ProbeTail(txt, i, i);
    } else {
      ProbeMatches(txt, i, q + 1);
    }
  }

  /** A text is matched as every pattern means exactly when it holds no `*`: a `*` in the
      text is compared as a literal first, and that choice is never reconsidered. */
  lemma {:induction false} GlobExactIff(txt: string)
    ensures (forall pat: string :: Accepts(pat, txt) == Matches(pat, txt)) <==> '*' !in txt
  {
    if '*' in txt {
      var i :| 0 <= i < |txt| && txt[i] == '*';
      ProbeRejected(txt, i, 0);
      ProbeMatches(txt, i, 0);
      assert Accepts(Probe(|txt|, i), txt) != Matches(Probe(|txt|, i), txt);
    } else {
      forall pat: string
        ensures Accepts(pat, txt) == Matches(pat, txt)
      {
        GlobSound(pat, txt);
        GlobComplete(pat, txt);
      }
    }
  }

  lemma {:induction false} RunItself(pat: string, q: nat)
    requires q <= |pat|
    ensures Run(pat, pat, q, q, -1, 0)
    decreases |pat| - q
  {
    if q < |pat| {
      RunItself(pat, q + 1);
    }
  }

  /** Every pattern accepts itself as a text. */
  lemma {:induction false} AcceptsItself(pat: string)
    ensures Accepts(pat, pat)
  {
    RunItself(pat, 0);
  }
}
