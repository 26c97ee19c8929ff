/** The merge sweep: one pass over the base with a cursor per edit list and per region. */
module MergeSweep {
  import opened Edits
  import opened ConflictRegions

  datatype MergeTask = MergeTask(base: seq<Line>, local: seq<Edit>, remote: seq<Edit>, regions: seq<Region>)

  /** Edit lists inside the base, together with exactly their conflict regions. */
  type Input = t: MergeTask | ValidTask(t) witness MergeTask([], [], [], [])

  datatype Cursor = Cursor(pos: nat, li: nat, ri: nat, ci: nat, out: seq<Line>)

  const START := Cursor(0, 0, 0, 0, [])

  ghost predicate ValidTask(t: MergeTask) {
    && WellFormed(t.local, |t.base|)
    && WellFormed(t.remote, |t.base|)
    && IsRegions(t.local, t.remote, t.regions)
  }

  predicate Done(inp: Input, c: Cursor) {
    !(c.pos < |inp.base| || c.li < |inp.local| || c.ri < |inp.remote|)
  }

  // ---- One side of a conflict ----

  /** Index of the first edit from `from` on that starts inside `g`, or the length. */
  ghost function FirstIn(es: seq<Edit>, g: Region, from: nat): (i: nat)
    requires from <= |es|
    ensures from <= i <= |es|
    ensures i < |es| ==> g.start <= es[i].start < g.end
    ensures forall m :: from <= m < i ==> !(g.start <= es[m].start < g.end)
    decreases |es| - from
  {
    if from == |es| || g.start <= es[from].start < g.end then from else FirstIn(es, g, from + 1)
  }

  /** No edit that starts inside `g` ends outside it. */
  ghost predicate EndsWithin(es: seq<Edit>, g: Region) {
    forall i :: 0 <= i < |es| && g.start <= es[i].start < g.end ==> es[i].start <= es[i].end <= g.end
  }

  ghost function Side(base: seq<Line>, es: seq<Edit>, g: Region): seq<Line>
    requires g.start <= g.end <= |base| && EndsWithin(es, g)
  {
    var i := FirstIn(es, g, 0);
    if i == |es| then base[g.start..g.end]
    else base[g.start..es[i].start] + es[i].lines + base[es[i].end..g.end]
  }

  /** The output for one side of a region: base lines with the first edit in it applied. */
  method BuildSide(base: seq<Line>, es: seq<Edit>, g: Region) returns (s: seq<Line>)
    requires g.start <= g.end <= |base| && EndsWithin(es, g)
    ensures s == Side(base, es, g)
  {
    var i := 0;
    while i < |es| && !(g.start <= es[i].start < g.end)
      invariant i <= |es| && FirstIn(es, g, 0) == FirstIn(es, g, i)
    {
      i := i + 1;
    }
    if i == |es| {
      return base[g.start..g.end];
    }
    s := base[g.start..es[i].start] + es[i].lines + base[es[i].end..g.end];
  }

  const LOCAL_MARK: Line := "<<<<<<< local\n"
  const MIDDLE_MARK: Line := "=======\n"
  const REMOTE_MARK: Line := ">>>>>>> remote\n"

  ghost function Block(inp: Input, k: nat): seq<Line>
    requires k < |inp.regions|
  {
    RegionFits(inp, k);
    [LOCAL_MARK] + Side(inp.base, inp.local, inp.regions[k])
    + [MIDDLE_MARK] + Side(inp.base, inp.remote, inp.regions[k]) + [REMOTE_MARK]
  }

  lemma RegionFits(inp: Input, k: nat)
    requires k < |inp.regions|
    ensures inp.regions[k].start < inp.regions[k].end <= |inp.base|
    ensures EndsWithin(inp.local, inp.regions[k]) && EndsWithin(inp.remote, inp.regions[k])
  {
    NothingStraddles(inp.local, inp.remote, inp.regions, |inp.base|, k);
  }

  // ---- The sweep as a transition function ----

  /** Skips the edits that end at or before `pos`. */
  ghost function SkipTo(es: seq<Edit>, from: nat, pos: nat): (i: nat)
    requires from <= |es|
    ensures from <= i <= |es|
    ensures forall m :: from <= m < i ==> es[m].end <= pos
    ensures i < |es| ==> es[i].end > pos
    decreases |es| - from
  {
    if from < |es| && es[from].end <= pos then SkipTo(es, from + 1, pos) else from
  }

  predicate AtRegion(inp: Input, c: Cursor) {
    c.ci < |inp.regions| && inp.regions[c.ci].start == c.pos
  }

  predicate AtLocal(inp: Input, c: Cursor) {
    c.li < |inp.local| && inp.local[c.li].start == c.pos
  }

  predicate AtRemote(inp: Input, c: Cursor) {
    c.ri < |inp.remote| && inp.remote[c.ri].start == c.pos
  }

  /** A pending start, or the end of the base when nothing is pending, is not ahead of the cursor. */
  predicate SomethingBehind(inp: Input, c: Cursor) {
    || (c.ci < |inp.regions| && inp.regions[c.ci].start <= c.pos)
    || (c.li < |inp.local| && inp.local[c.li].start <= c.pos)
    || (c.ri < |inp.remote| && inp.remote[c.ri].start <= c.pos)
    || (c.ci >= |inp.regions| && c.li >= |inp.local| && c.ri >= |inp.remote| && |inp.base| <= c.pos)
  }

  /** The nearest pending start, or the end of the base when nothing is pending;
      never behind the current position. */
  function NextEvent(inp: Input, c: Cursor): (e: nat)
    ensures c.pos <= e
    ensures c.ci < |inp.regions| ==> e <= Max(c.pos, inp.regions[c.ci].start)
    ensures c.li < |inp.local| ==> e <= Max(c.pos, inp.local[c.li].start)
    ensures c.ri < |inp.remote| ==> e <= Max(c.pos, inp.remote[c.ri].start)
    ensures || (e == c.pos && SomethingBehind(inp, c))
            || (c.ci < |inp.regions| && e == inp.regions[c.ci].start)
            || (c.li < |inp.local| && e == inp.local[c.li].start)
            || (c.ri < |inp.remote| && e == inp.remote[c.ri].start)
            || (c.ci >= |inp.regions| && c.li >= |inp.local| && c.ri >= |inp.remote| && e == |inp.base|)
  {
    var region := if c.ci < |inp.regions| then [inp.regions[c.ci].start] else [];
    var local := if c.li < |inp.local| then [inp.local[c.li].start] else [];
    var remote := if c.ri < |inp.remote| then [inp.remote[c.ri].start] else [];
    var starts := region + local + remote;
    assert c.li < |inp.local| ==> starts[|region|] == inp.local[c.li].start;
    assert c.ri < |inp.remote| ==> starts[|region + local|] == inp.remote[c.ri].start;
    Max(Least(starts, |inp.base|), c.pos)
  }

  function Max(a: nat, b: nat): nat { if a > b then a else b }

  /** The least element, or `default` when there is none. */
  function Least(s: seq<nat>, default: nat): (m: nat)
    ensures if s == [] then m == default else m in s
    ensures forall i :: 0 <= i < |s| ==> m <= s[i]
  {
    if s == [] then default
    else if |s| == 1 then s[0]
    else
      var m := Least(s[1..], default);
      if s[0] < m then s[0] else m
  }

  /** What every reachable cursor satisfies. A pending remote edit may lie behind the
      cursor only in the way `Trapped` describes. */
  ghost predicate Inv(inp: Input, c: Cursor) {
    && c.pos <= |inp.base| && c.li <= |inp.local| && c.ri <= |inp.remote| && c.ci <= |inp.regions|
    && (c.ci > 0 ==> inp.regions[c.ci - 1].end <= c.pos)
    && (c.ci < |inp.regions| ==> c.pos <= inp.regions[c.ci].start)
    && (forall j :: 0 <= j < c.li ==> inp.local[j].end <= c.pos)
    && (forall j :: 0 <= j < c.ri ==> inp.remote[j].end <= c.pos)
    && (c.li < |inp.local| ==> c.pos <= inp.local[c.li].start)
    && (c.ci > 0 && c.li < |inp.local| ==> inp.regions[c.ci - 1].end < inp.local[c.li].end)
    && (c.ci > 0 && c.ri < |inp.remote| ==> inp.regions[c.ci - 1].end < inp.remote[c.ri].end)
    && (c.ri < |inp.remote| && inp.remote[c.ri].start < c.pos ==> exists k :: Trapped(inp, c, k))
  }

  ghost predicate RegionStartsAt(inp: Input, p: nat) {
    exists k :: 0 <= k < |inp.regions| && inp.regions[k].start == p
  }

  ghost predicate RegionTouches(inp: Input, p: nat) {
    exists k :: 0 <= k < |inp.regions| && inp.regions[k].start <= p <= inp.regions[k].end
  }

  /** Local edit `i` replaces lines exactly where remote edit `j` only inserts, away from every region. */
  ghost predicate Shadows(inp: Input, i: nat, j: nat) {
    && i < |inp.local| && j < |inp.remote|
    && inp.local[i].start < inp.local[i].end
    && inp.remote[j].start == inp.remote[j].end == inp.local[i].start
    && !RegionTouches(inp, inp.local[i].start)
  }

  /** Local edits `k..last` follow each other without a gap, and no region starts at a seam. */
  ghost predicate Chain(inp: Input, k: nat, last: nat) {
    && k <= last < |inp.local|
    && (forall m :: k <= m < last ==>
          inp.local[m].end == inp.local[m + 1].start && !RegionStartsAt(inp, inp.local[m].end))
  }

  /** Local edit `k` has carried the cursor past the pending remote insertion. */
  ghost predicate Trapped(inp: Input, c: Cursor, k: nat) {
    && k < c.li <= |inp.local|
    && Shadows(inp, k, c.ri)
    && Chain(inp, k, c.li - 1)
    && inp.local[c.li - 1].end == c.pos
    && (forall j :: c.ri <= j < |inp.remote| && inp.remote[j].start < c.pos ==>
          inp.remote[j].start == inp.remote[j].end)
  }

  lemma NextEventInRange(inp: Input, c: Cursor)
    requires Inv(inp, c)
    ensures c.pos <= NextEvent(inp, c) <= |inp.base|
  {
    hide NextEvent;
    if c.ci < |inp.regions| {
      RegionFits(inp, c.ci);
    }
  }

  ghost function Step(inp: Input, c: Cursor): Cursor
    requires Inv(inp, c)
  {
    if AtRegion(inp, c) then
      var end := inp.regions[c.ci].end;
      Cursor(end, SkipTo(inp.local, c.li, end), SkipTo(inp.remote, c.ri, end), c.ci + 1,
             c.out + Block(inp, c.ci))
    else if AtLocal(inp, c) then
      c.(pos := inp.local[c.li].end, li := c.li + 1, out := c.out + inp.local[c.li].lines)
    else if AtRemote(inp, c) then
      c.(pos := inp.remote[c.ri].end, ri := c.ri + 1, out := c.out + inp.remote[c.ri].lines)
    else
      NextEventInRange(inp, c);
      c.(pos := NextEvent(inp, c), out := c.out + inp.base[c.pos..NextEvent(inp, c)])
  }

  // ---- The invariant is kept by every step ----

  lemma StepRegionKeepsInv(inp: Input, c: Cursor)
    requires Inv(inp, c) && AtRegion(inp, c)
    ensures Inv(inp, Step(inp, c))
  {
    NothingStraddles(inp.local, inp.remote, inp.regions, |inp.base|, c.ci);
    var d := Step(inp, c);
    assert d.li < |inp.local| ==> !Straddles(inp.local[d.li], d.pos);
    assert d.ri < |inp.remote| ==> !Straddles(inp.remote[d.ri], d.pos);
  }

  /** Away from a region start, nothing pending overlaps the edit about to be applied. */
  lemma NoOverlapHere(inp: Input, c: Cursor, i: nat, j: nat)
    requires Inv(inp, c) && !AtRegion(inp, c)
    requires i < |inp.local| && j < |inp.remote|
    requires inp.local[i].start == c.pos || inp.remote[j].start == c.pos
    requires c.pos <= inp.local[i].start && c.pos <= inp.remote[j].start
    ensures !Overlaps(inp.local[i], inp.remote[j])
  {
    if Overlaps(inp.local[i], inp.remote[j]) {
      var k := PairInOneRegion(inp.local, inp.remote, inp.regions, i, j);
    }
  }

  lemma NoRegionStartsHere(inp: Input, c: Cursor)
    requires Inv(inp, c) && !AtRegion(inp, c)
    ensures !RegionStartsAt(inp, c.pos)
  {
  }

  lemma StepLocalKeepsInv(inp: Input, c: Cursor)
    requires Inv(inp, c) && !AtRegion(inp, c) && AtLocal(inp, c)
    ensures Inv(inp, Step(inp, c))
  {
    var d := Step(inp, c);
    var e := inp.local[c.li];
    if c.ci < |inp.regions| {
      NothingStraddles(inp.local, inp.remote, inp.regions, |inp.base|, c.ci);
      assert !Straddles(e, inp.regions[c.ci].start);
    }
    if d.ri < |inp.remote| && inp.remote[d.ri].start < d.pos {
      LocalTraps(inp, c);
    }
  }

  /** A local edit that jumps over pending remote insertions traps them, or keeps them trapped. */
  lemma LocalTraps(inp: Input, c: Cursor)
    requires Inv(inp, c) && !AtRegion(inp, c) && AtLocal(inp, c)
    requires c.ri < |inp.remote| && inp.remote[c.ri].start < inp.local[c.li].end
    ensures exists k :: Trapped(inp, Step(inp, c), k)
  {
    hide NextEvent, Block, IsRegions, RegionStartsAt, RegionTouches;
    PendingRemoteInserts(inp, c);
    NoRegionStartsHere(inp, c);
    if inp.remote[c.ri].start < c.pos {
      var k :| Trapped(inp, c, k);
      assert Trapped(inp, Step(inp, c), k);
    } else {
      NoRegionTouchesHere(inp, c);
      assert Trapped(inp, Step(inp, c), c.li);
    }
  }

  /** Remote edits that the next local edit would jump over are insertions at the cursor or behind it. */
  lemma PendingRemoteInserts(inp: Input, c: Cursor)
    requires Inv(inp, c) && !AtRegion(inp, c) && AtLocal(inp, c)
    ensures forall j :: c.ri <= j < |inp.remote| && inp.remote[j].start < inp.local[c.li].end ==>
              inp.remote[j].start == inp.remote[j].end <= c.pos
  {
    forall j | c.ri <= j < |inp.remote| && inp.remote[j].start < inp.local[c.li].end
      ensures inp.remote[j].start == inp.remote[j].end <= c.pos
    {
      if inp.remote[j].start < c.pos {
        assert inp.remote[c.ri].start <= inp.remote[j].start;
        var k :| Trapped(inp, c, k);
      } else {
        NoOverlapHere(inp, c, c.li, j);
      }
    }
  }

  lemma NoRegionTouchesHere(inp: Input, c: Cursor)
    requires Inv(inp, c) && !AtRegion(inp, c)
    requires c.ri < |inp.remote| && inp.remote[c.ri].end == c.pos
    ensures !RegionTouches(inp, c.pos)
  {
  }

  lemma StepRemoteKeepsInv(inp: Input, c: Cursor)
    requires Inv(inp, c) && !AtRegion(inp, c) && !AtLocal(inp, c) && AtRemote(inp, c)
    ensures Inv(inp, Step(inp, c))
  {
    var d := Step(inp, c);
    var e := inp.remote[c.ri];
    if c.ci < |inp.regions| {
      NothingStraddles(inp.local, inp.remote, inp.regions, |inp.base|, c.ci);
      assert !Straddles(e, inp.regions[c.ci].start);
    }
    if c.li < |inp.local| {
      NoOverlapHere(inp, c, c.li, c.ri);
    }
  }

  lemma StepCopyKeepsInv(inp: Input, c: Cursor)
    requires Inv(inp, c) && !AtRegion(inp, c) && !AtLocal(inp, c) && !AtRemote(inp, c)
    ensures Inv(inp, Step(inp, c))
  {
    hide NextEvent;
    var d := Step(inp, c);
    NextEventInRange(inp, c);
    if d.ri < |inp.remote| && inp.remote[d.ri].start < d.pos {
      assert d.pos == c.pos;
      var k :| Trapped(inp, c, k);
      assert Trapped(inp, d, k);
    }
  }

  lemma StepKeepsInv(inp: Input, c: Cursor)
    requires Inv(inp, c)
    ensures Inv(inp, Step(inp, c))
  {
    if AtRegion(inp, c) {
      StepRegionKeepsInv(inp, c);
    } else if AtLocal(inp, c) {
      StepLocalKeepsInv(inp, c);
    } else if AtRemote(inp, c) {
      StepRemoteKeepsInv(inp, c);
    } else {
      StepCopyKeepsInv(inp, c);
    }
  }

  // ---- When the sweep ends ----

  ghost function Run(inp: Input, n: nat): (c: Cursor)
    ensures Inv(inp, c)
  {
    if n == 0 then START
    else
      var c := Run(inp, n - 1);
      StepKeepsInv(inp, c);
      if Done(inp, c) then c else Step(inp, c)
  }

  ghost predicate Terminates(inp: Input)
  {
    exists n: nat :: Done(inp, Run(inp, n))
  }

  /** The gapless run of local edits from `i` on ends without meeting a region start. */
  ghost predicate Blocked(inp: Input, i: nat)
    requires i < |inp.local|
    decreases |inp.local| - i
  {
    && !RegionStartsAt(inp, inp.local[i].end)
    && (i + 1 < |inp.local| && inp.local[i + 1].start == inp.local[i].end ==> Blocked(inp, i + 1))
  }

  /** A remote insertion sits at the start of a local replacement, away from every
      region, and no region directly follows that run of local edits. */
  ghost predicate Hangs(inp: Input) {
    exists i, j :: Shadows(inp, i, j) && Blocked(inp, i)
  }

  ghost function Measure(inp: Input, c: Cursor): int {
    |inp.base| - c.pos + |inp.local| - c.li + |inp.remote| - c.ri
  }

  lemma {:induction false} ChainBlocked(inp: Input, k: nat, last: nat)
    requires Chain(inp, k, last) && Blocked(inp, last)
    ensures Blocked(inp, k)
    decreases last
  {
    if k < last {
      assert !RegionStartsAt(inp, inp.local[last - 1].end);
      ChainBlocked(inp, k, last - 1);
    }
  }

  lemma RunEndsHere(inp: Input, i: nat)
    requires i < |inp.local| && !RegionStartsAt(inp, inp.local[i].end)
    requires i + 1 < |inp.local| ==> inp.local[i + 1].start != inp.local[i].end
    ensures Blocked(inp, i)
  {
  }

  /** A step that does not advance happens only on inputs that hang. */
  lemma StuckMeansHang(inp: Input, c: Cursor)
    requires Inv(inp, c) && !Done(inp, c)
    requires !AtRegion(inp, c) && !AtLocal(inp, c) && !AtRemote(inp, c) && NextEvent(inp, c) == c.pos
    ensures Hangs(inp)
  {
    hide Blocked, NextEvent;
    var k :| Trapped(inp, c, k);
    NoRegionStartsHere(inp, c);
    TrappedMeansHang(inp, c, k);
  }

  lemma TrappedMeansHang(inp: Input, c: Cursor, k: nat)
    requires Trapped(inp, c, k) && !AtLocal(inp, c) && !RegionStartsAt(inp, c.pos)
    ensures Hangs(inp)
  {
    hide Blocked;
    RunEndsHere(inp, c.li - 1);
    ChainBlocked(inp, k, c.li - 1);
    assert Shadows(inp, k, c.ri) && Blocked(inp, k);
  }

  lemma Progress(inp: Input, c: Cursor)
    requires Inv(inp, c) && !Done(inp, c) && !Hangs(inp)
    ensures 0 <= Measure(inp, Step(inp, c)) < Measure(inp, c)
  {
    StepKeepsInv(inp, c);
    if AtRegion(inp, c) {
      RegionFits(inp, c.ci);
    } else if !AtLocal(inp, c) && !AtRemote(inp, c) && NextEvent(inp, c) == c.pos {
      StuckMeansHang(inp, c);
    }
  }

  lemma EndsFrom(inp: Input, n: nat)
    requires !Hangs(inp)
    ensures Terminates(inp)
    decreases Measure(inp, Run(inp, n))
  {
    if !Done(inp, Run(inp, n)) {
      Progress(inp, Run(inp, n));
      EndsFrom(inp, n + 1);
    }
  }

  /** Not yet at the replacement `i`: neither it nor the insertion `j` has been passed. */
  ghost predicate Before(inp: Input, c: Cursor, i: nat, j: nat)
    requires i < |inp.local| && j < |inp.remote|
  {
    c.pos <= inp.local[i].start && c.li <= i && c.ri <= j
  }

  /** The cursor is past the insertion, at the end of a local edit of the blocked run. */
  ghost predicate Beyond(inp: Input, c: Cursor, i: nat, j: nat)
    requires i < |inp.local| && j < |inp.remote|
  {
    && c.ri <= j && inp.remote[c.ri].start < c.pos
    && 0 < c.li <= |inp.local| && inp.local[c.li - 1].end == c.pos
    && Blocked(inp, c.li - 1)
  }

  lemma BeyondStays(inp: Input, c: Cursor, i: nat, j: nat)
    requires Inv(inp, c)
    requires Shadows(inp, i, j) && Beyond(inp, c, i, j)
    ensures Beyond(inp, Step(inp, c), i, j)
  {
    hide NextEvent, Block;
    assert AtRegion(inp, c) ==> RegionStartsAt(inp, c.pos);
  }

  lemma BeforePassesRegion(inp: Input, c: Cursor, i: nat, j: nat)
    requires Inv(inp, c) && AtRegion(inp, c)
    requires Shadows(inp, i, j) && Before(inp, c, i, j)
    ensures Before(inp, Step(inp, c), i, j)
  {
  }

  lemma BeforeAppliesLocal(inp: Input, c: Cursor, i: nat, j: nat)
    requires Inv(inp, c) && !AtRegion(inp, c) && AtLocal(inp, c)
    requires Shadows(inp, i, j) && Blocked(inp, i) && Before(inp, c, i, j)
    ensures Before(inp, Step(inp, c), i, j) || Beyond(inp, Step(inp, c), i, j)
  {
  }

  lemma BeforeAdvances(inp: Input, c: Cursor, i: nat, j: nat)
    requires Inv(inp, c) && !AtRegion(inp, c) && !AtLocal(inp, c)
    requires Shadows(inp, i, j) && Before(inp, c, i, j)
    ensures Before(inp, Step(inp, c), i, j)
  {
  }

  lemma StepStaysCaught(inp: Input, c: Cursor, i: nat, j: nat)
    requires Inv(inp, c)
    requires Shadows(inp, i, j) && Blocked(inp, i)
    requires Before(inp, c, i, j) || Beyond(inp, c, i, j)
    ensures Before(inp, Step(inp, c), i, j) || Beyond(inp, Step(inp, c), i, j)
  {
    if Beyond(inp, c, i, j) {
      BeyondStays(inp, c, i, j);
    } else if AtRegion(inp, c) {
      BeforePassesRegion(inp, c, i, j);
    } else if AtLocal(inp, c) {
      BeforeAppliesLocal(inp, c, i, j);
    } else {
      BeforeAdvances(inp, c, i, j);
    }
  }

  lemma AtStart(inp: Input, i: nat, j: nat)
    requires i < |inp.local| && j < |inp.remote|
    ensures Before(inp, START, i, j)
  {
  }

  lemma {:induction false} CaughtForever(inp: Input, i: nat, j: nat, n: nat)
    requires Shadows(inp, i, j) && Blocked(inp, i)
    ensures Before(inp, Run(inp, n), i, j) || Beyond(inp, Run(inp, n), i, j)
  {
    hide Step, Before, Beyond, Inv;
    if n > 0 {
      CaughtForever(inp, i, j, n - 1);
      StepStaysCaught(inp, Run(inp, n - 1), i, j);
    } else {
      assert Before(inp, START, i, j) by { AtStart(inp, i, j); }
    }
  }

  /** The sweep terminates exactly when its input does not hang. */
  lemma {:induction false} TerminatesIffNoHang(inp: Input)
    ensures Terminates(inp) <==> !Hangs(inp)
  {
    if !Hangs(inp) {
      EndsFrom(inp, 0);
    } else {
      var i, j :| Shadows(inp, i, j) && Blocked(inp, i);
      forall n: nat
        ensures !Done(inp, Run(inp, n))
      {
        CaughtForever(inp, i, j, n);
      }
    }
  }
}
