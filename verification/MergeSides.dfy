/** How faithful the two sides of a conflict block are. */
module MergeSides {
  import opened Edits
  import opened ConflictRegions
  import opened MergeSweep

  /** The first edit from `from` on that starts at or after the end of `g`. */
  ghost function StopIn(es: seq<Edit>, g: Region, from: nat): (j: nat)
    requires from <= |es|
    ensures from <= j <= |es|
    ensures forall m :: from <= m < j ==> es[m].start < g.end
    ensures j < |es| ==> g.end <= es[j].start
    decreases |es| - from
  {
    if from == |es| || g.end <= es[from].start then from else StopIn(es, g, from + 1)
  }

  /** The edits of one side that start inside a region. */
  ghost function EditsIn(es: seq<Edit>, g: Region): seq<Edit> {
    var i := FirstIn(es, g, 0);
    es[i..StopIn(es, g, i)]
  }

  ghost predicate Fits(base: seq<Line>, es: seq<Edit>, g: Region) {
    g.start <= g.end <= |base| && WellFormed(es, |base|) && EndsWithin(es, g)
  }

  lemma EditsInFit(base: seq<Line>, es: seq<Edit>, g: Region)
    requires Fits(base, es, g)
    ensures WellFormed(EditsIn(es, g), g.end)
    ensures forall m :: 0 <= m < |EditsIn(es, g)| ==> g.start <= EditsIn(es, g)[m].start
  {
  }

  /** What the side's own text holds in place of the region: all its edits applied. */
  ghost function SideText(base: seq<Line>, es: seq<Edit>, g: Region): seq<Line>
    requires Fits(base, es, g)
  {
    EditsInFit(base, es, g);
    Patch(base[..g.end], EditsIn(es, g), g.start)
  }

  lemma {:induction false} WellFormedSlice(es: seq<Edit>, i: nat, j: nat, n: nat, x: nat)
    requires WellFormed(es, n) && i <= j <= |es| && forall m :: i <= m < j ==> es[m].end <= x
    ensures WellFormed(es[i..j], x)
  {
    var part := es[i..j];
    assert forall m :: 0 <= m < |part| ==> part[m] == es[i + m];
  }

  lemma {:induction false} WellFormedHead(es: seq<Edit>, n: nat)
    requires WellFormed(es, n) && es != []
    ensures es[0].start <= es[0].end <= n && WellFormed(es[1..], n) && (|es| > 1 ==> es[0].end <= es[1].start)
  {
  }

  /** `a` edits the base before line `x` and `b` from there on. */
  ghost predicate CutAt(base: seq<Line>, a: seq<Edit>, b: seq<Edit>, pos: nat, x: nat) {
    && pos <= x <= |base| && WellFormed(a, x) && WellFormed(b, |base|) && WellFormed(a + b, |base|)
    && (a != [] ==> pos <= a[0].start) && (b != [] ==> x <= b[0].start)
  }

  lemma {:induction false} CutTail(base: seq<Line>, a: seq<Edit>, b: seq<Edit>, pos: nat, x: nat)
    requires CutAt(base, a, b, pos, x) && a != []
    ensures a[0].start <= a[0].end <= x && CutAt(base, a[1..], b, a[0].end, x)
  {
    hide WellFormed;
    WellFormedHead(a, x);
    WellFormedHead(a + b, |base|);
    assert (a + b)[1..] == a[1..] + b;
  }

  lemma {:induction false} PatchFirst(base: seq<Line>, es: seq<Edit>, pos: nat)
    requires WellFormed(es, |base|) && es != [] && pos <= es[0].start
    ensures es[0].end <= |base| && WellFormed(es[1..], |base|) && (|es| > 1 ==> es[0].end <= es[1].start)
    ensures Patch(base, es, pos) == base[pos..es[0].start] + es[0].lines + Patch(base, es[1..], es[0].end)
  {
    WellFormedHead(es, |base|);
  }

  lemma {:induction false} PatchNothing(base: seq<Line>, pos: nat, x: nat)
    requires pos <= x <= |base|
    ensures WellFormed([], x) && Patch(base[..x], [], pos) == base[pos..x]
  {
    assert base[..x][pos..] == base[pos..x];
  }

  /** Applying edits in two parts, the first up to line `x` and the second from there on. */
  lemma {:induction false} PatchConcat(base: seq<Line>, a: seq<Edit>, b: seq<Edit>, pos: nat, x: nat)
    requires CutAt(base, a, b, pos, x)
    ensures Patch(base, a + b, pos) == Patch(base[..x], a, pos) + Patch(base, b, x)
  {
    hide WellFormed, Patch;
    if a == [] {
      assert a + b == b;
      PatchEarlier(base, b, pos, x);
      PatchNothing(base, pos, x);
    } else {
      var e, rest := a[0], a[1..];
      CutTail(base, a, b, pos, x);
      PatchConcat(base, rest, b, e.end, x);
      assert (a + b)[0] == e && (a + b)[1..] == rest + b;
      PatchFirst(base, a + b, pos);
      PatchFirst(base[..x], a, pos);
      assert base[..x][pos..e.start] == base[pos..e.start];
      Regroup(base[pos..e.start] + e.lines, Patch(base[..x], rest, e.end), Patch(base, b, x));
    }
  }

  lemma {:induction false} CutBetween(base: seq<Line>, es: seq<Edit>, k: nat, pos: nat, x: nat)
    requires WellFormed(es, |base|) && k <= |es| && pos <= x <= |base| && (es != [] ==> pos <= es[0].start)
    requires forall m :: 0 <= m < k ==> es[m].end <= x
    requires forall m :: k <= m < |es| ==> x <= es[m].start
    ensures es[..k] + es[k..] == es && CutAt(base, es[..k], es[k..], pos, x)
  {
    WellFormedSlice(es, 0, k, |base|, x);
    WellFormedSlice(es, k, |es|, |base|, |base|);
    hide WellFormed;
    assert es[0..k] == es[..k] && es[k..|es|] == es[k..] && es[..k] + es[k..] == es;
  }

  lemma {:induction false} SuffixFits(base: seq<Line>, es: seq<Edit>, g: Region, i: nat)
    requires Fits(base, es, g) && i <= |es|
    ensures Fits(base, es[i..], g)
  {
    var later := es[i..];
    assert forall m :: 0 <= m < |later| ==> later[m] == es[i + m];
  }

  /** No edit that starts before `g` reaches into it. */
  ghost predicate EndsBefore(es: seq<Edit>, g: Region) {
    forall m :: 0 <= m < |es| && es[m].start < g.start ==> es[m].end <= g.start
  }

  /** The edits of a side before a region, in it and after it. */
  lemma {:induction false} ThreeParts(base: seq<Line>, es: seq<Edit>, g: Region)
    returns (before: seq<Edit>, inside: seq<Edit>, after: seq<Edit>)
    requires Fits(base, es, g) && EndsBefore(es, g)
    ensures es == before + (inside + after) && inside == EditsIn(es, g)
    ensures CutAt(base, before, inside + after, 0, g.start) && CutAt(base, inside, after, g.start, g.end)
  {
    hide WellFormed, EditsIn, CutAt, EndsWithin;
    var i, j := Bounds(base, es, g);
    before, inside, after := es[..i], es[i..j], es[j..];
    CutBetween(base, es, i, 0, g.start);
    SuffixFits(base, es, g, i);
    var later := es[i..];
    assert later[..j - i] == inside && later[j - i..] == after;
    InnerCut(base, later, g, j - i);
    assert later == inside + after;
  }

  /** `text` is what the edits make of the base from line `pos` on. */
  ghost predicate IsPatch(text: seq<Line>, base: seq<Line>, es: seq<Edit>, pos: nat) {
    && WellFormed(es, |base|) && pos <= |base| && (es != [] ==> pos <= es[0].start)
    && text == Patch(base, es, pos)
  }

  /** The side's whole text is what its edits make of the base before the region, then its text
      of the region, then what they make of the base after it. */
  lemma {:induction false} SideTextInWhole(base: seq<Line>, es: seq<Edit>, g: Region)
    returns (before: seq<Edit>, after: seq<Edit>, first: seq<Line>, last: seq<Line>)
    requires Fits(base, es, g) && EndsBefore(es, g)
    ensures es == before + (EditsIn(es, g) + after)
    ensures IsPatch(first, base[..g.start], before, 0) && IsPatch(last, base, after, g.end)
    ensures IsPatch(first + SideText(base, es, g) + last, base, es, 0)
  {
    hide WellFormed, EditsIn, SideText, EndsWithin, EndsBefore, CutAt, IsPatch;
    var inside;
    before, inside, after := ThreeParts(base, es, g);
    first, last := PatchThree(base, before, inside, after, g.start, g.end);
    SideTextIs(base, es, g, inside);
  }

  lemma {:induction false} PatchThree(base: seq<Line>, before: seq<Edit>, inside: seq<Edit>, after: seq<Edit>, x: nat, y: nat)
    returns (first: seq<Line>, last: seq<Line>)
    requires CutAt(base, before, inside + after, 0, x) && CutAt(base, inside, after, x, y)
    ensures IsPatch(first, base[..x], before, 0) && IsPatch(last, base, after, y)
    ensures forall middle :: IsPatch(middle, base[..y], inside, x) ==>
              IsPatch(first + middle + last, base, before + (inside + after), 0)
  {
    hide Patch, WellFormed;
    first, last := Patch(base[..x], before, 0), Patch(base, after, y);
    PatchConcat(base, before, inside + after, 0, x);
    PatchConcat(base, inside, after, x, y);
    Regroup(first, Patch(base[..y], inside, x), last);
  }

  /** The regions of a merge are of this kind for both sides. */
  lemma {:induction false} RegionsFitSides(inp: Input, k: nat)
    requires k < |inp.regions|
    ensures Fits(inp.base, inp.local, inp.regions[k]) && EndsBefore(inp.local, inp.regions[k])
    ensures Fits(inp.base, inp.remote, inp.regions[k]) && EndsBefore(inp.remote, inp.regions[k])
  {
    hide IsRegions, EndsWithin;
    RegionFits(inp, k);
    NothingStraddles(inp.local, inp.remote, inp.regions, |inp.base|, k);
    var x := inp.regions[k].start;
    assert forall i :: 0 <= i < |inp.local| ==> !Straddles(inp.local[i], x);
    assert forall j :: 0 <= j < |inp.remote| ==> !Straddles(inp.remote[j], x);
  }

  lemma {:induction false} SideTextIs(base: seq<Line>, es: seq<Edit>, g: Region, inside: seq<Edit>)
    requires Fits(base, es, g) && inside == EditsIn(es, g)
    ensures IsPatch(SideText(base, es, g), base[..g.end], inside, g.start)
  {
    hide EditsIn, Patch, WellFormed;
    EditsInFit(base, es, g);
  }

  lemma {:induction false} InnerCut(base: seq<Line>, later: seq<Edit>, g: Region, n: nat)
    requires Fits(base, later, g) && n <= |later|
    requires forall m :: 0 <= m < |later| ==> g.start <= later[m].start
    requires forall m :: 0 <= m < n ==> later[m].start < g.end
    requires forall m :: n <= m < |later| ==> g.end <= later[m].start
    ensures CutAt(base, later[..n], later[n..], g.start, g.end)
  {
    hide WellFormed;
    CutBetween(base, later, n, g.start, g.end);
  }

  lemma {:induction false} Bounds(base: seq<Line>, es: seq<Edit>, g: Region) returns (i: nat, j: nat)
    requires Fits(base, es, g)
    ensures i <= j <= |es| && EditsIn(es, g) == es[i..j]
    ensures forall m :: 0 <= m < i ==> es[m].start < g.start
    ensures forall m :: i <= m < |es| ==> g.start <= es[m].start
    ensures forall m :: i <= m < j ==> es[m].start < g.end
    ensures forall m :: j <= m < |es| ==> g.end <= es[m].start
  {
    hide FirstIn, StopIn;
    i := FirstIn(es, g, 0);
    j := StopIn(es, g, i);
    if i == |es| {
      j := StopIn(es, g, 0);
      i := j;
      assert forall m :: j <= m < |es| ==> es[j].start <= es[m].start;
    } else {
      assert forall m :: i <= m < |es| ==> es[i].start <= es[m].start;
      assert forall m :: 0 <= m < i ==> es[m].start <= es[i].start;
    }
  }

  ghost predicate SameShape(a: seq<Edit>, b: seq<Edit>) {
    |a| == |b| && forall i :: 0 <= i < |a| ==> a[i].start == b[i].start && a[i].end == b[i].end
  }

  lemma {:induction false} SameShapeFits(base: seq<Line>, a: seq<Edit>, b: seq<Edit>, g: Region)
    requires Fits(base, a, g) && SameShape(a, b)
    ensures Fits(base, b, g)
    ensures FirstIn(b, g, 0) == FirstIn(a, g, 0)
    ensures StopIn(b, g, FirstIn(b, g, 0)) == StopIn(a, g, FirstIn(a, g, 0))
  {
  }

  lemma {:induction false} OneEditFaithful(base: seq<Line>, es: seq<Edit>, g: Region)
    requires Fits(base, es, g) && |EditsIn(es, g)| <= 1
    ensures Side(base, es, g) == SideText(base, es, g)
  {
    var i := FirstIn(es, g, 0);
    var within := EditsIn(es, g);
    EditsInFit(base, es, g);
    if i == |es| {
      assert within == [];
      assert base[..g.end][g.start..] == base[g.start..g.end];
    } else {
      assert within[0] == es[i] && within[1..] == [];
      assert base[..g.end][es[i].end..] == base[es[i].end..g.end];
      assert Patch(base[..g.end], within[1..], es[i].end) == base[es[i].end..g.end];
      assert base[..g.end][g.start..es[i].start] == base[g.start..es[i].start];
    }
  }

  /** By how much applying the edits lengthens the text. */
  ghost function Growth(es: seq<Edit>): int {
    if es == [] then 0
    else Growth(es[..|es| - 1]) + |es[|es| - 1].lines| - (es[|es| - 1].end - es[|es| - 1].start)
  }

  lemma {:induction false} GrowthCons(es: seq<Edit>)
    requires es != []
    ensures Growth(es) == |es[0].lines| - (es[0].end - es[0].start) + Growth(es[1..])
  {
    if |es| > 1 {
      var front := es[..|es| - 1];
      GrowthCons(front);
      assert front[1..] == es[1..][..|es| - 2];
    }
  }

  lemma {:induction false} PatchLength(base: seq<Line>, es: seq<Edit>, pos: nat)
    requires WellFormed(es, |base|)
    requires pos <= |base| && (es != [] ==> pos <= es[0].start)
    ensures |Patch(base, es, pos)| == |base| - pos + Growth(es)
  {
    if es != [] {
      PatchLength(base, es[1..], es[0].end);
      GrowthCons(es);
    }
  }

  lemma {:induction false} SideTextLength(base: seq<Line>, es: seq<Edit>, g: Region)
    requires Fits(base, es, g)
    ensures |SideText(base, es, g)| == g.end - g.start + Growth(EditsIn(es, g))
  {
    hide EditsIn, Growth;
    EditsInFit(base, es, g);
    PatchLength(base[..g.end], EditsIn(es, g), g.start);
  }

  lemma {:induction false} LastGrows(a: seq<Edit>, b: seq<Edit>)
    requires |a| == |b| > 0 && SameShape(a, b)
    requires forall m :: 0 <= m < |a| - 1 ==> a[m] == b[m]
    requires |b[|b| - 1].lines| == |a[|a| - 1].lines| + 1
    ensures Growth(b) == Growth(a) + 1
  {
    assert a[..|a| - 1] == b[..|b| - 1];
  }

  lemma {:induction false} OnlyFirstEditShows(base: seq<Line>, a: seq<Edit>, b: seq<Edit>, g: Region)
    requires Fits(base, a, g) && Fits(base, b, g) && SameShape(a, b)
    requires FirstIn(a, g, 0) == FirstIn(b, g, 0) < |a|
    requires a[FirstIn(a, g, 0)] == b[FirstIn(a, g, 0)]
    ensures Side(base, a, g) == Side(base, b, g)
  {
  }

  /** Adding a line to the last edit inside a region with several edits goes unnoticed. */
  lemma {:induction false} LaterEditIgnored(base: seq<Line>, es: seq<Edit>, g: Region) returns (longer: seq<Edit>)
    requires Fits(base, es, g) && |EditsIn(es, g)| > 1
    ensures SameShape(es, longer) && Fits(base, longer, g)
    ensures Side(base, longer, g) == Side(base, es, g)
    ensures |SideText(base, longer, g)| == |SideText(base, es, g)| + 1
  {
    hide SideText, Side, Growth, FirstIn, StopIn;
    var i := FirstIn(es, g, 0);
    var j := StopIn(es, g, i);
    var e := es[j - 1];
    longer := es[j - 1 := Edit(e.start, e.end, e.lines + [""])];
    SameShapeFits(base, es, longer, g);
    OnlyFirstEditShows(base, es, longer, g);
    SideTextLength(base, es, g);
    SideTextLength(base, longer, g);
    LastGrows(EditsIn(es, g), EditsIn(longer, g));
  }

  /** A conflict side shows the side's own text exactly when the side's later edits in the region
      leave the base lines after its first edit there as they are. */
  lemma {:induction false} SideShownIff(base: seq<Line>, es: seq<Edit>, g: Region)
    requires Fits(base, es, g) && EditsIn(es, g) != []
    ensures var first, later := EditsIn(es, g)[0], EditsIn(es, g)[1..];
            && first.end <= g.end && WellFormed(later, g.end) && (later != [] ==> first.end <= later[0].start)
            && (Side(base, es, g) == SideText(base, es, g) <==>
                Patch(base[..g.end], later, first.end) == base[first.end..g.end])
  {
    var within := EditsIn(es, g);
    EditsInFit(base, es, g);
    WellFormedHead(within, g.end);
    var first, later := within[0], within[1..];
    assert first == es[FirstIn(es, g, 0)];
    hide EditsIn, FirstIn, WellFormed;
    PatchFirst(base[..g.end], within, g.start);
    var front := base[g.start..first.start] + first.lines;
    assert base[..g.end][g.start..first.start] == base[g.start..first.start];
    SameFront(front, base[first.end..g.end], Patch(base[..g.end], later, first.end));
  }

  lemma {:induction false} SameFront(front: seq<Line>, a: seq<Line>, b: seq<Line>)
    ensures front + a == front + b <==> a == b
  {
    assert (front + a)[|front|..] == a && (front + b)[|front|..] == b;
  }

  /** A conflict side shows the side's own text for every choice of replacement lines exactly
      when at most one of the side's edits starts inside the region. */
  lemma {:induction false} SideFaithfulIff(base: seq<Line>, es: seq<Edit>, g: Region)
    requires Fits(base, es, g)
    ensures (forall other :: SameShape(es, other) && Fits(base, other, g) ==>
               Side(base, other, g) == SideText(base, other, g))
            <==> |EditsIn(es, g)| <= 1
  {
    if |EditsIn(es, g)| <= 1 {
      forall other | SameShape(es, other) && Fits(base, other, g)
        ensures Side(base, other, g) == SideText(base, other, g)
      {
        SameShapeFits(base, es, other, g);
        OneEditFaithful(base, other, g);
      }
    } else {
      var longer := LaterEditIgnored(base, es, g);
      assert SameShape(es, es);
    }
  }
}
