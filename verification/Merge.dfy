/** The three-way merge as a whole, and what follows for merges of real diffs. */
module Merge {
  import opened Edits
  import opened ConflictRegions
  import opened MergeSweep
  import opened MergeOutput

  datatype MergeResult = MergeResult(content: seq<Line>, hasConflicts: bool, conflictCount: nat)

  ghost predicate AnyOverlap(local: seq<Edit>, remote: seq<Edit>) {
    exists i, j :: 0 <= i < |local| && 0 <= j < |remote| && Overlaps(local[i], remote[j])
  }

  ghost predicate MergeHangs(base: seq<Line>, local: seq<Edit>, remote: seq<Edit>) {
    exists regions ::
      ValidTask(MergeTask(base, local, remote, regions)) && Hangs(MergeTask(base, local, remote, regions))
  }

  /** `r` is the merge of the two edit lists: the slot-by-slot text, with one block per region. */
  ghost predicate IsMergeOf(r: MergeResult, base: seq<Line>, local: seq<Edit>, remote: seq<Edit>) {
    exists regions ::
      && ValidTask(MergeTask(base, local, remote, regions))
      && r.content == Merged(MergeTask(base, local, remote, regions))
      && r.conflictCount == |regions|
  }

  /** Merges two changed texts with a common base, given the two line diffs. */
  method ThreeWayMerge(base: seq<Line>, local: seq<Line>, remote: seq<Line>,
                       localOps: seq<DiffOp>, remoteOps: seq<DiffOp>) returns (r: MergeResult)
    requires Tiles(localOps, base, local, 0, 0) && NewRangesIn(localOps, local)
    requires Tiles(remoteOps, base, remote, 0, 0) && NewRangesIn(remoteOps, remote)
    requires local != remote && local != base && remote != base ==>
               !MergeHangs(base, EditsOf(localOps, local), EditsOf(remoteOps, remote))
    ensures local == remote ==> r == MergeResult(local, false, 0)
    ensures local != remote && local == base ==> r == MergeResult(remote, false, 0)
    ensures local != remote && remote == base ==> r == MergeResult(local, false, 0)
    ensures local != remote && local != base && remote != base ==>
              && IsMergeOf(r, base, EditsOf(localOps, local), EditsOf(remoteOps, remote))
              && (r.hasConflicts <==> AnyOverlap(EditsOf(localOps, local), EditsOf(remoteOps, remote)))
  {
    if local == remote {
      return MergeResult(local, false, 0);
    }
    if local == base {
      return MergeResult(remote, false, 0);
    }
    if remote == base {
      return MergeResult(local, false, 0);
    }
    PatchRebuildsSide(localOps, base, local, 0, 0);
    PatchRebuildsSide(remoteOps, base, remote, 0, 0);
    var localEdits := FromDiff(localOps, local);
    var remoteEdits := FromDiff(remoteOps, remote);
    var conflicts := FindConflictRegions(localEdits, remoteEdits);
    var task := MergeTask(base, localEdits, remoteEdits, conflicts);
    var merged, count := Sweep(task);
    RegionsIffOverlap(localEdits, remoteEdits, conflicts);
    r := MergeResult(merged, count > 0, count);
  }

  lemma RegionsIffOverlap(local: seq<Edit>, remote: seq<Edit>, regions: seq<Region>)
    requires IsRegions(local, remote, regions)
    ensures regions != [] <==> AnyOverlap(local, remote)
  {
    if regions != [] {
      var i, j := PairStartingAt(local, remote, regions, 0);
    }
    if AnyOverlap(local, remote) {
      var i, j :| 0 <= i < |local| && 0 <= j < |remote| && Overlaps(local[i], remote[j]);
      var k := PairInOneRegion(local, remote, regions, i, j);
    }
  }

  // ---- Merges without conflicts ----

  /** No pair overlaps, and no remote insertion sits at the start of a local replacement. */
  ghost predicate Clean(inp: Input) {
    && !AnyOverlap(inp.local, inp.remote)
    && (forall i, j | 0 <= i < |inp.local| && 0 <= j < |inp.remote| ::
          inp.local[i].start < inp.local[i].end && inp.remote[j].start == inp.remote[j].end ==>
            inp.local[i].start != inp.remote[j].start)
  }

  lemma CleanSlot(inp: Input, p: nat)
    requires Clean(inp)
    ensures Slot(inp, p) == StartingAt(inp.local, p, false) + StartingAt(inp.remote, p, false) + BaseAt(inp, p)
  {
    RegionsIffOverlap(inp.local, inp.remote, inp.regions);
    if ReplacesAt(inp.local, p) {
      var i :| 0 <= i < |inp.local| && inp.local[i].start == p < inp.local[i].end;
      forall j | 0 <= j < |inp.remote|
        ensures inp.remote[j].start != p
      {
        assert !Overlaps(inp.local[i], inp.remote[j]);
      }
      StartingAtNone(inp.remote, p, false);
    }
  }

  ghost function AllLines(es: seq<Edit>, from: nat): multiset<Line> {
    if es == [] then multiset{}
    else (if es[0].start >= from then multiset(es[0].lines) else multiset{}) + AllLines(es[1..], from)
  }

  /** The base lines from `p` on that neither side edits. */
  ghost function Untouched(inp: Input, p: nat): multiset<Line>
    decreases |inp.base| + 1 - p
  {
    if p > |inp.base| then multiset{} else multiset(BaseAt(inp, p)) + Untouched(inp, p + 1)
  }

  lemma {:induction false} AllLinesStep(es: seq<Edit>, p: nat)
    ensures AllLines(es, p) == multiset(StartingAt(es, p, false)) + AllLines(es, p + 1)
  {
    if es != [] {
      AllLinesStep(es[1..], p);
    }
  }

  lemma {:induction false} AllLinesBeyond(es: seq<Edit>, p: nat)
    requires forall i :: 0 <= i < |es| ==> es[i].start < p
    ensures AllLines(es, p) == multiset{}
  {
    if es != [] {
      AllLinesBeyond(es[1..], p);
    }
  }

  lemma {:induction false} CountParts(a: seq<Line>, b: seq<Line>, c: seq<Line>, rest: seq<Line>)
    ensures multiset((a + b + c) + rest) == multiset(a) + multiset(b) + multiset(c) + multiset(rest)
  {
  }

  lemma {:induction false} CleanLinesFrom(inp: Input, p: nat)
    requires Clean(inp) && p <= |inp.base| + 1
    ensures multiset(Flatten(Slots(inp), p)) ==
            AllLines(inp.local, p) + AllLines(inp.remote, p) + Untouched(inp, p)
    decreases |inp.base| + 1 - p
  {
    hide Slot, BaseAt, Clean, StartingAt, AllLines;
    if p > |inp.base| {
      AllLinesBeyond(inp.local, p);
      AllLinesBeyond(inp.remote, p);
    } else {
      CleanLinesFrom(inp, p + 1);
      CleanSlot(inp, p);
      AllLinesStep(inp.local, p);
      AllLinesStep(inp.remote, p);
      CountParts(StartingAt(inp.local, p, false), StartingAt(inp.remote, p, false), BaseAt(inp, p),
                 Flatten(Slots(inp), p + 1));
    }
  }

  /** A clean merge terminates, has no conflict block, and holds every replacement line of
      both sides and every untouched base line exactly once, each at its place. */
  lemma {:induction false} CleanMerge(inp: Input)
    requires Clean(inp)
    ensures Terminates(inp) && inp.regions == []
    ensures forall p :: 0 <= p <= |inp.base| ==>
              Slots(inp)[p] == StartingAt(inp.local, p, false) + StartingAt(inp.remote, p, false) + BaseAt(inp, p)
    ensures multiset(Merged(inp)) == AllLines(inp.local, 0) + AllLines(inp.remote, 0) + Untouched(inp, 0)
  {
    RegionsIffOverlap(inp.local, inp.remote, inp.regions);
    TerminatesIffNoHang(inp);
    forall p | 0 <= p <= |inp.base|
      ensures Slots(inp)[p] == StartingAt(inp.local, p, false) + StartingAt(inp.remote, p, false) + BaseAt(inp, p)
    {
      CleanSlot(inp, p);
    }
    CleanLinesFrom(inp, 0);
  }

  lemma {:induction false} BlockedWithoutRegions(inp: Input, i: nat)
    requires inp.regions == [] && i < |inp.local|
    ensures Blocked(inp, i)
    decreases |inp.local| - i
  {
    if i + 1 < |inp.local| {
      BlockedWithoutRegions(inp, i + 1);
    }
  }

  /** Edits that do not overlap are merged if and only if no remote insertion sits at the start
      of a local replacement; otherwise the sweep never ends. */
  lemma {:induction false} NonOverlappingMergeEndsIff(inp: Input)
    requires !AnyOverlap(inp.local, inp.remote)
    ensures Terminates(inp) <==> Clean(inp)
  {
    hide Terminates;
    if Clean(inp) {
      CleanMerge(inp);
    } else {
      RegionsIffOverlap(inp.local, inp.remote, inp.regions);
      var i, j :| 0 <= i < |inp.local| && 0 <= j < |inp.remote|
               && inp.local[i].start < inp.local[i].end
               && inp.remote[j].start == inp.remote[j].end == inp.local[i].start;
      assert Shadows(inp, i, j);
      BlockedWithoutRegions(inp, i);
      TerminatesIffNoHang(inp);
    }
  }

  // ---- Merges where one side has no edits ----

  lemma {:induction false} RunOutput(inp: Input, n: nat)
    ensures Run(inp, n).out + Tail(inp, Run(inp, n)) == Merged(inp)
  {
    hide Step, Tail, Inv;
    if n == 0 {
      FreshStart(inp);
    } else {
      RunOutput(inp, n - 1);
      StepOutput(inp, Run(inp, n - 1));
    }
  }

  lemma FreshStart(inp: Input)
    ensures START.out + Tail(inp, START) == Merged(inp)
  {
    hide Slot;
    FreshTail(inp, START);
  }

  lemma NoRegions(inp: Input)
    requires inp.local == [] || inp.remote == []
    ensures inp.regions == []
  {
    RegionsIffOverlap(inp.local, inp.remote, inp.regions);
  }

  ghost function OnlySide(inp: Input): seq<Edit> {
    if inp.local == [] then inp.remote else inp.local
  }

  ghost function OnlyIndex(inp: Input, c: Cursor): nat {
    if inp.local == [] then c.ri else c.li
  }

  /** What the only edited side still has to produce. */
  ghost function PatchRest(inp: Input, c: Cursor): seq<Line>
    requires (inp.local == [] || inp.remote == []) && Inv(inp, c)
  {
    Patch(inp.base, OnlySide(inp)[OnlyIndex(inp, c)..], c.pos)
  }

  lemma {:induction false} PatchApply(base: seq<Line>, es: seq<Edit>, i: nat)
    requires WellFormed(es, |base|) && i < |es|
    ensures Patch(base, es[i..], es[i].start) == es[i].lines + Patch(base, es[i + 1..], es[i].end)
  {
  }

  lemma OneSideStep(inp: Input, c: Cursor)
    requires (inp.local == [] || inp.remote == []) && Inv(inp, c) && !Done(inp, c)
    ensures Inv(inp, Step(inp, c))
    ensures c.out + PatchRest(inp, c) == Step(inp, c).out + PatchRest(inp, Step(inp, c))
  {
    hide Patch, NextEvent;
    NoRegions(inp);
    StepKeepsInv(inp, c);
    var d, es, i := Step(inp, c), OnlySide(inp), OnlyIndex(inp, c);
    if AtLocal(inp, c) || AtRemote(inp, c) {
      PatchApply(inp.base, es, i);
      Regroup(c.out, es[i].lines, PatchRest(inp, d));
    } else {
      NextEventInRange(inp, c);
      PatchEarlier(inp.base, es[i..], c.pos, d.pos);
      Regroup(c.out, inp.base[c.pos..d.pos], PatchRest(inp, d));
    }
  }

  lemma {:induction false} OneSideRun(inp: Input, n: nat)
    requires inp.local == [] || inp.remote == []
    ensures Run(inp, n).out + PatchRest(inp, Run(inp, n)) == Patch(inp.base, OnlySide(inp), 0)
  {
    hide Step, Inv, Patch;
    if n == 0 {
      assert OnlySide(inp)[0..] == OnlySide(inp);
    } else {
      OneSideRun(inp, n - 1);
      if !Done(inp, Run(inp, n - 1)) {
        OneSideStep(inp, Run(inp, n - 1));
      }
    }
  }

  lemma NothingLeft(inp: Input, c: Cursor)
    requires (inp.local == [] || inp.remote == []) && Inv(inp, c) && Done(inp, c)
    ensures PatchRest(inp, c) == []
  {
  }

  /** With edits on one side only, the sweep ends and rebuilds exactly that side's text. */
  lemma {:induction false} OneSideMerge(inp: Input)
    requires inp.local == [] || inp.remote == []
    ensures Terminates(inp)
    ensures Merged(inp) == Patch(inp.base, OnlySide(inp), 0)
  {
    hide Step, Inv, Tail, Patch, Run;
    assert !Hangs(inp);
    TerminatesIffNoHang(inp);
    var n: nat :| Done(inp, Run(inp, n));
    RunOutput(inp, n);
    DoneTail(inp, Run(inp, n));
    OneSideRun(inp, n);
    NothingLeft(inp, Run(inp, n));
  }

  /** The sweep with an empty local edit list yields the remote text, as the shortcut for an
      unchanged local side does. */
  lemma {:induction false} UnchangedLocalYieldsRemote(base: seq<Line>, remote: seq<Line>, ops: seq<DiffOp>, regions: seq<Region>)
    requires Tiles(ops, base, remote, 0, 0) && NewRangesIn(ops, remote)
    requires IsRegions([], EditsOf(ops, remote), regions)
    ensures ValidTask(MergeTask(base, [], EditsOf(ops, remote), regions))
    ensures Merged(MergeTask(base, [], EditsOf(ops, remote), regions)) == remote
  {
    PatchRebuildsSide(ops, base, remote, 0, 0);
    OneSideMerge(MergeTask(base, [], EditsOf(ops, remote), regions));
  }
}
