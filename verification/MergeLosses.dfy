/** What a merge loses: every line of both sides and of the base is accounted for. */
module MergeLosses {
  import opened Edits
  import opened ConflictRegions
  import opened MergeSweep
  import opened MergeOutput
  import opened Merge

  /** What becomes of an edit that does not start inside a conflict region. */
  datatype Fate = Outside | LostLocal | LostRemote

  /** Outside edits are lost if they are insertions right at a region's end and, on the remote
      side, also if a local replacement starts at the same line. */
  ghost predicate Meets(inp: Input, fate: Fate, e: Edit) {
    && !InRegion(inp.regions, e.start)
    && match fate
       case Outside => true
       case LostLocal => e.start == e.end && RegionEndsAt(inp, e.start)
       case LostRemote => (e.start == e.end && RegionEndsAt(inp, e.start)) || ReplacesAt(inp.local, e.start)
  }

  ghost function Meeting(inp: Input, fate: Fate, es: seq<Edit>): (r: seq<Edit>)
    ensures forall e :: e in r <==> e in es && Meets(inp, fate, e)
  {
    if es == [] then []
    else
      assert forall e :: e in es <==> e == es[0] || e in es[1..];
      (if Meets(inp, fate, es[0]) then [es[0]] else []) + Meeting(inp, fate, es[1..])
  }

  /** The lines of the conflict blocks from region `k` on. */
  ghost function Blocks(inp: Input, k: nat): multiset<Line>
    decreases |inp.regions| - k
  {
    if k >= |inp.regions| then multiset{} else multiset(Block(inp, k)) + Blocks(inp, k + 1)
  }

  // ---- One base position ----

  lemma {:induction false} MeetingAt(inp: Input, fate: Fate, es: seq<Edit>, p: nat)
    requires es != []
    ensures StartingAt(Meeting(inp, fate, es), p, false) ==
            (if Meets(inp, fate, es[0]) && es[0].start == p then es[0].lines else [])
            + StartingAt(Meeting(inp, fate, es[1..]), p, false)
  {
    hide Meets;
    var rest := Meeting(inp, fate, es[1..]);
    if Meets(inp, fate, es[0]) {
      assert Meeting(inp, fate, es) == [es[0]] + rest;
      assert ([es[0]] + rest)[1..] == rest;
    } else {
      assert Meeting(inp, fate, es) == rest;
    }
  }

  /** What the sweep takes at `p` from the edits of one side. */
  ghost function TakenAt(inp: Input, fate: Fate, es: seq<Edit>, p: nat): seq<Line> {
    if InRegion(inp.regions, p) || (fate == LostRemote && ReplacesAt(inp.local, p)) then []
    else StartingAt(es, p, RegionEndsAt(inp, p))
  }

  lemma {:induction false} LostAt(inp: Input, fate: Fate, es: seq<Edit>, p: nat)
    requires fate != Outside
    ensures multiset(TakenAt(inp, fate, es, p)) + multiset(StartingAt(Meeting(inp, fate, es), p, false)) ==
            multiset(StartingAt(Meeting(inp, Outside, es), p, false))
  {
    hide InRegion, RegionEndsAt, ReplacesAt;
    if es != [] {
      hide Meeting;
      LostAt(inp, fate, es[1..], p);
      MeetingAt(inp, fate, es, p);
      MeetingAt(inp, Outside, es, p);
      TakenFirst(inp, fate, es, p);
    }
  }

  lemma {:induction false} TakenFirst(inp: Input, fate: Fate, es: seq<Edit>, p: nat)
    requires es != [] && fate != Outside
    ensures TakenAt(inp, fate, es, p) ==
            (if Meets(inp, Outside, es[0]) && !Meets(inp, fate, es[0]) && es[0].start == p then es[0].lines else [])
            + TakenAt(inp, fate, es[1..], p)
  {
    hide InRegion, RegionEndsAt, ReplacesAt;
  }

  ghost function BlockAt(inp: Input, p: nat): multiset<Line> {
    if RegionStartsAt(inp, p) then multiset(Block(inp, RegionStarting(inp, p))) else multiset{}
  }

  lemma {:induction false} InsideRegion(inp: Input, p: nat)
    ensures InRegion(inp.regions, p) <==> RegionStartsAt(inp, p) || RegionInterior(inp, p)
    ensures InRegion(inp.regions, p) ==> BaseAt(inp, p) == []
  {
    if RegionStartsAt(inp, p) {
      var k :| 0 <= k < |inp.regions| && inp.regions[k].start == p;
      assert Holds(inp.regions[k], p);
    }
    if RegionInterior(inp, p) {
      var k :| 0 <= k < |inp.regions| && inp.regions[k].start < p < inp.regions[k].end;
      assert Holds(inp.regions[k], p);
    }
    if InRegion(inp.regions, p) {
      var i, j :| 0 <= i < |inp.local| && 0 <= j < |inp.remote|
               && Overlaps(inp.local[i], inp.remote[j]) && Holds(Hull(inp.local[i], inp.remote[j]), p);
      assert Covers(inp.local, p) || Covers(inp.remote, p);
    }
  }

  lemma {:induction false} SlotLines(inp: Input, p: nat)
    ensures multiset(Slot(inp, p)) ==
            BlockAt(inp, p) + multiset(TakenAt(inp, LostLocal, inp.local, p))
            + multiset(TakenAt(inp, LostRemote, inp.remote, p)) + multiset(BaseAt(inp, p))
  {
    hide InRegion, StartingAt, Block, RegionEndsAt, ReplacesAt, RegionInterior, BaseAt;
    InsideRegion(inp, p);
  }

  // ---- All positions ----

  /** Region `k` is the first that starts at `p` or later. */
  ghost predicate NextRegion(inp: Input, p: nat, k: nat) {
    && k <= |inp.regions|
    && (forall m :: 0 <= m < k ==> inp.regions[m].start < p)
    && (forall m :: k <= m < |inp.regions| ==> p <= inp.regions[m].start)
  }

  lemma {:induction false} BlocksStep(inp: Input, p: nat, k: nat) returns (next: nat)
    requires NextRegion(inp, p, k)
    ensures NextRegion(inp, p + 1, next) && Blocks(inp, k) == BlockAt(inp, p) + Blocks(inp, next)
  {
    hide Block;
    if k < |inp.regions| && inp.regions[k].start == p {
      next := k + 1;
      assert RegionStarting(inp, p) == k;
    } else {
      next := k;
    }
  }

  lemma {:induction false} NothingBeyond(inp: Input, fate: Fate, es: seq<Edit>, p: nat)
    requires WellFormed(es, |inp.base|) && p > |inp.base|
    ensures AllLines(Meeting(inp, fate, es), p) == multiset{}
  {
    hide Meets;
    var r := Meeting(inp, fate, es);
    forall i | 0 <= i < |r|
      ensures r[i].start < p
    {
      assert r[i] in es;
    }
    AllLinesBeyond(r, p);
  }

  lemma {:induction false} NoRegionBeyond(inp: Input, p: nat, k: nat)
    requires NextRegion(inp, p, k) && p > |inp.base|
    ensures k == |inp.regions|
  {
    if k < |inp.regions| {
      RegionFits(inp, k);
    }
  }

  /** The lines lost by one side from position `p` on. */
  ghost function LostLines(inp: Input, p: nat): multiset<Line> {
    AllLines(Meeting(inp, LostLocal, inp.local), p) + AllLines(Meeting(inp, LostRemote, inp.remote), p)
  }

  /** The lines a merge ought to have from position `p` and region `k` on. */
  ghost function DueLines(inp: Input, p: nat, k: nat): multiset<Line> {
    Blocks(inp, k) + AllLines(Meeting(inp, Outside, inp.local), p)
    + AllLines(Meeting(inp, Outside, inp.remote), p) + Untouched(inp, p)
  }

  lemma {:induction false} StepAccounts(inp: Input, p: nat, k: nat, next: nat)
    requires p <= |inp.base| && Blocks(inp, k) == BlockAt(inp, p) + Blocks(inp, next)
    ensures multiset(Slot(inp, p)) + LostLines(inp, p) + DueLines(inp, p + 1, next) == DueLines(inp, p, k) + LostLines(inp, p + 1)
  {
    hide Slot, Blocks, BlockAt, TakenAt, StartingAt, AllLines, Meeting, BaseAt;
    SlotLines(inp, p);
    LostAt(inp, LostLocal, inp.local, p);
    LostAt(inp, LostRemote, inp.remote, p);
    AllLinesStep(Meeting(inp, LostLocal, inp.local), p);
    AllLinesStep(Meeting(inp, LostRemote, inp.remote), p);
    AllLinesStep(Meeting(inp, Outside, inp.local), p);
    AllLinesStep(Meeting(inp, Outside, inp.remote), p);
  }

  lemma {:induction false} LinesFrom(inp: Input, p: nat, k: nat)
    requires p <= |inp.base| + 1 && NextRegion(inp, p, k)
    ensures multiset(Flatten(Slots(inp), p)) + LostLines(inp, p) == DueLines(inp, p, k)
    decreases |inp.base| + 1 - p
  {
    hide Slot, Meeting, AllLines, NextRegion, BaseAt;
    if p > |inp.base| {
      NoRegionBeyond(inp, p, k);
      NothingBeyond(inp, LostLocal, inp.local, p);
      NothingBeyond(inp, LostRemote, inp.remote, p);
      NothingBeyond(inp, Outside, inp.local, p);
      NothingBeyond(inp, Outside, inp.remote, p);
    } else {
      hide Untouched, Blocks;
      var next := BlocksStep(inp, p, k);
      LinesFrom(inp, p + 1, next);
      StepAccounts(inp, p, k, next);
      hide LostLines, DueLines;
      var ss := Slots(inp);
      assert multiset(Flatten(ss, p)) == multiset(ss[p]) + multiset(Flatten(ss, p + 1));
      Cancel(multiset(ss[p]), multiset(Flatten(ss, p + 1)), LostLines(inp, p), LostLines(inp, p + 1),
             DueLines(inp, p, k), DueLines(inp, p + 1, next));
    }
  }

  lemma {:induction false} Cancel(slot: multiset<Line>, flat: multiset<Line>, lost: multiset<Line>, lostNext: multiset<Line>,
                                  due: multiset<Line>, dueNext: multiset<Line>)
    requires slot + lost + dueNext == due + lostNext && flat + lostNext == dueNext
    ensures slot + flat + lost == due
  {
    forall x: Line
      ensures (slot + flat + lost)[x] == due[x]
    {
      assert (slot + lost + dueNext)[x] == (due + lostNext)[x];
      assert (flat + lostNext)[x] == dueNext[x];
    }
  }

  /** Every merge: the merged lines and the lost lines together are the conflict blocks, the lines
      of all edits outside the regions and the base lines that no edit covers. */
  lemma {:induction false} LinesAccounted(inp: Input)
    ensures multiset(Merged(inp)) + LostLines(inp, 0) == DueLines(inp, 0, 0)
  {
    hide Slot, LostLines, DueLines;
    LinesFrom(inp, 0, 0);
  }

  // ---- When nothing is lost ----

  lemma {:induction false} NoLinesIff(es: seq<Edit>)
    ensures AllLines(es, 0) == multiset{} <==> forall e :: e in es ==> e.lines == []
  {
    if es != [] {
      NoLinesIff(es[1..]);
      assert forall e :: e in es <==> e == es[0] || e in es[1..];
      if es[0].lines != [] {
        assert es[0].lines[0] in AllLines(es, 0);
      }
    }
  }

  /** All edits outside the conflict regions are applied exactly when none that brings lines is an
      insertion at a region's end, or a remote edit where a local replacement starts. */
  lemma {:induction false} OutsideEditsAppliedIff(inp: Input)
    ensures multiset(Merged(inp)) == DueLines(inp, 0, 0) <==>
            && (forall e :: e in inp.local && Meets(inp, LostLocal, e) ==> e.lines == [])
            && (forall e :: e in inp.remote && Meets(inp, LostRemote, e) ==> e.lines == [])
  {
    hide Merged, DueLines, Meets, AllLines;
    LinesAccounted(inp);
    NoLinesIff(Meeting(inp, LostLocal, inp.local));
    NoLinesIff(Meeting(inp, LostRemote, inp.remote));
    var lost := LostLines(inp, 0);
    assert multiset(Merged(inp)) + lost == multiset(Merged(inp)) <==> lost == multiset{};
  }
}
