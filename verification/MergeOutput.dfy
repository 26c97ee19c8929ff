/** What the merge sweep writes, stated line by line of the base. */
module MergeOutput {
  import opened Edits
  import opened ConflictRegions
  import opened MergeSweep

  // ---- The meaning of a merge: one slot per base position ----

  /** Replacement lines of the edits that start at `p`, without the insertions when `skip`. */
  ghost function StartingAt(es: seq<Edit>, p: nat, skip: bool): seq<Line> {
    if es == [] then []
    else
      (if es[0].start == p && !(skip && es[0].end == p) then es[0].lines else [])
      + StartingAt(es[1..], p, skip)
  }

  ghost predicate ReplacesAt(es: seq<Edit>, p: nat) {
    exists i :: 0 <= i < |es| && es[i].start == p < es[i].end
  }

  ghost predicate Covers(es: seq<Edit>, p: nat) {
    exists i :: 0 <= i < |es| && es[i].start <= p < es[i].end
  }

  ghost predicate RegionEndsAt(inp: Input, p: nat) {
    exists k :: 0 <= k < |inp.regions| && inp.regions[k].end == p
  }

  ghost predicate RegionInterior(inp: Input, p: nat) {
    exists k :: 0 <= k < |inp.regions| && inp.regions[k].start < p < inp.regions[k].end
  }

  ghost function RegionStarting(inp: Input, p: nat): (k: nat)
    requires RegionStartsAt(inp, p)
    ensures k < |inp.regions| && inp.regions[k].start == p
  {
    var k :| 0 <= k < |inp.regions| && inp.regions[k].start == p; k
  }

  /** The base line at `p`, unless an edit covers it. */
  ghost function BaseAt(inp: Input, p: nat): seq<Line> {
    if p < |inp.base| && !Covers(inp.local, p) && !Covers(inp.remote, p) then [inp.base[p]] else []
  }

  /** The output that belongs to base position `p`: a conflict block where a region starts
      and nothing inside it; elsewhere the local lines, then the remote lines unless a local
      replacement starts here, then the base line. Insertions right at a region's end are lost. */
  ghost function Slot(inp: Input, p: nat): seq<Line>
  {
    if RegionStartsAt(inp, p) then Block(inp, RegionStarting(inp, p))
    else if RegionInterior(inp, p) then []
    else
      var skip := RegionEndsAt(inp, p);
      StartingAt(inp.local, p, skip)
      + (if ReplacesAt(inp.local, p) then [] else StartingAt(inp.remote, p, skip))
      + BaseAt(inp, p)
  }

  ghost function Slots(inp: Input): (ss: seq<seq<Line>>)
    ensures |ss| == |inp.base| + 1
    ensures forall p :: 0 <= p < |ss| ==> ss[p] == Slot(inp, p)
  {
    seq(|inp.base| + 1, p requires 0 <= p => Slot(inp, p))
  }

  ghost function Flatten(ss: seq<seq<Line>>, p: nat): seq<Line>
    decreases |ss| - p
  {
    if p >= |ss| then [] else ss[p] + Flatten(ss, p + 1)
  }

  /** The whole merged text. */
  ghost function Merged(inp: Input): seq<Line>
  {
    Flatten(Slots(inp), 0)
  }

  // ---- What a cursor has still to write ----

  ghost function Pending(inp: Input, c: Cursor): seq<Line>
    requires c.li <= |inp.local| && c.ri <= |inp.remote|
  {
    var skip := RegionEndsAt(inp, c.pos);
    StartingAt(inp.local[c.li..], c.pos, skip)
    + (if ReplacesAt(inp.local, c.pos) then [] else StartingAt(inp.remote[c.ri..], c.pos, skip))
    + BaseAt(inp, c.pos)
  }

  ghost function Tail(inp: Input, c: Cursor): seq<Line>
    requires Inv(inp, c)
  {
    if AtRegion(inp, c) then Flatten(Slots(inp), c.pos)
    else Pending(inp, c) + Flatten(Slots(inp), c.pos + 1)
  }

  /** Edits that do not start at `p` (or are skipped there) add nothing. */
  lemma {:induction false} StartingAtSuffix(es: seq<Edit>, k: nat, p: nat, skip: bool)
    requires k <= |es|
    requires forall i :: 0 <= i < k ==> es[i].start != p || (skip && es[i].end == p)
    ensures StartingAt(es, p, skip) == StartingAt(es[k..], p, skip)
  {
    if k == 0 {
      assert es[0..] == es;
    } else {
      StartingAtSuffix(es[1..], k - 1, p, skip);
      assert es[1..][k - 1..] == es[k..];
    }
  }

  lemma StartingAtNone(es: seq<Edit>, p: nat, skip: bool)
    requires forall i :: 0 <= i < |es| ==> es[i].start != p || (skip && es[i].end == p)
    ensures StartingAt(es, p, skip) == []
  {
  }

  lemma {:induction false} StartingAtHead(es: seq<Edit>, p: nat)
    requires es != [] && es[0].start == p
    ensures StartingAt(es, p, false) == es[0].lines + StartingAt(es[1..], p, false)
  {
  }

  lemma {:induction false} EmptySlots(ss: seq<seq<Line>>, a: nat, b: nat)
    requires a <= b <= |ss|
    requires forall q :: a <= q < b ==> ss[q] == []
    ensures Flatten(ss, a) == Flatten(ss, b)
    decreases |ss| - a
  {
    if a < b {
      EmptySlots(ss, a + 1, b);
    }
  }

  lemma {:induction false} CopiedSlots(ss: seq<seq<Line>>, base: seq<Line>, a: nat, b: nat)
    requires a <= b <= |base| <= |ss|
    requires forall q :: a <= q < b ==> ss[q] == [base[q]]
    ensures Flatten(ss, a) == base[a..b] + Flatten(ss, b)
    decreases |ss| - a
  {
    if a < b {
      CopiedSlots(ss, base, a + 1, b);
      assert base[a..b] == [base[a]] + base[a + 1..b];
      assert [base[a]] + (base[a + 1..b] + Flatten(ss, b)) == base[a..b] + Flatten(ss, b);
    }
  }

  /** Edits before the cursor contribute nothing to the slot at the cursor. */
  ghost predicate Fresh(inp: Input, c: Cursor)
    requires c.li <= |inp.local| && c.ri <= |inp.remote|
  {
    && (forall j :: 0 <= j < c.li ==>
          inp.local[j].start < c.pos || (RegionEndsAt(inp, c.pos) && inp.local[j].end == c.pos))
    && (forall j :: 0 <= j < c.ri ==>
          inp.remote[j].start < c.pos || (RegionEndsAt(inp, c.pos) && inp.remote[j].end == c.pos))
  }

  lemma OutsideRegions(inp: Input, c: Cursor)
    requires Inv(inp, c) && !AtRegion(inp, c)
    ensures !RegionStartsAt(inp, c.pos) && !RegionInterior(inp, c.pos)
  {
  }

  lemma FreshPending(inp: Input, c: Cursor)
    requires Inv(inp, c) && Fresh(inp, c) && !AtRegion(inp, c)
    ensures Pending(inp, c) == Slot(inp, c.pos)
  {
    OutsideRegions(inp, c);
    var skip := RegionEndsAt(inp, c.pos);
    StartingAtSuffix(inp.local, c.li, c.pos, skip);
    StartingAtSuffix(inp.remote, c.ri, c.pos, skip);
  }

  lemma FreshTail(inp: Input, c: Cursor)
    requires Inv(inp, c) && Fresh(inp, c)
    ensures Tail(inp, c) == Flatten(Slots(inp), c.pos)
  {
    hide Slot, Pending;
    if !AtRegion(inp, c) {
      FreshPending(inp, c);
    }
  }

  // ---- Each step writes what its slots say ----

  lemma InsideRegionEmpty(inp: Input, k: nat, q: nat)
    requires k < |inp.regions|
    requires inp.regions[k].start < q < inp.regions[k].end
    ensures Slot(inp, q) == []
  {
  }

  lemma RegionStartSlot(inp: Input, k: nat)
    requires k < |inp.regions|
    ensures Slot(inp, inp.regions[k].start) == Block(inp, k)
  {
    hide Block;
    assert RegionStartsAt(inp, inp.regions[k].start);
    assert RegionStarting(inp, inp.regions[k].start) == k;
  }

  lemma RegionSlots(inp: Input, k: nat)
    requires k < |inp.regions|
    ensures inp.regions[k].end <= |inp.base|
    ensures Flatten(Slots(inp), inp.regions[k].start) == Block(inp, k) + Flatten(Slots(inp), inp.regions[k].end)
  {
    hide Slot, Block;
    var g := inp.regions[k];
    RegionFits(inp, k);
    RegionStartSlot(inp, k);
    var ss := Slots(inp);
    forall q | g.start + 1 <= q < g.end
      ensures ss[q] == []
    {
      InsideRegionEmpty(inp, k, q);
    }
    EmptySlots(ss, g.start + 1, g.end);
  }

  lemma RegionStepOutput(inp: Input, c: Cursor)
    requires Inv(inp, c) && AtRegion(inp, c)
    requires Inv(inp, Step(inp, c))
    ensures Tail(inp, c) == Block(inp, c.ci) + Tail(inp, Step(inp, c))
  {
    hide Slot, Pending;
    RegionSlots(inp, c.ci);
    assert RegionEndsAt(inp, inp.regions[c.ci].end);
    FreshTail(inp, Step(inp, c));
  }

  /** A pending edit at the cursor is never one of the insertions lost at a region's end. */
  lemma PendingNotLost(inp: Input, c: Cursor)
    requires Inv(inp, c) && !AtRegion(inp, c) && RegionEndsAt(inp, c.pos)
    ensures c.li < |inp.local| ==> inp.local[c.li].end > c.pos
    ensures c.ri < |inp.remote| ==> inp.remote[c.ri].end > c.pos
  {
  }

  lemma LocalInsertOutput(inp: Input, c: Cursor)
    requires Inv(inp, c) && !AtRegion(inp, c) && AtLocal(inp, c)
    requires inp.local[c.li].end == c.pos
    ensures Pending(inp, c) == inp.local[c.li].lines + Pending(inp, Step(inp, c))
  {
    if RegionEndsAt(inp, c.pos) {
      PendingNotLost(inp, c);
    }
    hide NextEvent, Block;
    var rest := inp.local[c.li..];
    assert rest[1..] == inp.local[c.li + 1..];
    assert StartingAt(rest, c.pos, false) == inp.local[c.li].lines + StartingAt(rest[1..], c.pos, false);
  }

  lemma NoRegionUnder(inp: Input, c: Cursor, e: Edit, q: nat)
    requires Inv(inp, c) && !AtRegion(inp, c)
    requires e in inp.local || e in inp.remote
    requires e.start == c.pos < q < e.end
    ensures !RegionStartsAt(inp, q) && !RegionInterior(inp, q)
  {
    forall k | 0 <= k < |inp.regions|
      ensures !(inp.regions[k].start <= q < inp.regions[k].end)
    {
      if k < c.ci {
        assert inp.regions[k].end <= inp.regions[c.ci - 1].end;
      } else {
        NothingStraddles(inp.local, inp.remote, inp.regions, |inp.base|, k);
        assert !Straddles(e, inp.regions[k].start);
      }
    }
  }

  lemma UnderLocalEmpty(inp: Input, c: Cursor, q: nat)
    requires Inv(inp, c) && !AtRegion(inp, c) && AtLocal(inp, c)
    requires c.pos < q < inp.local[c.li].end
    ensures Slot(inp, q) == []
  {
    NoRegionUnder(inp, c, inp.local[c.li], q);
    PendingRemoteInserts(inp, c);
    assert Covers(inp.local, q);
    var skip := RegionEndsAt(inp, q);
    StartingAtNone(inp.local, q, skip);
    assert forall j :: 0 <= j < |inp.remote| ==> inp.remote[j].start != q;
    StartingAtNone(inp.remote, q, skip);
  }

  lemma LocalReplacePending(inp: Input, c: Cursor)
    requires Inv(inp, c) && !AtRegion(inp, c) && AtLocal(inp, c)
    requires inp.local[c.li].end > c.pos
    ensures Pending(inp, c) == inp.local[c.li].lines
  {
    assert ReplacesAt(inp.local, c.pos) && Covers(inp.local, c.pos);
    assert inp.local[c.li..][1..] == inp.local[c.li + 1..];
    StartingAtNone(inp.local[c.li + 1..], c.pos, RegionEndsAt(inp, c.pos));
  }

  lemma LocalInsertTail(inp: Input, c: Cursor)
    requires Inv(inp, c) && !AtRegion(inp, c) && AtLocal(inp, c)
    requires inp.local[c.li].end == c.pos
    requires Inv(inp, Step(inp, c))
    ensures Tail(inp, c) == inp.local[c.li].lines + Tail(inp, Step(inp, c))
  {
    hide Slot, Pending;
    LocalInsertOutput(inp, c);
    Regroup(inp.local[c.li].lines, Pending(inp, Step(inp, c)), Flatten(Slots(inp), c.pos + 1));
  }

  lemma UnderLocalSlots(inp: Input, c: Cursor)
    requires Inv(inp, c) && !AtRegion(inp, c) && AtLocal(inp, c)
    requires inp.local[c.li].end > c.pos
    ensures Flatten(Slots(inp), c.pos + 1) == Flatten(Slots(inp), inp.local[c.li].end)
  {
    hide Slot;
    var ss := Slots(inp);
    forall q | c.pos + 1 <= q < inp.local[c.li].end
      ensures ss[q] == []
    {
      UnderLocalEmpty(inp, c, q);
    }
    EmptySlots(ss, c.pos + 1, inp.local[c.li].end);
  }

  lemma LocalStepOutput(inp: Input, c: Cursor)
    requires Inv(inp, c) && !AtRegion(inp, c) && AtLocal(inp, c)
    requires Inv(inp, Step(inp, c))
    ensures Tail(inp, c) == inp.local[c.li].lines + Tail(inp, Step(inp, c))
  {
    hide Slot, Pending;
    if inp.local[c.li].end == c.pos {
      LocalInsertTail(inp, c);
    } else {
      LocalReplacePending(inp, c);
      UnderLocalSlots(inp, c);
      FreshTail(inp, Step(inp, c));
    }
  }

  lemma NoLocalHere(inp: Input, c: Cursor)
    requires Inv(inp, c) && !AtLocal(inp, c)
    ensures StartingAt(inp.local[c.li..], c.pos, RegionEndsAt(inp, c.pos)) == []
    ensures !ReplacesAt(inp.local, c.pos)
    ensures !Covers(inp.local, c.pos)
  {
    forall j | c.li <= j < |inp.local|
      ensures inp.local[j].start > c.pos
    {
      assert inp.local[c.li].start <= inp.local[j].start;
    }
    StartingAtNone(inp.local[c.li..], c.pos, RegionEndsAt(inp, c.pos));
  }

  lemma RemoteInsertOutput(inp: Input, c: Cursor)
    requires Inv(inp, c) && !AtRegion(inp, c) && !AtLocal(inp, c) && AtRemote(inp, c)
    requires inp.remote[c.ri].end == c.pos
    ensures Pending(inp, c) == inp.remote[c.ri].lines + Pending(inp, Step(inp, c))
  {
    hide NextEvent, Block, BaseAt, StartingAt, IsRegions, Trapped;
    if RegionEndsAt(inp, c.pos) {
      PendingNotLost(inp, c);
    }
    NoLocalHere(inp, c);
    assert inp.remote[c.ri..][1..] == inp.remote[c.ri + 1..];
    StartingAtHead(inp.remote[c.ri..], c.pos);
    Regroup(inp.remote[c.ri].lines, StartingAt(inp.remote[c.ri + 1..], c.pos, false), BaseAt(inp, c.pos));
  }

  lemma UnderRemoteEmpty(inp: Input, c: Cursor, q: nat)
    requires Inv(inp, c) && !AtRegion(inp, c) && !AtLocal(inp, c) && AtRemote(inp, c)
    requires c.pos < q < inp.remote[c.ri].end
    ensures Slot(inp, q) == []
  {
    NoRegionUnder(inp, c, inp.remote[c.ri], q);
    assert Covers(inp.remote, q);
    var skip := RegionEndsAt(inp, q);
    forall j | 0 <= j < |inp.local|
      ensures inp.local[j].start != q
    {
      if j >= c.li && inp.local[j].start == q {
        NoOverlapHere(inp, c, j, c.ri);
      }
    }
    StartingAtNone(inp.local, q, skip);
    StartingAtNone(inp.remote, q, skip);
  }

  lemma RemoteReplacePending(inp: Input, c: Cursor)
    requires Inv(inp, c) && !AtRegion(inp, c) && !AtLocal(inp, c) && AtRemote(inp, c)
    requires inp.remote[c.ri].end > c.pos
    ensures Pending(inp, c) == inp.remote[c.ri].lines
  {
    NoLocalHere(inp, c);
    assert Covers(inp.remote, c.pos);
    assert inp.remote[c.ri..][1..] == inp.remote[c.ri + 1..];
    StartingAtNone(inp.remote[c.ri + 1..], c.pos, RegionEndsAt(inp, c.pos));
  }

  lemma RemoteInsertTail(inp: Input, c: Cursor)
    requires Inv(inp, c) && !AtRegion(inp, c) && !AtLocal(inp, c) && AtRemote(inp, c)
    requires inp.remote[c.ri].end == c.pos
    requires Inv(inp, Step(inp, c))
    ensures Tail(inp, c) == inp.remote[c.ri].lines + Tail(inp, Step(inp, c))
  {
    hide Slot, Pending;
    RemoteInsertOutput(inp, c);
    Regroup(inp.remote[c.ri].lines, Pending(inp, Step(inp, c)), Flatten(Slots(inp), c.pos + 1));
  }

  lemma UnderRemoteSlots(inp: Input, c: Cursor)
    requires Inv(inp, c) && !AtRegion(inp, c) && !AtLocal(inp, c) && AtRemote(inp, c)
    requires inp.remote[c.ri].end > c.pos
    ensures Flatten(Slots(inp), c.pos + 1) == Flatten(Slots(inp), inp.remote[c.ri].end)
  {
    hide Slot;
    var ss := Slots(inp);
    forall q | c.pos + 1 <= q < inp.remote[c.ri].end
      ensures ss[q] == []
    {
      UnderRemoteEmpty(inp, c, q);
    }
    EmptySlots(ss, c.pos + 1, inp.remote[c.ri].end);
  }

  lemma RemoteStepOutput(inp: Input, c: Cursor)
    requires Inv(inp, c) && !AtRegion(inp, c) && !AtLocal(inp, c) && AtRemote(inp, c)
    requires Inv(inp, Step(inp, c))
    ensures Tail(inp, c) == inp.remote[c.ri].lines + Tail(inp, Step(inp, c))
  {
    hide Slot, Pending;
    if inp.remote[c.ri].end == c.pos {
      RemoteInsertTail(inp, c);
    } else {
      RemoteReplacePending(inp, c);
      UnderRemoteSlots(inp, c);
      FreshTail(inp, Step(inp, c));
    }
  }

  /** Every pending start is at `to` or later. */
  ghost predicate NothingBefore(inp: Input, c: Cursor, to: nat) {
    && (forall k :: c.ci <= k < |inp.regions| ==> to <= inp.regions[k].start)
    && (forall i :: c.li <= i < |inp.local| ==> to <= inp.local[i].start)
    && (forall j :: c.ri <= j < |inp.remote| ==> to <= inp.remote[j].start)
  }

  lemma QuietSlot(inp: Input, c: Cursor, to: nat, q: nat)
    requires Inv(inp, c) && NothingBefore(inp, c, to)
    requires c.pos < q < to <= |inp.base|
    ensures Slot(inp, q) == [inp.base[q]]
  {
    forall k | 0 <= k < |inp.regions|
      ensures !(inp.regions[k].start <= q < inp.regions[k].end)
    {
      if k < c.ci {
        assert inp.regions[k].end <= inp.regions[c.ci - 1].end;
      }
    }
    StartingAtNone(inp.local, q, RegionEndsAt(inp, q));
    StartingAtNone(inp.remote, q, RegionEndsAt(inp, q));
    assert !Covers(inp.local, q) && !Covers(inp.remote, q);
  }

  lemma CopyPending(inp: Input, c: Cursor, to: nat)
    requires Inv(inp, c) && !AtLocal(inp, c)
    requires c.pos < to <= |inp.base| && NothingBefore(inp, c, to)
    ensures Pending(inp, c) == [inp.base[c.pos]]
  {
    NoLocalHere(inp, c);
    StartingAtNone(inp.remote[c.ri..], c.pos, RegionEndsAt(inp, c.pos));
    assert !Covers(inp.remote, c.pos);
  }

  lemma QuietSlots(inp: Input, c: Cursor, to: nat)
    requires Inv(inp, c) && NothingBefore(inp, c, to)
    requires c.pos < to <= |inp.base|
    ensures Flatten(Slots(inp), c.pos + 1) == inp.base[c.pos + 1..to] + Flatten(Slots(inp), to)
  {
    hide Slot;
    var ss := Slots(inp);
    forall q | c.pos + 1 <= q < to
      ensures ss[q] == [inp.base[q]]
    {
      QuietSlot(inp, c, to, q);
    }
    CopiedSlots(ss, inp.base, c.pos + 1, to);
  }

  lemma NextEventQuiet(inp: Input, c: Cursor)
    requires Inv(inp, c) && NextEvent(inp, c) > c.pos
    ensures NothingBefore(inp, c, NextEvent(inp, c))
  {
    hide NextEvent, SomethingBehind, InHull, InRegion;
    var e := NextEvent(inp, c);
    assert c.ci < |inp.regions| ==> e <= inp.regions[c.ci].start;
    assert c.li < |inp.local| ==> e <= inp.local[c.li].start;
    assert c.ri < |inp.remote| ==> e <= inp.remote[c.ri].start;
  }

  lemma CopyStepOutput(inp: Input, c: Cursor)
    requires Inv(inp, c) && !AtRegion(inp, c) && !AtLocal(inp, c) && !AtRemote(inp, c)
    requires c.pos < NextEvent(inp, c) <= |inp.base|
    requires Inv(inp, Step(inp, c))
    ensures Tail(inp, c) == inp.base[c.pos..NextEvent(inp, c)] + Tail(inp, Step(inp, c))
  {
    hide Slot, Pending, NextEvent;
    var to := NextEvent(inp, c);
    NextEventQuiet(inp, c);
    CopyPending(inp, c, to);
    QuietSlots(inp, c, to);
    assert inp.base[c.pos..to] == [inp.base[c.pos]] + inp.base[c.pos + 1..to];
    Regroup([inp.base[c.pos]], inp.base[c.pos + 1..to], Flatten(Slots(inp), to));
    FreshTail(inp, Step(inp, c));
  }

  /** Together, what is written and what is pending never changes. */
  lemma StepOutput(inp: Input, c: Cursor)
    requires Inv(inp, c)
    ensures Inv(inp, Step(inp, c))
    ensures c.out + Tail(inp, c) == Step(inp, c).out + Tail(inp, Step(inp, c))
  {
    StepKeepsInv(inp, c);
    var d := Step(inp, c);
    if AtRegion(inp, c) {
      RegionStepOutput(inp, c);
      Regroup(c.out, Block(inp, c.ci), Tail(inp, d));
    } else if AtLocal(inp, c) {
      LocalStepOutput(inp, c);
      Regroup(c.out, inp.local[c.li].lines, Tail(inp, d));
    } else if AtRemote(inp, c) {
      RemoteStepOutput(inp, c);
      Regroup(c.out, inp.remote[c.ri].lines, Tail(inp, d));
    } else {
      NextEventInRange(inp, c);
      if NextEvent(inp, c) > c.pos {
        CopyStepOutput(inp, c);
        Regroup(c.out, inp.base[c.pos..NextEvent(inp, c)], Tail(inp, d));
      } else {
        assert d == c;
      }
    }
  }

  lemma DoneTail(inp: Input, c: Cursor)
    requires Inv(inp, c) && Done(inp, c)
    ensures c.ci == |inp.regions| && Tail(inp, c) == []
  {
    if c.ci < |inp.regions| {
      RegionFits(inp, c.ci);
    }
  }

  /** Skips the edits a region has covered. */
  method SkipCovered(es: seq<Edit>, from: nat, pos: nat) returns (i: nat)
    requires from <= |es|
    ensures i == SkipTo(es, from, pos)
  {
    i := from;
    while i < |es| && es[i].end <= pos
      invariant from <= i <= |es|
      invariant SkipTo(es, from, pos) == SkipTo(es, i, pos)
    {
      i := i + 1;
    }
  }

  /** One round of the sweep loop. */
  method Advance(inp: Input, c: Cursor) returns (d: Cursor)
    requires Inv(inp, c)
    ensures d == Step(inp, c)
  {
    var pos, li, ri, ci, merged := c.pos, c.li, c.ri, c.ci, c.out;
    if ci < |inp.regions| && inp.regions[ci].start == pos {
      RegionFits(inp, ci);
      var localSide := BuildSide(inp.base, inp.local, inp.regions[ci]);
      var remoteSide := BuildSide(inp.base, inp.remote, inp.regions[ci]);
      var block := [LOCAL_MARK] + localSide + [MIDDLE_MARK] + remoteSide + [REMOTE_MARK];
      merged := merged + block;
      pos := inp.regions[ci].end;
      ci := ci + 1;
      li := SkipCovered(inp.local, li, pos);
      ri := SkipCovered(inp.remote, ri, pos);
    } else if li < |inp.local| && inp.local[li].start == pos {
      merged := merged + inp.local[li].lines;
      if inp.local[li].start != inp.local[li].end {
        pos := inp.local[li].end;
      }
      li := li + 1;
    } else if ri < |inp.remote| && inp.remote[ri].start == pos {
      merged := merged + inp.remote[ri].lines;
      if inp.remote[ri].start != inp.remote[ri].end {
        pos := inp.remote[ri].end;
      }
      ri := ri + 1;
    } else {
      NextEventInRange(inp, c);
      var nextEvent := NextEvent(inp, c);
      merged := merged + inp.base[pos..nextEvent];
      pos := nextEvent;
    }
    d := Cursor(pos, li, ri, ci, merged);
  }

  /** The sweep: the merged text and the number of conflict blocks in it. */
  method Sweep(inp: Input) returns (merged: seq<Line>, conflictCount: nat)
    requires !Hangs(inp)
    ensures merged == Merged(inp)
    ensures conflictCount == |inp.regions|
  {
    var c := START;
    FreshTail(inp, START);
    while c.pos < |inp.base| || c.li < |inp.local| || c.ri < |inp.remote|
      invariant Inv(inp, c)
      invariant c.out + Tail(inp, c) == Merged(inp)
      decreases Measure(inp, c)
    {
      StepOutput(inp, c);
      Progress(inp, c);
      c := Advance(inp, c);
    }
    DoneTail(inp, c);
    merged, conflictCount := c.out, c.ci;
  }
}
