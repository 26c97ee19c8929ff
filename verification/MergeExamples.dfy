/** Inputs that the merge mishandles, each given by two diffs against the base `a b c`. */
module MergeExamples {
  import opened Edits
  import opened ConflictRegions
  import opened MergeSweep
  import opened MergeOutput
  import opened MergeDiffs

  const ABC: seq<Line> := ["a\n", "b\n", "c\n"]

  // ---- A merge that never ends: local `a b x`, remote `b n c` ----

  const ABX: seq<Line> := ["a\n", "b\n", "x\n"]
  const BNC: seq<Line> := ["b\n", "n\n", "c\n"]
  const ABX_OPS := [DiffOp(Equal, 0, 2, 0, 2), DiffOp(Replace, 2, 3, 2, 3)]
  const BNC_OPS := [DiffOp(Delete, 0, 1, 0, 0), DiffOp(Equal, 1, 2, 0, 1),
                    DiffOp(Insert, 2, 2, 1, 2), DiffOp(Equal, 2, 3, 2, 3)]

  lemma {:induction false} HangLocalDiff()
    ensures Tiles(ABX_OPS, ABC, ABX, 0, 0) && NewRangesIn(ABX_OPS, ABX)
    ensures EditsOf(ABX_OPS, ABX) == [Edit(2, 3, ["x\n"])]
  {
    assert ABX[2..3] == ["x\n"];
    assert EditsOf(ABX_OPS[1..], ABX) == [Edit(2, 3, ["x\n"])];
    assert Tiles(ABX_OPS[1..], ABC, ABX, 2, 2);
  }

  lemma {:induction false} HangRemoteDiff()
    ensures Tiles(BNC_OPS, ABC, BNC, 0, 0) && NewRangesIn(BNC_OPS, BNC)
    ensures EditsOf(BNC_OPS, BNC) == [Edit(0, 1, []), Edit(1, 2, ["b\n"]), Edit(2, 2, ["n\n"])]
  {
    assert BNC[1..2] == ["n\n"] && BNC[0..1] == ["b\n"] && BNC[0..0] == [];
    assert BNC_OPS[1..][1..] == BNC_OPS[2..] && BNC_OPS[2..][1..] == BNC_OPS[3..];
    assert EditsOf(BNC_OPS[3..], BNC) == [];
    assert EditsOf(BNC_OPS[2..], BNC) == [Edit(2, 2, ["n\n"])];
    assert EditsOf(BNC_OPS[1..], BNC) == [Edit(1, 2, ["b\n"]), Edit(2, 2, ["n\n"])];
    assert Tiles(BNC_OPS[3..], ABC, BNC, 2, 2);
    assert Tiles(BNC_OPS[2..], ABC, BNC, 2, 1);
    assert Tiles(BNC_OPS[1..], ABC, BNC, 1, 0);
  }

  /** The two diffs are proper diffs, nothing overlaps, and yet the sweep never ends. */
  lemma {:induction false} HangExample()
    ensures Tiles(ABX_OPS, ABC, ABX, 0, 0) && NewRangesIn(ABX_OPS, ABX)
    ensures Tiles(BNC_OPS, ABC, BNC, 0, 0) && NewRangesIn(BNC_OPS, BNC)
    ensures var t := MergeTask(ABC, EditsOf(ABX_OPS, ABX), EditsOf(BNC_OPS, BNC), []);
            ValidTask(t) && !Terminates(t)
  {
    HangLocalDiff();
    HangRemoteDiff();
    HangingTask(MergeTask(ABC, [Edit(2, 3, ["x\n"])], [Edit(0, 1, []), Edit(1, 2, ["b\n"]), Edit(2, 2, ["n\n"])], []));
  }

  lemma {:induction false} HangingTask(t: MergeTask)
    requires |t.base| == 3 && t.regions == []
    requires |t.local| == 1 && t.local[0].start == 2 && t.local[0].end == 3
    requires |t.remote| == 3 && t.remote[0].start == 0 && t.remote[0].end == t.remote[1].start == 1
    requires t.remote[1].end == t.remote[2].start == t.remote[2].end == 2
    ensures ValidTask(t) && !Terminates(t)
  {
    assert forall j :: 0 <= j < 3 ==> !Overlaps(t.local[0], t.remote[j]);
    assert Shadows(t, 0, 2) && Blocked(t, 0);
    TerminatesIffNoHang(t);
  }

  // ---- A line that is lost: local `x y c`, remote `z b n c` ----

  const XYC: seq<Line> := ["x\n", "y\n", "c\n"]
  const ZBNC: seq<Line> := ["z\n", "b\n", "n\n", "c\n"]
  const XYC_OPS := [DiffOp(Replace, 0, 2, 0, 2), DiffOp(Equal, 2, 3, 2, 3)]
  const ZBNC_OPS := [DiffOp(Replace, 0, 1, 0, 1), DiffOp(Equal, 1, 2, 1, 2),
                     DiffOp(Insert, 2, 2, 2, 3), DiffOp(Equal, 2, 3, 3, 4)]

  lemma {:induction false} LossLocalDiff()
    ensures Tiles(XYC_OPS, ABC, XYC, 0, 0) && NewRangesIn(XYC_OPS, XYC)
    ensures EditsOf(XYC_OPS, XYC) == [Edit(0, 2, ["x\n", "y\n"])]
  {
    assert XYC[0..2] == ["x\n", "y\n"] && XYC_OPS[1..][1..] == [];
    assert EditsOf(XYC_OPS[1..], XYC) == [];
    assert Tiles(XYC_OPS[1..], ABC, XYC, 2, 2);
  }

  lemma {:induction false} LossRemoteDiff()
    ensures Tiles(ZBNC_OPS, ABC, ZBNC, 0, 0) && NewRangesIn(ZBNC_OPS, ZBNC)
    ensures EditsOf(ZBNC_OPS, ZBNC) == [Edit(0, 1, ["z\n"]), Edit(2, 2, ["n\n"]), Edit(2, 3, ["c\n"])]
  {
    assert ZBNC[0..1] == ["z\n"] && ZBNC[2..3] == ["n\n"] && ZBNC[3..4] == ["c\n"];
    assert ZBNC_OPS[1..][1..] == ZBNC_OPS[2..] && ZBNC_OPS[2..][1..] == ZBNC_OPS[3..];
    assert EditsOf(ZBNC_OPS[3..], ZBNC) == [Edit(2, 3, ["c\n"])];
    assert EditsOf(ZBNC_OPS[2..], ZBNC) == [Edit(2, 2, ["n\n"]), Edit(2, 3, ["c\n"])];
    assert EditsOf(ZBNC_OPS[1..], ZBNC) == EditsOf(ZBNC_OPS[2..], ZBNC);
    assert Tiles(ZBNC_OPS[3..], ABC, ZBNC, 2, 3);
    assert Tiles(ZBNC_OPS[2..], ABC, ZBNC, 2, 2);
    assert Tiles(ZBNC_OPS[1..], ABC, ZBNC, 1, 1);
  }

  /** A merge in which the remote side inserts a line right where the only region ends. */
  ghost predicate InsertsAtEnd(t: MergeTask, line: Line) {
    && |t.base| == 3 && t.regions == [Region(0, 2)] && line !in t.base
    && |t.local| == 1 && t.local[0].start == 0 && t.local[0].end == 2 && line !in t.local[0].lines
    && |t.remote| == 3 && t.remote[0].start == 0 && t.remote[0].end == 1 && line !in t.remote[0].lines
    && t.remote[1] == Edit(2, 2, [line]) && t.remote[2].start == 2 && t.remote[2].end == 3 && line !in t.remote[2].lines
    && line != LOCAL_MARK && line != MIDDLE_MARK && line != REMOTE_MARK
  }

  lemma {:induction false} InsertsAtEndValid(t: MergeTask, line: Line)
    requires InsertsAtEnd(t, line)
    ensures ValidTask(t) && !Hangs(t)
  {
    assert Overlaps(t.local[0], t.remote[0]) && Hull(t.local[0], t.remote[0]) == Region(0, 2);
    forall x: int
      ensures InRegion(t.regions, x) <==> InHull(t.local, t.remote, x)
    {
      assert Holds(t.regions[0], x) <==> Holds(Hull(t.local[0], t.remote[0]), x);
    }
  }

  lemma {:induction false} NotInFlatten(ss: seq<seq<Line>>, p: nat, line: Line)
    requires forall q :: p <= q < |ss| ==> line !in ss[q]
    ensures line !in Flatten(ss, p)
    decreases |ss| - p
  {
    if p < |ss| {
      NotInFlatten(ss, p + 1, line);
    }
  }

  lemma {:induction false} NotInSlot(inp: Input, p: nat, line: Line)
    requires InsertsAtEnd(inp, line) && p <= 3
    ensures line !in Slot(inp, p)
  {
    assert inp.local[1..] == [] && inp.remote[1..][1..] == inp.remote[2..] && inp.remote[2..][1..] == [];
    assert inp.regions[0].start == 0 && inp.regions[0].end == 2;
    if p == 0 {
      assert RegionStartsAt(inp, 0) && RegionStarting(inp, 0) == 0;
      NotInBlock(inp, line);
    } else if p == 1 {
      assert RegionInterior(inp, 1);
    } else {
      assert !RegionStartsAt(inp, p) && !RegionInterior(inp, p) && (RegionEndsAt(inp, p) <==> p == 2);
      NotTaken(inp, p, line);
    }
  }

  lemma {:induction false} NotTaken(inp: Input, p: nat, line: Line)
    requires InsertsAtEnd(inp, line) && 2 <= p <= 3
    ensures line !in StartingAt(inp.local, p, p == 2) && line !in StartingAt(inp.remote, p, p == 2)
  {
    var r := inp.remote;
    assert inp.local[1..] == [] && r[1..][0] == r[1] && r[1..][1..] == r[2..] && r[2..][0] == r[2] && r[2..][1..] == [];
    assert StartingAt(r[2..], p, p == 2) == (if p == 2 then r[2].lines else []) + [];
    assert StartingAt(r[1..], p, p == 2) == [] + StartingAt(r[2..], p, p == 2);
  }

  lemma {:induction false} NotInBlock(inp: Input, line: Line)
    requires InsertsAtEnd(inp, line)
    ensures line !in Block(inp, 0)
  {
    var g := inp.regions[0];
    RegionFits(inp, 0);
    assert FirstIn(inp.local, g, 0) == 0 && FirstIn(inp.remote, g, 0) == 0;
    assert line !in Side(inp.base, inp.local, g) && line !in Side(inp.base, inp.remote, g);
  }

  /** The diffs are proper, the insertion overlaps no edit, the sweep ends, and the inserted line
      is nowhere in the merged text. */
  lemma {:induction false} LossExample()
    ensures Tiles(XYC_OPS, ABC, XYC, 0, 0) && NewRangesIn(XYC_OPS, XYC)
    ensures Tiles(ZBNC_OPS, ABC, ZBNC, 0, 0) && NewRangesIn(ZBNC_OPS, ZBNC)
    ensures var t := MergeTask(ABC, EditsOf(XYC_OPS, XYC), EditsOf(ZBNC_OPS, ZBNC), [Region(0, 2)]);
            && ValidTask(t) && Terminates(t)
            && Edit(2, 2, ["n\n"]) in t.remote && (forall e :: e in t.local ==> !Overlaps(e, Edit(2, 2, ["n\n"])))
            && "n\n" !in Merged(t)
  {
    LossLocalDiff();
    LossRemoteDiff();
    var t := MergeTask(ABC, [Edit(0, 2, ["x\n", "y\n"])],
                       [Edit(0, 1, ["z\n"]), Edit(2, 2, ["n\n"]), Edit(2, 3, ["c\n"])], [Region(0, 2)]);
    assert InsertsAtEnd(t, "n\n");
    LostLine(t, "n\n");
    assert t.remote[1] in t.remote;
  }

  lemma {:induction false} LostLine(t: MergeTask, line: Line)
    requires InsertsAtEnd(t, line)
    ensures ValidTask(t) && Terminates(t) && line !in Merged(t)
  {
    hide Slot, Terminates, Hangs;
    InsertsAtEndValid(t, line);
    TerminatesIffNoHang(t);
    forall q | 0 <= q < |Slots(t)|
      ensures line !in Slots(t)[q]
    {
      NotInSlot(t, q, line);
    }
    NotInFlatten(Slots(t), 0, line);
  }

  // ---- A conflict over unchanged lines: local `a n b c`, remote `a b z` ----

  const ANBC: seq<Line> := ["a\n", "n\n", "b\n", "c\n"]
  const ABZ: seq<Line> := ["a\n", "b\n", "z\n"]
  const ANBC_OPS := [DiffOp(Equal, 0, 1, 0, 1), DiffOp(Insert, 1, 1, 1, 2), DiffOp(Equal, 1, 3, 2, 4)]
  const ABZ_OPS := [DiffOp(Equal, 0, 2, 0, 2), DiffOp(Replace, 2, 3, 2, 3)]

  lemma {:induction false} ShiftLocalDiff()
    ensures ProperDiff(ANBC_OPS, ABC, ANBC)
    ensures EditsOf(ANBC_OPS, ANBC) == [Edit(1, 1, ["n\n"]), Edit(1, 3, ["b\n", "c\n"])]
  {
    assert ANBC[1..2] == ["n\n"] && ANBC[2..4] == ["b\n", "c\n"];
    assert ANBC_OPS[1..][1..] == ANBC_OPS[2..] && ANBC_OPS[2..][1..] == [];
    assert EditsOf(ANBC_OPS[2..], ANBC) == [Edit(1, 3, ["b\n", "c\n"])];
    assert EditsOf(ANBC_OPS[1..], ANBC) == [Edit(1, 1, ["n\n"]), Edit(1, 3, ["b\n", "c\n"])];
    assert Tiles(ANBC_OPS[2..], ABC, ANBC, 1, 2);
    assert Tiles(ANBC_OPS[1..], ABC, ANBC, 1, 1);
  }

  lemma {:induction false} ShiftRemoteDiff()
    ensures ProperDiff(ABZ_OPS, ABC, ABZ) && EditsOf(ABZ_OPS, ABZ) == [Edit(2, 3, ["z\n"])]
  {
    assert ABZ[2..3] == ["z\n"] && ABZ_OPS[1..][1..] == [];
    assert EditsOf(ABZ_OPS[1..], ABZ) == [Edit(2, 3, ["z\n"])];
    assert Tiles(ABZ_OPS[1..], ABC, ABZ, 2, 2);
  }

  const SHIFT_TASK := MergeTask(ABC, [Edit(1, 1, ["n\n"]), Edit(1, 3, ["b\n", "c\n"])],
                                [Edit(2, 3, ["z\n"])], [Region(1, 3)])

  lemma {:induction false} ShiftTaskValid()
    ensures ValidTask(SHIFT_TASK) && !Hangs(SHIFT_TASK)
  {
    var t := SHIFT_TASK;
    assert Overlaps(t.local[1], t.remote[0]) && !Overlaps(t.local[0], t.remote[0]);
    assert Hull(t.local[1], t.remote[0]) == Region(1, 3);
    forall x: int
      ensures InRegion(t.regions, x) <==> InHull(t.local, t.remote, x)
    {
      assert Holds(t.regions[0], x) <==> Holds(Hull(t.local[1], t.remote[0]), x);
    }
  }

  lemma {:induction false} ShiftBlock(inp: Input)
    requires inp == SHIFT_TASK
    ensures Block(inp, 0) == [LOCAL_MARK, "n\n", "b\n", "c\n", MIDDLE_MARK, "b\n", "z\n", REMOTE_MARK]
  {
    var g := inp.regions[0];
    RegionFits(inp, 0);
    assert FirstIn(inp.local, g, 0) == 0 && FirstIn(inp.remote, g, 0) == 0;
    assert ABC[1..3] == ["b\n", "c\n"] && ABC[1..2] == ["b\n"] && ABC[1..1] == [] && ABC[3..3] == [];
  }

  lemma {:induction false} NothingShiftedAt(inp: Input, p: nat)
    requires inp == SHIFT_TASK && (p == 0 || p == 3)
    ensures StartingAt(inp.local, p, p == 3) == [] && StartingAt(inp.remote, p, p == 3) == []
  {
    StartingAtNone(inp.local, p, p == 3);
    StartingAtNone(inp.remote, p, p == 3);
  }

  lemma {:induction false} ShiftRegion(inp: Input, p: nat)
    requires inp == SHIFT_TASK
    ensures (RegionStartsAt(inp, p) <==> p == 1) && (RegionInterior(inp, p) <==> p == 2) && (RegionEndsAt(inp, p) <==> p == 3)
  {
    assert inp.regions[0] == Region(1, 3);
  }

  lemma {:induction false} ShiftSlotOutside(inp: Input, p: nat)
    requires inp == SHIFT_TASK && (p == 0 || p == 3)
    ensures Slot(inp, p) == if p == 0 then ["a\n"] else []
  {
    hide Block, StartingAt, RegionStartsAt, RegionInterior, RegionEndsAt;
    ShiftRegion(inp, p);
    NothingShiftedAt(inp, p);
    assert !ReplacesAt(inp.local, p) && !Covers(inp.local, 0) && !Covers(inp.remote, 0);
  }

  lemma {:induction false} ShiftSlots(inp: Input)
    requires inp == SHIFT_TASK
    ensures Slot(inp, 0) == ["a\n"] && Slot(inp, 1) == Block(inp, 0) && Slot(inp, 2) == [] && Slot(inp, 3) == []
  {
    hide Block, StartingAt, RegionStartsAt, RegionInterior, RegionEndsAt, ReplacesAt, BaseAt;
    ShiftRegion(inp, 1);
    ShiftRegion(inp, 2);
    assert RegionStarting(inp, 1) == 0;
    ShiftSlotOutside(inp, 0);
    ShiftSlotOutside(inp, 3);
  }

  lemma {:induction false} ShiftMerged(inp: Input)
    requires inp == SHIFT_TASK
    ensures Merged(inp) == ["a\n"] + Block(inp, 0)
  {
    hide Slot, Block;
    ShiftSlots(inp);
    var ss := Slots(inp);
    assert Flatten(ss, 4) == [];
    assert Flatten(ss, 3) == [] && Flatten(ss, 2) == [];
    assert Flatten(ss, 1) == ss[1] + Flatten(ss, 2);
  }

  /** One side only inserts after line 0 and the other only replaces line 2, the sweep ends, and yet
      the lines between and after are put into a conflict block. */
  lemma {:induction false} ShiftExample()
    ensures ProperDiff(ANBC_OPS, ABC, ANBC) && ProperDiff(ABZ_OPS, ABC, ABZ)
    ensures var t := MergeTask(ABC, EditsOf(ANBC_OPS, ANBC), EditsOf(ABZ_OPS, ABZ), [Region(1, 3)]);
            && ValidTask(t) && Terminates(t)
            && Merged(t) == ["a\n", LOCAL_MARK, "n\n", "b\n", "c\n", MIDDLE_MARK, "b\n", "z\n", REMOTE_MARK]
  {
    hide Merged, Terminates, Hangs, ValidTask;
    ShiftLocalDiff();
    ShiftRemoteDiff();
    ShiftTaskValid();
    TerminatesIffNoHang(SHIFT_TASK);
    ShiftMerged(SHIFT_TASK);
    ShiftBlock(SHIFT_TASK);
  }
}
