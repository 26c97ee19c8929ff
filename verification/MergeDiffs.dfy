/** When two diffs conflict, said of the diffs themselves: an equal run that moved to other line
    numbers becomes an edit, and conflicts like one. */
module MergeDiffs {
  import opened Edits
  import opened ConflictRegions
  import opened MergeSweep
  import opened Merge

  ghost predicate Moves(op: DiffOp, x: int) {
    !Skipped(op) && op.oldStart <= x < op.oldEnd
  }

  /** Base line `x` is edited, or it is kept but under another line number. */
  ghost predicate Moved(ops: seq<DiffOp>, x: int) {
    exists k :: 0 <= k < |ops| && Moves(ops[k], x)
  }

  /** Every operation takes up lines of the base or of the side. */
  ghost predicate NoEmptyOps(ops: seq<DiffOp>) {
    forall k :: 0 <= k < |ops| ==> ops[k].oldStart < ops[k].oldEnd || ops[k].newStart < ops[k].newEnd
  }

  /** A diff as the merge is given it. */
  ghost predicate ProperDiff(ops: seq<DiffOp>, base: seq<Line>, side: seq<Line>) {
    Tiles(ops, base, side, 0, 0) && NewRangesIn(ops, side) && NoEmptyOps(ops)
  }

  // ---- Operations that tile both texts ----

  ghost predicate InOrder(ops: seq<DiffOp>) {
    && (forall k :: 0 <= k < |ops| ==> ops[k].oldStart <= ops[k].oldEnd && ops[k].newStart <= ops[k].newEnd)
    && (forall i, j :: 0 <= i < j < |ops| ==> ops[i].oldEnd <= ops[j].oldStart && ops[i].newEnd <= ops[j].newStart)
  }

  lemma {:induction false} TilesInOrder(ops: seq<DiffOp>, base: seq<Line>, side: seq<Line>, o: nat, n: nat)
    requires o <= |base| && n <= |side| && Tiles(ops, base, side, o, n)
    ensures InOrder(ops)
    ensures forall k :: 0 <= k < |ops| ==> o <= ops[k].oldStart && n <= ops[k].newStart
  {
    if ops != [] {
      var first, rest := ops[0], ops[1..];
      TilesInOrder(rest, base, side, first.oldEnd, first.newEnd);
      assert forall k :: 0 < k < |ops| ==> ops[k] == rest[k - 1];
    }
  }

  /** Every base line belongs to some operation. */
  lemma {:induction false} TilesCover(ops: seq<DiffOp>, base: seq<Line>, side: seq<Line>, o: nat, n: nat, x: nat)
    returns (k: nat)
    requires o <= |base| && n <= |side| && Tiles(ops, base, side, o, n) && o <= x < |base|
    ensures k < |ops| && ops[k].oldStart <= x < ops[k].oldEnd
  {
    if x < ops[0].oldEnd {
      k := 0;
    } else {
      k := TilesCover(ops[1..], base, side, ops[0].oldEnd, ops[0].newEnd, x);
      k := k + 1;
    }
  }

  ghost function EditOf(op: DiffOp, side: seq<Line>): Edit
    requires op.newStart <= op.newEnd <= |side|
  {
    Edit(op.oldStart, op.oldEnd, side[op.newStart..op.newEnd])
  }

  lemma {:induction false} EditOfOp(ops: seq<DiffOp>, side: seq<Line>, k: nat)
    requires NewRangesIn(ops, side) && k < |ops| && !Skipped(ops[k])
    ensures EditOf(ops[k], side) in EditsOf(ops, side)
  {
    hide Skipped;
    if k > 0 {
      EditOfOp(ops[1..], side, k - 1);
    }
  }

  lemma {:induction false} OpOfEdit(ops: seq<DiffOp>, side: seq<Line>, e: Edit) returns (k: nat)
    requires NewRangesIn(ops, side) && e in EditsOf(ops, side)
    ensures k < |ops| && !Skipped(ops[k]) && EditOf(ops[k], side) == e
  {
    hide Skipped;
    if !Skipped(ops[0]) && e == EditOf(ops[0], side) {
      k := 0;
    } else {
      k := OpOfEdit(ops[1..], side, e);
      k := k + 1;
    }
  }

  // ---- Lines that moved on both sides ----

  /** An insertion shifts what follows it, so not both of its neighbours kept their numbers. */
  lemma {:induction false} InsertionMoves(ops: seq<DiffOp>, base: seq<Line>, side: seq<Line>, k: nat)
    requires ProperDiff(ops, base, side) && k < |ops| && 0 < ops[k].oldStart == ops[k].oldEnd < |base|
    ensures Moved(ops, ops[k].oldStart - 1) || Moved(ops, ops[k].oldStart)
  {
    var p := ops[k].oldStart;
    TilesInOrder(ops, base, side, 0, 0);
    var i := TilesCover(ops, base, side, 0, 0, p - 1);
    var j := TilesCover(ops, base, side, 0, 0, p);
    hide Tiles;
    assert i < k < j;
    assert ops[i].newEnd <= ops[k].newStart < ops[k].newEnd <= ops[j].newStart;
    assert Moves(ops[i], p - 1) || Moves(ops[j], p);
  }

  /** An operation that reaches across a place, with an insertion of the other side there. */
  lemma {:induction false} InsertionInside(ops: seq<DiffOp>, others: seq<DiffOp>, base: seq<Line>, side: seq<Line>, k: nat, m: nat)
    requires ProperDiff(ops, base, side) && k < |ops| && ops[k].oldStart == ops[k].oldEnd
    requires m < |others| && !Skipped(others[m]) && others[m].oldStart < ops[k].oldStart < others[m].oldEnd <= |base|
    ensures exists x :: Moved(ops, x) && Moved(others, x)
  {
    var p := ops[k].oldStart;
    InsertionMoves(ops, base, side, k);
    assert Moves(others[m], p - 1) && Moves(others[m], p);
    assert Moved(others, p - 1) && Moved(others, p);
  }

  lemma {:induction false} OverlapMoves(base: seq<Line>, local: seq<Line>, remote: seq<Line>,
                                        localOps: seq<DiffOp>, remoteOps: seq<DiffOp>, i: nat, j: nat)
    requires ProperDiff(localOps, base, local) && ProperDiff(remoteOps, base, remote)
    requires i < |localOps| && j < |remoteOps| && !Skipped(localOps[i]) && !Skipped(remoteOps[j])
    requires localOps[i].oldStart < remoteOps[j].oldEnd && remoteOps[j].oldStart < localOps[i].oldEnd
    ensures exists x :: Moved(localOps, x) && Moved(remoteOps, x)
  {
    var l, r := localOps[i], remoteOps[j];
    OldRanges(localOps, base, local, i);
    OldRanges(remoteOps, base, remote, j);
    hide ProperDiff, Skipped;
    if l.oldStart == l.oldEnd {
      InsertionInside(localOps, remoteOps, base, local, i, j);
    } else if r.oldStart == r.oldEnd {
      InsertionInside(remoteOps, localOps, base, remote, j, i);
    } else {
      var x := if l.oldStart < r.oldStart then r.oldStart else l.oldStart;
      assert Moves(l, x) && Moves(r, x);
      assert Moved(localOps, x) && Moved(remoteOps, x);
    }
  }

  lemma {:induction false} OldRanges(ops: seq<DiffOp>, base: seq<Line>, side: seq<Line>, k: nat)
    requires ProperDiff(ops, base, side) && k < |ops|
    ensures ops[k].oldStart <= ops[k].oldEnd <= |base|
  {
    TilesInOrder(ops, base, side, 0, 0);
    TilesWithin(ops, base, side, 0, 0, k);
  }

  lemma {:induction false} TilesWithin(ops: seq<DiffOp>, base: seq<Line>, side: seq<Line>, o: nat, n: nat, k: nat)
    requires o <= |base| && n <= |side| && Tiles(ops, base, side, o, n) && k < |ops|
    ensures ops[k].oldEnd <= |base|
  {
    if k > 0 {
      TilesWithin(ops[1..], base, side, ops[0].oldEnd, ops[0].newEnd, k - 1);
    }
  }

  /** A merge reports conflicts exactly when some base line is edited or shifted on both sides. */
  lemma {:induction false} ConflictsIff(base: seq<Line>, local: seq<Line>, remote: seq<Line>,
                                        localOps: seq<DiffOp>, remoteOps: seq<DiffOp>)
    requires ProperDiff(localOps, base, local) && ProperDiff(remoteOps, base, remote)
    ensures AnyOverlap(EditsOf(localOps, local), EditsOf(remoteOps, remote)) <==>
            exists x :: Moved(localOps, x) && Moved(remoteOps, x)
  {
    var le, re := EditsOf(localOps, local), EditsOf(remoteOps, remote);
    hide Tiles, Skipped, EditsOf, NoEmptyOps;
    if AnyOverlap(le, re) {
      var a, b :| 0 <= a < |le| && 0 <= b < |re| && Overlaps(le[a], re[b]);
      var i := OpOfEdit(localOps, local, le[a]);
      var j := OpOfEdit(remoteOps, remote, re[b]);
      OverlapMoves(base, local, remote, localOps, remoteOps, i, j);
    }
    if x :| Moved(localOps, x) && Moved(remoteOps, x) {
      var i :| 0 <= i < |localOps| && Moves(localOps[i], x);
      var j :| 0 <= j < |remoteOps| && Moves(remoteOps[j], x);
      EditOfOp(localOps, local, i);
      EditOfOp(remoteOps, remote, j);
      var a :| 0 <= a < |le| && le[a] == EditOf(localOps[i], local);
      var b :| 0 <= b < |re| && re[b] == EditOf(remoteOps[j], remote);
      assert Overlaps(le[a], re[b]);
    }
  }

  // ---- Merges without conflict ----

  /** The remote side inserts lines where the local side edits or shifts lines from that place on. */
  ghost predicate Shadowed(localOps: seq<DiffOp>, remoteOps: seq<DiffOp>, i: int, j: int) {
    && 0 <= i < |localOps| && 0 <= j < |remoteOps|
    && Moves(localOps[i], localOps[i].oldStart)
    && remoteOps[j].oldStart == remoteOps[j].oldEnd == localOps[i].oldStart
  }

  lemma {:induction false} InsertionNotSkipped(ops: seq<DiffOp>, k: nat)
    requires NoEmptyOps(ops) && k < |ops| && ops[k].oldStart == ops[k].oldEnd
    ensures !Skipped(ops[k])
  {
  }

  lemma {:induction false} CleanIff(base: seq<Line>, local: seq<Line>, remote: seq<Line>,
                                    localOps: seq<DiffOp>, remoteOps: seq<DiffOp>, inp: Input)
    requires ProperDiff(localOps, base, local) && ProperDiff(remoteOps, base, remote)
    requires inp.base == base && inp.local == EditsOf(localOps, local) && inp.remote == EditsOf(remoteOps, remote)
    ensures Clean(inp) <==>
            && !AnyOverlap(inp.local, inp.remote)
            && (forall i, j :: !Shadowed(localOps, remoteOps, i, j))
  {
    hide Tiles, Skipped, EditsOf, NoEmptyOps, AnyOverlap;
    if i, j :| Shadowed(localOps, remoteOps, i, j) {
      InsertionNotSkipped(remoteOps, j);
      EditOfOp(localOps, local, i);
      EditOfOp(remoteOps, remote, j);
      var a :| 0 <= a < |inp.local| && inp.local[a] == EditOf(localOps[i], local);
      var b :| 0 <= b < |inp.remote| && inp.remote[b] == EditOf(remoteOps[j], remote);
    }
    forall a, b | 0 <= a < |inp.local| && 0 <= b < |inp.remote| && inp.local[a].start < inp.local[a].end
                  && inp.remote[b].start == inp.remote[b].end == inp.local[a].start
      ensures exists i, j :: Shadowed(localOps, remoteOps, i, j)
    {
      var i := OpOfEdit(localOps, local, inp.local[a]);
      var j := OpOfEdit(remoteOps, remote, inp.remote[b]);
      assert Shadowed(localOps, remoteOps, i, j);
    }
  }

  /** Two diffs are merged without conflict, to the end and with every line in its place, exactly
      when no base line is edited or shifted on both sides and no remote insertion is shadowed. */
  lemma {:induction false} AutomaticMergeIff(base: seq<Line>, local: seq<Line>, remote: seq<Line>,
                                             localOps: seq<DiffOp>, remoteOps: seq<DiffOp>, inp: Input)
    requires ProperDiff(localOps, base, local) && ProperDiff(remoteOps, base, remote)
    requires inp.base == base && inp.local == EditsOf(localOps, local) && inp.remote == EditsOf(remoteOps, remote)
    ensures Terminates(inp) && inp.regions == [] <==>
            && (forall x :: !(Moved(localOps, x) && Moved(remoteOps, x)))
            && (forall i, j :: !Shadowed(localOps, remoteOps, i, j))
  {
    hide ProperDiff, Terminates, Clean, Moved, Shadowed, EditsOf;
    ConflictsIff(base, local, remote, localOps, remoteOps);
    CleanIff(base, local, remote, localOps, remoteOps, inp);
    RegionsIffOverlap(inp.local, inp.remote, inp.regions);
    if inp.regions == [] {
      NonOverlappingMergeEndsIff(inp);
    }
  }
}
