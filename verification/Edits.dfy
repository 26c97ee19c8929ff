/** Edit lists of a three-way merge: how a diff becomes edits, and what applying edits means. */
module Edits {

  /** One line of text together with its trailing newline, if it has one. */
  type Line = string

  /** Replaces the base lines `start..end` by `lines`; an insertion has `start == end`. */
  datatype Edit = Edit(start: nat, end: nat, lines: seq<Line>)

  datatype OpTag = Equal | Delete | Insert | Replace

  /** One diff operation: base lines `oldStart..oldEnd` became side lines `newStart..newEnd`. */
  datatype DiffOp = DiffOp(tag: OpTag, oldStart: nat, oldEnd: nat, newStart: nat, newEnd: nat)

  /** Edits lie inside a base of `n` lines, in order and without overlapping each other. */
  ghost predicate WellFormed(es: seq<Edit>, n: nat) {
    && (forall i :: 0 <= i < |es| ==> es[i].start <= es[i].end <= n)
    && (forall i, j :: 0 <= i < j < |es| ==> es[i].end <= es[j].start)
  }

  /** What a line diff guarantees: from base line `o` and side line `n` on, the
      operations tile both texts, and an `Equal` operation pairs equal lines. */
  ghost predicate Tiles(ops: seq<DiffOp>, base: seq<Line>, side: seq<Line>, o: nat, n: nat)
    requires o <= |base| && n <= |side|
  {
    if ops == [] then
      o == |base| && n == |side|
    else
      var op := ops[0];
      && op.oldStart == o <= op.oldEnd <= |base|
      && op.newStart == n <= op.newEnd <= |side|
      && (op.tag == Equal ==> base[o..op.oldEnd] == side[n..op.newEnd])
      && Tiles(ops[1..], base, side, op.oldEnd, op.newEnd)
  }

  /** Only an `Equal` run that kept its line numbers is left out of the edit list. */
  predicate Skipped(op: DiffOp) {
    op.oldStart == op.newStart && op.oldEnd == op.newEnd && op.tag == Equal
  }

  predicate NewRangesIn(ops: seq<DiffOp>, side: seq<Line>) {
    forall i :: 0 <= i < |ops| ==> ops[i].newStart <= ops[i].newEnd <= |side|
  }

  ghost function EditsOf(ops: seq<DiffOp>, side: seq<Line>): seq<Edit>
    requires NewRangesIn(ops, side)
  {
    if ops == [] then []
    else
      var op := ops[0];
      var rest := EditsOf(ops[1..], side);
      if Skipped(op) then rest
      else [Edit(op.oldStart, op.oldEnd, side[op.newStart..op.newEnd])] + rest
  }

  /** Builds the edit list of one side from its diff. */
  method FromDiff(ops: seq<DiffOp>, side: seq<Line>) returns (edits: seq<Edit>)
    requires NewRangesIn(ops, side)
    ensures edits == EditsOf(ops, side)
  {
    edits := [];
    for i := 0 to |ops|
      invariant edits + EditsOf(ops[i..], side) == EditsOf(ops, side)
    {
      if !Skipped(ops[i]) {
        var lines := side[ops[i].newStart..ops[i].newEnd];
        edits := edits + [Edit(ops[i].oldStart, ops[i].oldEnd, lines)];
      }
      assert ops[i..][1..] == ops[i + 1..];
    }
  }

  /** The base text from line `pos` on, with the edits applied. */
  ghost function Patch(base: seq<Line>, es: seq<Edit>, pos: nat): seq<Line>
    requires WellFormed(es, |base|)
    requires pos <= |base| && (es != [] ==> pos <= es[0].start)
  {
    if es == [] then base[pos..]
    else base[pos..es[0].start] + es[0].lines + Patch(base, es[1..], es[0].end)
  }

  lemma {:induction false} TilesInRange(ops: seq<DiffOp>, base: seq<Line>, side: seq<Line>, o: nat, n: nat)
    requires o <= |base| && n <= |side| && Tiles(ops, base, side, o, n)
    ensures NewRangesIn(ops, side)
  {
    if ops != [] {
      TilesInRange(ops[1..], base, side, ops[0].oldEnd, ops[0].newEnd);
      assert forall i :: 0 < i < |ops| ==> ops[i] == ops[1..][i - 1];
    }
  }

  /** The edits of a diff are well formed, and applying them to the base rebuilds the
      side, although shifted `Equal` runs turn into edits that replace lines by themselves. */
  lemma {:induction false} PatchRebuildsSide(ops: seq<DiffOp>, base: seq<Line>, side: seq<Line>, o: nat, n: nat)
    requires o <= |base| && n <= |side| && Tiles(ops, base, side, o, n)
    ensures NewRangesIn(ops, side)
    ensures var es := EditsOf(ops, side);
            WellFormed(es, |base|) && (es != [] ==> o <= es[0].start)
    ensures Patch(base, EditsOf(ops, side), o) == side[n..]
  {
    TilesInRange(ops, base, side, o, n);
    if ops != [] {
      var op := ops[0];
      PatchRebuildsSide(ops[1..], base, side, op.oldEnd, op.newEnd);
      var rest := EditsOf(ops[1..], side);
      assert side[n..] == side[n..op.newEnd] + side[op.newEnd..];
      if Skipped(op) {
        PatchEarlier(base, rest, o, op.oldEnd);
      } else {
        WellFormedCons(Edit(op.oldStart, op.oldEnd, side[op.newStart..op.newEnd]), rest, |base|);
        PatchCons(base, Edit(op.oldStart, op.oldEnd, side[op.newStart..op.newEnd]), rest);
      }
    }
  }

  lemma {:induction false} WellFormedCons(e: Edit, es: seq<Edit>, n: nat)
    requires WellFormed(es, n) && e.start <= e.end <= n
    requires es != [] ==> e.end <= es[0].start
    ensures WellFormed([e] + es, n)
  {
    var all := [e] + es;
    forall i, j | 0 <= i < j < |all|
      ensures all[i].end <= all[j].start
    {
      assert all[j] == es[j - 1];
      if i > 0 {
        assert all[i] == es[i - 1];
      } else if j > 1 {
        assert es[0].end <= es[j - 1].start;
      }
    }
  }

  lemma {:induction false} PatchCons(base: seq<Line>, e: Edit, es: seq<Edit>)
    requires WellFormed(es, |base|) && WellFormed([e] + es, |base|)
    requires e.start <= e.end <= |base|
    requires es != [] ==> e.end <= es[0].start
    ensures Patch(base, [e] + es, e.start) == e.lines + Patch(base, es, e.end)
  {
    assert ([e] + es)[1..] == es;
    assert base[e.start..e.start] == [];
  }

  /** Starting earlier only adds the base lines in between. */
  lemma {:induction false} PatchEarlier(base: seq<Line>, es: seq<Edit>, from: nat, to: nat)
    requires WellFormed(es, |base|)
    requires from <= to <= |base| && (es != [] ==> to <= es[0].start)
    ensures Patch(base, es, from) == base[from..to] + Patch(base, es, to)
  {
    if es == [] {
      assert base[from..] == base[from..to] + base[to..];
    } else {
      assert base[from..es[0].start] == base[from..to] + base[to..es[0].start];
      Regroup(base[from..to], base[to..es[0].start], es[0].lines);
      Regroup(base[from..to], base[to..es[0].start] + es[0].lines, Patch(base, es[1..], es[0].end));
    }
  }

  lemma {:induction false} Regroup(a: seq<Line>, b: seq<Line>, c: seq<Line>)
    ensures (a + b) + c == a + (b + c)
  {
  }
}
