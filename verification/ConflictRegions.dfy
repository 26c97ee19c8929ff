/** Conflict regions: the maximal stretches of base lines that both sides edited. */
module ConflictRegions {
  import opened Edits

  datatype Region = Region(start: nat, end: nat)

  predicate Overlaps(l: Edit, r: Edit) {
    l.start < r.end && r.start < l.end
  }

  function Hull(l: Edit, r: Edit): Region {
    Region(if l.start < r.start then l.start else r.start, if l.end > r.end then l.end else r.end)
  }

  ghost predicate Holds(g: Region, x: int) {
    g.start <= x < g.end
  }

  ghost predicate InRegion(regions: seq<Region>, x: int) {
    exists k :: 0 <= k < |regions| && Holds(regions[k], x)
  }

  /** Some overlapping local/remote pair spans base line `x`. */
  ghost predicate InHull(local: seq<Edit>, remote: seq<Edit>, x: int) {
    exists i, j :: 0 <= i < |local| && 0 <= j < |remote|
                && Overlaps(local[i], remote[j]) && Holds(Hull(local[i], remote[j]), x)
  }

  /** Non-empty intervals in order, with at least one line between neighbours. */
  ghost predicate Separated(regions: seq<Region>) {
    && (forall k :: 0 <= k < |regions| ==> regions[k].start < regions[k].end)
    && (forall k, m :: 0 <= k < m < |regions| ==> regions[k].end < regions[m].start)
  }

  /** The reference meaning of the conflict regions of two edit lists. */
  ghost predicate IsRegions(local: seq<Edit>, remote: seq<Edit>, regions: seq<Region>) {
    && Separated(regions)
    && (forall x: int :: InRegion(regions, x) <==> InHull(local, remote, x))
  }

  ghost predicate SortedByStart(s: seq<Region>) {
    forall i, j :: 0 <= i < j < |s| ==> s[i].start <= s[j].start
  }

  /** The library's stable sort by key, as insertion into a sorted list. */
  function InsertByStart(s: seq<Region>, g: Region): (r: seq<Region>)
    requires SortedByStart(s)
    ensures SortedByStart(r)
    ensures |r| == |s| + 1
    ensures forall h :: h in r <==> h == g || h in s
  {
    if s == [] || s[|s| - 1].start <= g.start then s + [g]
    else
      var front := s[..|s| - 1];
      var last := s[|s| - 1];
      assert s == front + [last];
      var inserted := InsertByStart(front, g);
      assert forall h :: h in front ==> h.start <= last.start;
      assert forall i :: 0 <= i < |inserted| ==> inserted[i] in inserted;
      inserted + [last]
  }

  function SortByStart(s: seq<Region>): (r: seq<Region>)
    ensures SortedByStart(r)
    ensures forall h :: h in r <==> h in s
  {
    if s == [] then []
    else
      assert s == s[..|s| - 1] + [s[|s| - 1]];
      InsertByStart(SortByStart(s[..|s| - 1]), s[|s| - 1])
  }

  method OverlapHulls(local: seq<Edit>, remote: seq<Edit>) returns (hulls: seq<Region>)
    ensures forall g :: g in hulls ==>
              exists i, j :: 0 <= i < |local| && 0 <= j < |remote|
                          && Overlaps(local[i], remote[j]) && g == Hull(local[i], remote[j])
    ensures forall i, j :: 0 <= i < |local| && 0 <= j < |remote| && Overlaps(local[i], remote[j]) ==>
              Hull(local[i], remote[j]) in hulls
  {
    hulls := [];
    for a := 0 to |local|
      invariant forall g :: g in hulls ==>
                  exists i, j :: 0 <= i < |local| && 0 <= j < |remote|
                              && Overlaps(local[i], remote[j]) && g == Hull(local[i], remote[j])
      invariant forall i, j :: 0 <= i < a && 0 <= j < |remote| && Overlaps(local[i], remote[j]) ==>
                  Hull(local[i], remote[j]) in hulls
    {
      for b := 0 to |remote|
        invariant forall g :: g in hulls ==>
                    exists i, j :: 0 <= i < |local| && 0 <= j < |remote|
                                && Overlaps(local[i], remote[j]) && g == Hull(local[i], remote[j])
        invariant forall i, j :: 0 <= i < a && 0 <= j < |remote| && Overlaps(local[i], remote[j]) ==>
                    Hull(local[i], remote[j]) in hulls
        invariant forall j :: 0 <= j < b && Overlaps(local[a], remote[j]) ==>
                    Hull(local[a], remote[j]) in hulls
      {
        if Overlaps(local[a], remote[b]) {
          hulls := hulls + [Hull(local[a], remote[b])];
        }
      }
    }
  }

  lemma GrowLast(merged: seq<Region>, g: Region, grown: Region)
    requires |merged| > 0
    requires var last := merged[|merged| - 1];
             && last.start <= g.start <= last.end && last.start < last.end && g.start < g.end
             && grown == Region(last.start, if last.end > g.end then last.end else g.end)
    ensures forall x: int :: InRegion(merged[..|merged| - 1] + [grown], x) <==> InRegion(merged, x) || Holds(g, x)
  {
    var front, last := merged[..|merged| - 1], merged[|merged| - 1];
    assert merged == front + [last];
    InRegionSnoc(front, last);
    InRegionSnoc(front, grown);
  }

  /** Merges touching or overlapping intervals, growing the last one in place. */
  method Coalesce(sorted: seq<Region>) returns (merged: seq<Region>)
    requires SortedByStart(sorted)
    requires forall i :: 0 <= i < |sorted| ==> sorted[i].start < sorted[i].end
    ensures Separated(merged)
    ensures forall x: int :: InRegion(merged, x) <==> InRegion(sorted, x)
  {
    merged := [];
    for i := 0 to |sorted|
      invariant Separated(merged)
      invariant forall k :: 0 <= k < |merged| && i < |sorted| ==> merged[k].start <= sorted[i].start
      invariant forall x: int :: InRegion(merged, x) <==> InRegion(sorted[..i], x)
    {
      var g := sorted[i];
      assert sorted[..i + 1] == sorted[..i] + [g];
      InRegionSnoc(sorted[..i], g);
      if |merged| > 0 && g.start <= merged[|merged| - 1].end {
        var last := merged[|merged| - 1];
        var grown := Region(last.start, if last.end > g.end then last.end else g.end);
        GrowLast(merged, g, grown);
        merged := merged[..|merged| - 1] + [grown];
      } else {
        InRegionSnoc(merged, g);
        merged := merged + [g];
      }
    }
    assert sorted[..|sorted|] == sorted;
  }

  lemma InRegionSnoc(s: seq<Region>, g: Region)
    ensures forall x: int :: InRegion(s + [g], x) <==> InRegion(s, x) || Holds(g, x)
  {
    var t := s + [g];
    forall x: int
      ensures InRegion(t, x) <==> InRegion(s, x) || Holds(g, x)
    {
      assert t[|s|] == g;
      if InRegion(s, x) {
        var k :| 0 <= k < |s| && Holds(s[k], x);
        assert Holds(t[k], x);
      }
    }
  }

  /** Collects the hulls of all overlapping pairs, sorts them and coalesces them. */
  method FindConflictRegions(local: seq<Edit>, remote: seq<Edit>) returns (regions: seq<Region>)
    ensures IsRegions(local, remote, regions)
  {
    var hulls := OverlapHulls(local, remote);
    var sorted := SortByStart(hulls);
    forall i | 0 <= i < |sorted|
      ensures sorted[i].start < sorted[i].end
    {
      assert sorted[i] in hulls;
    }
    regions := Coalesce(sorted);
    forall x: int
      ensures InRegion(sorted, x) <==> InHull(local, remote, x)
    {
      if InRegion(sorted, x) {
        var k :| 0 <= k < |sorted| && Holds(sorted[k], x);
        assert sorted[k] in hulls;
      }
      if InHull(local, remote, x) {
        var i, j :| 0 <= i < |local| && 0 <= j < |remote|
                 && Overlaps(local[i], remote[j]) && Holds(Hull(local[i], remote[j]), x);
        assert Hull(local[i], remote[j]) in sorted;
      }
    }
  }

  /** Being the regions of two edit lists determines the regions. */
  lemma {:induction false} RegionsUnique(local: seq<Edit>, remote: seq<Edit>, a: seq<Region>, b: seq<Region>)
    requires IsRegions(local, remote, a) && IsRegions(local, remote, b)
    ensures a == b
  {
    SameIntervals(a, b, |a|);
    SameIntervals(b, a, |b|);
    if |a| < |b| {
      assert Holds(b[|a|], b[|a|].start);
      assert InRegion(b, b[|a|].start);
    } else if |b| < |a| {
      assert Holds(a[|b|], a[|b|].start);
      assert InRegion(a, a[|b|].start);
    }
  }

  /** Separated intervals with the same union agree one by one, as far as both go. */
  lemma {:induction false} SameIntervals(a: seq<Region>, b: seq<Region>, n: nat)
    requires Separated(a) && Separated(b)
    requires forall x: int :: InRegion(a, x) <==> InRegion(b, x)
    requires n <= |a|
    ensures forall k :: 0 <= k < n && k < |b| ==> a[k] == b[k]
  {
    if n > 0 {
      SameIntervals(a, b, n - 1);
      var k := n - 1;
      if k < |b| {
        StartAgrees(a, b, k);
        StartAgrees(b, a, k);
        EndAgrees(a, b, k);
        EndAgrees(b, a, k);
      }
    }
  }

  lemma StartAgrees(a: seq<Region>, b: seq<Region>, k: nat)
    requires Separated(a) && Separated(b) && k < |a| && k < |b|
    requires forall x: int :: InRegion(a, x) <==> InRegion(b, x)
    requires forall m :: 0 <= m < k ==> a[m] == b[m]
    ensures b[k].start <= a[k].start
  {
    assert Holds(a[k], a[k].start);
    assert InRegion(a, a[k].start);
    var m :| 0 <= m < |b| && Holds(b[m], a[k].start);
  }

  lemma EndAgrees(a: seq<Region>, b: seq<Region>, k: nat)
    requires Separated(a) && Separated(b) && k < |a| && k < |b|
    requires forall x: int :: InRegion(a, x) <==> InRegion(b, x)
    requires a[k].start == b[k].start
    ensures a[k].end <= b[k].end
  {
    if b[k].end < a[k].end {
      assert Holds(a[k], b[k].end);
      assert InRegion(a, b[k].end);
    }
  }

  /** An overlapping pair lies inside one single region. */
  lemma PairInOneRegion(local: seq<Edit>, remote: seq<Edit>, regions: seq<Region>, i: nat, j: nat) returns (k: nat)
    requires IsRegions(local, remote, regions)
    requires i < |local| && j < |remote| && Overlaps(local[i], remote[j])
    ensures k < |regions|
    ensures regions[k].start <= Hull(local[i], remote[j]).start
    ensures Hull(local[i], remote[j]).end <= regions[k].end
  {
    var h := Hull(local[i], remote[j]);
    assert Holds(h, h.start);
    assert InHull(local, remote, h.start);
    k :| 0 <= k < |regions| && Holds(regions[k], h.start);
    var e := regions[k].end;
    if e < h.end {
      assert Holds(h, e);
      assert InHull(local, remote, e);
    }
  }

  ghost predicate Straddles(e: Edit, x: int) {
    e.start < x < e.end
  }

  /** No edit of either side reaches across a region's start or end. */
  lemma {:induction false} NothingStraddles(local: seq<Edit>, remote: seq<Edit>, regions: seq<Region>, n: nat, k: nat)
    requires WellFormed(local, n) && WellFormed(remote, n)
    requires IsRegions(local, remote, regions) && k < |regions|
    ensures regions[k].end <= n
    ensures forall i :: 0 <= i < |local| ==>
              !Straddles(local[i], regions[k].start) && !Straddles(local[i], regions[k].end)
    ensures forall j :: 0 <= j < |remote| ==>
              !Straddles(remote[j], regions[k].start) && !Straddles(remote[j], regions[k].end)
  {
    var i0, j0 := PairStartingAt(local, remote, regions, k);
    var i1, j1 := PairEndingAt(local, remote, regions, k);
    var g := regions[k];
    forall i | 0 <= i < |local|
      ensures !Straddles(local[i], g.start) && !Straddles(local[i], g.end)
    {
      if Straddles(local[i], g.start) {
        assert Overlaps(local[i], remote[j0]);
        var m := PairInOneRegion(local, remote, regions, i, j0);
      }
      if Straddles(local[i], g.end) {
        assert Overlaps(local[i], remote[j1]);
        var m := PairInOneRegion(local, remote, regions, i, j1);
      }
    }
    forall j | 0 <= j < |remote|
      ensures !Straddles(remote[j], g.start) && !Straddles(remote[j], g.end)
    {
      if Straddles(remote[j], g.start) {
        assert Overlaps(local[i0], remote[j]);
        var m := PairInOneRegion(local, remote, regions, i0, j);
      }
      if Straddles(remote[j], g.end) {
        assert Overlaps(local[i1], remote[j]);
        var m := PairInOneRegion(local, remote, regions, i1, j);
      }
    }
  }

  /** Some overlapping pair begins exactly where region `k` begins. */
  lemma PairStartingAt(local: seq<Edit>, remote: seq<Edit>, regions: seq<Region>, k: nat) returns (i: nat, j: nat)
    requires IsRegions(local, remote, regions) && k < |regions|
    ensures i < |local| && j < |remote| && Overlaps(local[i], remote[j])
    ensures Hull(local[i], remote[j]).start == regions[k].start
  {
    var x := regions[k].start;
    assert Holds(regions[k], x);
    assert InRegion(regions, x);
    i, j :| 0 <= i < |local| && 0 <= j < |remote|
         && Overlaps(local[i], remote[j]) && Holds(Hull(local[i], remote[j]), x);
    var m := PairInOneRegion(local, remote, regions, i, j);
  }

  /** Some overlapping pair ends exactly where region `k` ends. */
  lemma PairEndingAt(local: seq<Edit>, remote: seq<Edit>, regions: seq<Region>, k: nat) returns (i: nat, j: nat)
    requires IsRegions(local, remote, regions) && k < |regions|
    ensures i < |local| && j < |remote| && Overlaps(local[i], remote[j])
    ensures Hull(local[i], remote[j]).end == regions[k].end
  {
    var x := regions[k].end - 1;
    assert Holds(regions[k], x);
    assert InRegion(regions, x);
    i, j :| 0 <= i < |local| && 0 <= j < |remote|
         && Overlaps(local[i], remote[j]) && Holds(Hull(local[i], remote[j]), x);
    var m := PairInOneRegion(local, remote, regions, i, j);
  }
}
