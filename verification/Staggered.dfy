/** Staggered retention: which archived versions of a file survive pruning. */
module Staggered {

  const DAY := 86400
  const DEFAULT_MAX_AGE := 365 * DAY

  datatype Interval = Interval(step: int, end: int)

  /** One archived version: its file name and its age in seconds. */
  datatype Version = Version(name: string, age: int)

  function Intervals(maxAge: int): seq<Interval> {
    [Interval(30, 3600), Interval(3600, DAY), Interval(DAY, 30 * DAY), Interval(7 * DAY, maxAge)]
  }

  function StepIn(intervals: seq<Interval>, age: int): int {
    if intervals == [] then 0
    else if age < intervals[0].end then intervals[0].step
    else StepIn(intervals[1..], age)
  }

  function FindStep(maxAge: int, age: int): int {
    StepIn(Intervals(maxAge), age)
  }

  /** The window table written out. */
  lemma {:induction false} FindStepTable(maxAge: int, age: int)
    ensures FindStep(maxAge, age) ==
            if age < 3600 then 30 else if age < DAY then 3600 else if age < 30 * DAY then DAY
            else if age < maxAge then 7 * DAY else 0
  {
    var i := Intervals(maxAge);
    assert i[1..][1..][1..][1..] == [];
    assert StepIn(i[1..][1..][1..], age) == if age < maxAge then 7 * DAY else 0;
    assert StepIn(i[1..][1..], age) == if age < 30 * DAY then DAY else StepIn(i[1..][1..][1..], age);
    assert StepIn(i[1..], age) == if age < DAY then 3600 else StepIn(i[1..][1..], age);
  }

  predicate Expired(maxAge: int, age: int) {
    age > maxAge && maxAge > 0
  }

  /** Whether a version is kept, given the version kept last. */
  predicate Keeps(maxAge: int, kept: seq<Version>, age: int) {
    && !Expired(maxAge, age)
    && (kept != [] ==>
          var step := FindStep(maxAge, age);
          step > 0 && (age - kept[|kept| - 1].age) / step > 0)
  }

  ghost predicate Sorted(vs: seq<Version>) {
    forall i, j :: 0 <= i < j < |vs| ==> vs[i].age <= vs[j].age
  }

  /** The versions kept out of a list in order of age. */
  ghost function KeptOf(maxAge: int, vs: seq<Version>): seq<Version> {
    if vs == [] then []
    else
      var kept := KeptOf(maxAge, vs[..|vs| - 1]);
      if Keeps(maxAge, kept, vs[|vs| - 1].age) then kept + [vs[|vs| - 1]] else kept
  }

  ghost function RemovedOf(maxAge: int, vs: seq<Version>): seq<string> {
    if vs == [] then []
    else
      var front := vs[..|vs| - 1];
      if Keeps(maxAge, KeptOf(maxAge, front), vs[|vs| - 1].age) then RemovedOf(maxAge, front)
      else RemovedOf(maxAge, front) + [vs[|vs| - 1].name]
  }

  /** The library's stable sort by age. */
  function InsertByAge(vs: seq<Version>, v: Version): seq<Version> {
    if vs == [] || vs[|vs| - 1].age <= v.age then vs + [v]
    else InsertByAge(vs[..|vs| - 1], v) + [vs[|vs| - 1]]
  }

  function SortByAge(vs: seq<Version>): seq<Version> {
    if vs == [] then [] else InsertByAge(SortByAge(vs[..|vs| - 1]), vs[|vs| - 1])
  }

  lemma {:induction false} SortedSnoc(vs: seq<Version>, v: Version)
    requires Sorted(vs) && (vs != [] ==> vs[|vs| - 1].age <= v.age)
    ensures Sorted(vs + [v])
  {
  }

  lemma {:induction false} SortedFront(vs: seq<Version>)
    requires Sorted(vs) && vs != []
    ensures Sorted(vs[..|vs| - 1]) && (|vs| > 1 ==> vs[|vs| - 2].age <= vs[|vs| - 1].age)
  {
  }

  lemma {:induction false} InsertSorted(vs: seq<Version>, v: Version)
    requires Sorted(vs)
    ensures var r := InsertByAge(vs, v);
            && Sorted(r) && r != []
            && r[|r| - 1].age == if vs == [] || vs[|vs| - 1].age <= v.age then v.age else vs[|vs| - 1].age
  {
    if vs == [] || vs[|vs| - 1].age <= v.age {
      SortedSnoc(vs, v);
    } else {
      var front, last := vs[..|vs| - 1], vs[|vs| - 1];
      SortedFront(vs);
      hide Sorted;
      InsertSorted(front, v);
      SortedSnoc(InsertByAge(front, v), last);
    }
  }

  lemma {:induction false} InsertCounts(vs: seq<Version>, v: Version)
    ensures multiset(InsertByAge(vs, v)) == multiset(vs) + multiset{v}
  {
    if vs != [] && vs[|vs| - 1].age > v.age {
      InsertCounts(vs[..|vs| - 1], v);
      assert vs == vs[..|vs| - 1] + [vs[|vs| - 1]];
    }
  }

  lemma {:induction false} InsertSorts(vs: seq<Version>, v: Version)
    requires Sorted(vs)
    ensures Sorted(InsertByAge(vs, v)) && multiset(InsertByAge(vs, v)) == multiset(vs) + multiset{v}
  {
    hide Sorted, InsertByAge;
    InsertSorted(vs, v);
    InsertCounts(vs, v);
  }

  lemma {:induction false} SortByAgeSorts(vs: seq<Version>)
    ensures Sorted(SortByAge(vs)) && multiset(SortByAge(vs)) == multiset(vs)
  {
    if vs != [] {
      var front, last := vs[..|vs| - 1], vs[|vs| - 1];
      SortByAgeSorts(front);
      InsertSorts(SortByAge(front), last);
      hide Sorted, InsertByAge;
      assert vs == front + [last];
    }
  }

  /** The versions of one file that are left after pruning; groups of one are not looked at. */
  ghost function Survivors(maxAge: int, vs: seq<Version>): seq<Version> {
    if |vs| <= 1 then vs else KeptOf(maxAge, SortByAge(vs))
  }

  method PruneGroup(maxAge: int, group: seq<Version>) returns (toRemove: seq<string>)
    ensures toRemove == if |group| <= 1 then [] else RemovedOf(maxAge, SortByAge(group))
  {
    hide Keeps;
    toRemove := [];
    if |group| <= 1 {
      return;
    }
    var versions := SortByAge(group);
    var hasPrev, prevAge := false, 0;
    ghost var kept: seq<Version> := [];
    for i := 0 to |versions|
      invariant kept == KeptOf(maxAge, versions[..i])
      invariant toRemove == RemovedOf(maxAge, versions[..i])
      invariant hasPrev == (kept != []) && (hasPrev ==> prevAge == kept[|kept| - 1].age)
    {
      assert versions[..i + 1][..i] == versions[..i];
      var v := versions[i];
      KeepsMeans(maxAge, kept, hasPrev, prevAge, v.age);
      if KeepsAfter(maxAge, hasPrev, prevAge, v.age) {
        kept := kept + [v];
        hasPrev, prevAge := true, v.age;
      } else {
        toRemove := toRemove + [v.name];
      }
    }
    assert versions[..|versions|] == versions;
  }

  /** With different file names, exactly the versions that do not survive are removed. */
  lemma {:induction false} RemovedIff(maxAge: int, vs: seq<Version>, v: Version)
    requires v in vs && forall i, j :: 0 <= i < j < |vs| ==> vs[i].name != vs[j].name
    ensures v.name in RemovedOf(maxAge, vs) <==> v !in KeptOf(maxAge, vs)
  {
    hide Keeps;
    var front, last := vs[..|vs| - 1], vs[|vs| - 1];
    assert vs == front + [last];
    KeptSpaced(maxAge, front);
    RemovedNames(maxAge, front);
    if v in front {
      RemovedIff(maxAge, front, v);
      assert v.name != last.name;
    } else {
      assert forall w :: w in front ==> w.name != last.name;
    }
  }

  lemma {:induction false} RemovedNames(maxAge: int, vs: seq<Version>)
    ensures forall n :: n in RemovedOf(maxAge, vs) ==> exists w :: w in vs && w.name == n
  {
    hide Keeps;
    if vs != [] {
      var front, last := vs[..|vs| - 1], vs[|vs| - 1];
      assert vs == front + [last];
      RemovedNames(maxAge, front);
      forall n | n in RemovedOf(maxAge, vs)
        ensures exists w :: w in vs && w.name == n
      {
        if n in RemovedOf(maxAge, front) {
          var w :| w in front && w.name == n;
          assert w in vs;
        } else {
          assert last in vs && last.name == n;
        }
      }
    }
  }

  /** The decision of the pruning loop, in terms of the previously kept age. */
  predicate KeepsAfter(maxAge: int, hasPrev: bool, prevAge: int, age: int) {
    if Expired(maxAge, age) then false
    else if !hasPrev then true
    else
      var step := FindStep(maxAge, age);
      step > 0 && (age - prevAge) / step > 0
  }

  lemma {:induction false} KeepsMeans(maxAge: int, kept: seq<Version>, hasPrev: bool, prevAge: int, age: int)
    requires hasPrev == (kept != []) && (hasPrev ==> prevAge == kept[|kept| - 1].age)
    ensures KeepsAfter(maxAge, hasPrev, prevAge, age) == Keeps(maxAge, kept, age)
  {
  }

  // ---- What is kept ----

  lemma {:induction false} DivideStep(d: int, step: int)
    requires step > 0
    ensures d / step > 0 <==> d >= step
  {
  }

  /** Consecutive kept versions are at least the older one's step apart. */
  ghost predicate Spaced(maxAge: int, kept: seq<Version>) {
    && (forall i :: 0 <= i < |kept| ==> !Expired(maxAge, kept[i].age))
    && (forall i :: 0 < i < |kept| ==>
          0 < FindStep(maxAge, kept[i].age) <= kept[i].age - kept[i - 1].age)
  }

  lemma {:induction false} KeptSpaced(maxAge: int, vs: seq<Version>)
    ensures Spaced(maxAge, KeptOf(maxAge, vs))
    ensures forall v :: v in KeptOf(maxAge, vs) ==> v in vs
  {
    hide FindStep, Expired;
    if vs != [] {
      var front, last := vs[..|vs| - 1], vs[|vs| - 1];
      KeptSpaced(maxAge, front);
      assert vs == front + [last];
      var kept := KeptOf(maxAge, front);
      if Keeps(maxAge, kept, last.age) && kept != [] {
        DivideStep(last.age - kept[|kept| - 1].age, FindStep(maxAge, last.age));
      }
    }
  }

  lemma {:induction false} SpacedFront(maxAge: int, kept: seq<Version>)
    requires Spaced(maxAge, kept) && kept != []
    ensures Spaced(maxAge, kept[..|kept| - 1])
  {
    hide FindStep, Expired;
    var front := kept[..|kept| - 1];
    assert forall i :: 0 <= i < |front| ==> front[i] == kept[i];
  }

  lemma {:induction false} SpacedKeeps(maxAge: int, vs: seq<Version>)
    requires Spaced(maxAge, vs) && vs != []
    ensures Keeps(maxAge, vs[..|vs| - 1], vs[|vs| - 1].age)
  {
    hide FindStep, Expired;
    var n := |vs| - 1;
    if n > 0 {
      DivideStep(vs[n].age - vs[n - 1].age, FindStep(maxAge, vs[n].age));
    }
  }

  /** Well-spaced versions are all kept. */
  lemma {:induction false} SpacedAllKept(maxAge: int, vs: seq<Version>)
    requires Spaced(maxAge, vs)
    ensures KeptOf(maxAge, vs) == vs
  {
    hide Spaced, Keeps;
    if vs != [] {
      SpacedFront(maxAge, vs);
      SpacedKeeps(maxAge, vs);
      SpacedAllKept(maxAge, vs[..|vs| - 1]);
      assert vs == vs[..|vs| - 1] + [vs[|vs| - 1]];
    }
  }

  /** With a limit on age, nothing older is kept, and the youngest version that is not older is kept
      first; without one, the youngest is. */
  lemma {:induction false} YoungestKept(maxAge: int, vs: seq<Version>, i: nat)
    requires i < |vs| && (maxAge > 0 ==> vs[i].age <= maxAge)
    requires forall j :: 0 <= j < i ==> maxAge > 0 && vs[j].age > maxAge
    ensures KeptOf(maxAge, vs) != [] && KeptOf(maxAge, vs)[0] == vs[i]
    ensures forall v :: v in KeptOf(maxAge, vs) && maxAge > 0 ==> v.age <= maxAge
  {
    hide FindStep;
    FirstUnexpiredKept(maxAge, vs, i);
    KeptSpaced(maxAge, vs);
  }

  lemma {:induction false} FirstUnexpiredKept(maxAge: int, vs: seq<Version>, i: nat)
    requires i < |vs| && !Expired(maxAge, vs[i].age)
    requires forall j :: 0 <= j < i ==> Expired(maxAge, vs[j].age)
    ensures KeptOf(maxAge, vs) != [] && KeptOf(maxAge, vs)[0] == vs[i]
  {
    hide FindStep, Expired;
    var n := |vs| - 1;
    if i < n {
      FirstUnexpiredKept(maxAge, vs[..n], i);
    } else {
      AllExpired(maxAge, vs[..n]);
    }
  }

  lemma {:induction false} AllExpired(maxAge: int, vs: seq<Version>)
    requires forall j :: 0 <= j < |vs| ==> Expired(maxAge, vs[j].age)
    ensures KeptOf(maxAge, vs) == []
  {
    hide FindStep, Expired;
    if vs != [] {
      AllExpired(maxAge, vs[..|vs| - 1]);
    }
  }

  /** A removed version younger than the limit lies within one step above a kept one. */
  lemma {:induction false} RemovedNearKept(maxAge: int, vs: seq<Version>, v: Version) returns (k: Version)
    requires Sorted(vs) && v in vs && v !in KeptOf(maxAge, vs) && v.age < maxAge
    ensures k in KeptOf(maxAge, vs) && 0 <= v.age - k.age < FindStep(maxAge, v.age)
  {
    hide FindStep;
    var front, last := vs[..|vs| - 1], vs[|vs| - 1];
    assert vs == front + [last];
    var kept := KeptOf(maxAge, front);
    if v in front {
      k := RemovedNearKept(maxAge, front, v);
    } else {
      FindStepTable(maxAge, v.age);
      assert kept != [];
      k := kept[|kept| - 1];
      KeptSpaced(maxAge, front);
      DivideStep(v.age - k.age, FindStep(maxAge, v.age));
    }
  }

  lemma {:induction false} InsertLast(vs: seq<Version>, v: Version)
    requires vs != [] ==> vs[|vs| - 1].age <= v.age
    ensures InsertByAge(vs, v) == vs + [v]
  {
  }

  lemma {:induction false} SortSorted(vs: seq<Version>)
    requires Sorted(vs)
    ensures SortByAge(vs) == vs
  {
    hide InsertByAge, Sorted;
    if vs != [] {
      var front, last := vs[..|vs| - 1], vs[|vs| - 1];
      SortedFront(vs);
      SortSorted(front);
      InsertLast(front, last);
      assert vs == front + [last];
    }
  }

  lemma {:induction false} SpacedSorted(maxAge: int, kept: seq<Version>)
    requires Spaced(maxAge, kept)
    ensures Sorted(kept)
  {
    hide FindStep, Expired;
    if kept != [] {
      var front := kept[..|kept| - 1];
      SpacedFront(maxAge, kept);
      SpacedSorted(maxAge, front);
      forall i, j | 0 <= i < j < |kept|
        ensures kept[i].age <= kept[j].age
      {
        if j == |kept| - 1 {
          assert kept[j - 1].age <= kept[j].age;
          assert i < j - 1 ==> front[i].age <= front[j - 1].age;
        } else {
          assert front[i].age <= front[j].age;
        }
      }
    }
  }

  /** Pruning twice at the same time removes nothing more. */
  lemma {:induction false} PruneIdempotent(maxAge: int, vs: seq<Version>)
    ensures Survivors(maxAge, Survivors(maxAge, vs)) == Survivors(maxAge, vs)
  {
    hide KeptOf, SortByAge;
    if |vs| > 1 {
      var kept := KeptOf(maxAge, SortByAge(vs));
      KeptSpaced(maxAge, SortByAge(vs));
      SpacedSorted(maxAge, kept);
      SortSorted(kept);
      SpacedAllKept(maxAge, kept);
    }
  }

  // ---- How many are kept ----

  /** The smallest age the `k`-th kept version can have. */
  function Earliest(k: nat): int {
    if k < 120 then 30 * k
    else if k < 143 then 7170 + 3600 * (k - 120)
    else if k < 172 then 172770 + DAY * (k - 143)
    else 3196770 + 7 * DAY * (k - 172)
  }

  lemma {:induction false} EarliestStep(k: nat, a: int, x: int)
    requires a >= Earliest(k)
    requires 0 < FindStep(DEFAULT_MAX_AGE, x) <= x - a
    ensures x >= Earliest(k + 1)
  {
    FindStepTable(DEFAULT_MAX_AGE, x);
  }

  lemma {:induction false} KeptNotEarlier(kept: seq<Version>, k: nat)
    requires Spaced(DEFAULT_MAX_AGE, kept) && k < |kept| && kept[0].age >= 0
    ensures kept[k].age >= Earliest(k)
  {
    hide FindStep, Earliest;
    if k == 0 {
      assert Earliest(0) == 0 by { EarliestZero(); }
    } else {
      KeptNotEarlier(kept, k - 1);
      EarliestStep(k - 1, kept[k - 1].age, kept[k].age);
    }
  }

  lemma {:induction false} EarliestZero()
    ensures Earliest(0) == 0
  {
  }

  /** With the default limit of one year and no ages in the future, a group of several
      versions keeps at most 219. */
  lemma {:induction false} AtMost219(vs: seq<Version>)
    requires |vs| > 1 && forall v :: v in vs ==> v.age >= 0
    ensures |Survivors(DEFAULT_MAX_AGE, vs)| <= 219
  {
    hide FindStep, KeptOf;
    var sorted := SortByAge(vs);
    SortByAgeSorts(vs);
    var kept := KeptOf(DEFAULT_MAX_AGE, sorted);
    KeptSpaced(DEFAULT_MAX_AGE, sorted);
    if |kept| > 219 {
      assert kept[0] in sorted && kept[0] in multiset(vs);
      KeptNotEarlier(kept, 219);
    }
  }

  /** Versions as close together as pruning tolerates. */
  function Densest(n: nat): (vs: seq<Version>)
    ensures |vs| == n && forall k :: 0 <= k < n ==> vs[k].age == Earliest(k)
  {
    seq(n, k requires 0 <= k => Version(seq(k, i => 'x'), Earliest(k)))
  }

  /** The bound is reached. */
  lemma {:induction false} Reaches219()
    ensures Survivors(DEFAULT_MAX_AGE, Densest(219)) == Densest(219)
  {
    hide KeptOf, SortByAge, Earliest, FindStep, Expired, Densest;
    var vs := Densest(219);
    forall i | 0 <= i < 219
      ensures !Expired(DEFAULT_MAX_AGE, vs[i].age)
    {
      EarliestSpaced(i);
    }
    forall i | 0 < i < 219
      ensures 0 < FindStep(DEFAULT_MAX_AGE, vs[i].age) <= vs[i].age - vs[i - 1].age
    {
      EarliestSpaced(i);
    }
    SpacedSorted(DEFAULT_MAX_AGE, vs);
    SortSorted(vs);
    SpacedAllKept(DEFAULT_MAX_AGE, vs);
  }

  lemma {:induction false} EarliestSpaced(i: nat)
    requires i < 219
    ensures !Expired(DEFAULT_MAX_AGE, Earliest(i))
    ensures 0 < i ==> 0 < FindStep(DEFAULT_MAX_AGE, Earliest(i)) <= Earliest(i) - Earliest(i - 1)
  {
    FindStepTable(DEFAULT_MAX_AGE, Earliest(i));
  }

  // ---- The oldest version ----

  /** The oldest version is measured against the last version kept before it. */
  lemma {:induction false} OldestAgainstLastKept(maxAge: int, younger: seq<Version>, oldest: Version)
    requires Sorted(younger + [oldest]) && oldest !in younger
    ensures oldest in KeptOf(maxAge, younger + [oldest]) <==>
            && !Expired(maxAge, oldest.age)
            && var kept := KeptOf(maxAge, younger);
               kept == [] || 0 < FindStep(maxAge, oldest.age) <= oldest.age - kept[|kept| - 1].age
  {
    hide FindStep, Expired;
    var vs := younger + [oldest];
    assert vs[..|vs| - 1] == younger;
    KeptSpaced(maxAge, younger);
    var kept := KeptOf(maxAge, younger);
    if kept != [] && FindStep(maxAge, oldest.age) > 0 {
      DivideStep(oldest.age - kept[|kept| - 1].age, FindStep(maxAge, oldest.age));
    }
  }

  /** The age at which the oldest version is sure to survive next to the younger ones. */
  ghost predicate FarEnough(maxAge: int, younger: seq<Version>, oldest: Version) {
    younger == [] || (
      && !Expired(maxAge, oldest.age)
      && 0 < FindStep(maxAge, oldest.age) <= oldest.age - younger[|younger| - 1].age)
  }

  lemma {:induction false} FarEnoughSurvives(maxAge: int, younger: seq<Version>, oldest: Version, sub: seq<Version>)
    requires Sorted(younger + [oldest]) && oldest !in younger && FarEnough(maxAge, younger, oldest)
    requires Sorted(sub) && multiset(sub) <= multiset(younger)
    ensures oldest in Survivors(maxAge, sub + [oldest])
  {
    hide FindStep, Expired, Sorted, Survivors;
    SubgroupSorted(younger, oldest, sub);
    FarFromAll(maxAge, sub, oldest);
  }

  lemma {:induction false} FarFromAll(maxAge: int, vs: seq<Version>, oldest: Version)
    requires Sorted(vs + [oldest]) && oldest !in vs
    requires vs != [] ==> !Expired(maxAge, oldest.age) && 0 < FindStep(maxAge, oldest.age)
    requires forall v :: v in vs ==> FindStep(maxAge, oldest.age) <= oldest.age - v.age
    ensures oldest in Survivors(maxAge, vs + [oldest])
  {
    hide FindStep, Expired, KeptOf, Sorted, Spaced, SortByAge;
    if vs != [] {
      SortSorted(vs + [oldest]);
      KeptSpaced(maxAge, vs);
      OldestAgainstLastKept(maxAge, vs, oldest);
    }
  }

  lemma {:induction false} SubgroupSorted(younger: seq<Version>, oldest: Version, sub: seq<Version>)
    requires Sorted(younger + [oldest]) && oldest !in younger && Sorted(sub) && multiset(sub) <= multiset(younger)
    ensures Sorted(sub + [oldest]) && oldest !in sub
    ensures forall v :: v in sub ==> younger != [] && v.age <= younger[|younger| - 1].age
  {
    forall v | v in sub
      ensures v in younger && v.age <= younger[|younger| - 1].age <= oldest.age
    {
      assert v in multiset(younger);
      var i :| 0 <= i < |younger| && younger[i] == v;
      var all := younger + [oldest];
      assert all[i] == v && all[|younger| - 1] == younger[|younger| - 1] && all[|younger|] == oldest;
    }
    SortedSnoc(sub, oldest);
  }

  lemma {:induction false} PairSurvives(maxAge: int, young: Version, oldest: Version)
    requires young.age <= oldest.age && young != oldest && oldest in Survivors(maxAge, [young] + [oldest])
    ensures FarEnough(maxAge, [young], oldest)
  {
    hide FindStep, Expired, KeptOf, SortByAge;
    SortSorted([young] + [oldest]);
    OldestAgainstLastKept(maxAge, [young], oldest);
    KeptSingle(maxAge, young);
    YoungerUnexpired(maxAge, young.age, oldest.age);
  }

  lemma {:induction false} KeptSingle(maxAge: int, v: Version)
    ensures KeptOf(maxAge, [v]) == if Expired(maxAge, v.age) then [] else [v]
  {
    hide FindStep, Expired;
    assert [v][..0] == [] && KeptOf(maxAge, []) == [];
  }

  lemma {:induction false} YoungerUnexpired(maxAge: int, young: int, oldest: int)
    requires young <= oldest && !Expired(maxAge, oldest)
    ensures !Expired(maxAge, young)
  {
  }

  /** The oldest version survives whichever of the younger ones exist exactly when it is alone, or
      unexpired and at least its own step older than the next older one. */
  lemma {:induction false} OldestKeptIff(maxAge: int, younger: seq<Version>, oldest: Version)
    requires Sorted(younger + [oldest]) && oldest !in younger
    ensures (forall sub | Sorted(sub) && multiset(sub) <= multiset(younger) :: oldest in Survivors(maxAge, sub + [oldest]))
            <==> FarEnough(maxAge, younger, oldest)
  {
    hide FindStep, Expired, KeptOf, Survivors;
    if FarEnough(maxAge, younger, oldest) {
      forall sub | Sorted(sub) && multiset(sub) <= multiset(younger)
        ensures oldest in Survivors(maxAge, sub + [oldest])
      {
        FarEnoughSurvives(maxAge, younger, oldest, sub);
      }
    } else {
      var next := younger[|younger| - 1];
      assert younger == younger[..|younger| - 1] + [next];
      SubgroupSorted(younger, oldest, [next]);
      assert ([next] + [oldest])[0].age <= ([next] + [oldest])[1].age;
      assert next in [next] && next in younger;
      if oldest in Survivors(maxAge, [next] + [oldest]) {
        PairSurvives(maxAge, next, oldest);
      }
    }
  }

  /** Of two versions archived ten seconds apart, the older one goes. */
  lemma {:induction false} OldestDropped(a: string, b: string)
    ensures Version(b, 10) !in Survivors(DEFAULT_MAX_AGE, [Version(a, 0), Version(b, 10)])
  {
    var young, old10 := Version(a, 0), Version(b, 10);
    var vs := [young] + [old10];
    assert vs == [young, old10];
    SortSorted(vs);
    OldestAgainstLastKept(DEFAULT_MAX_AGE, [young], old10);
    assert [young][..0] == [];
    assert KeptOf(DEFAULT_MAX_AGE, [young]) == [young];
    FindStepTable(DEFAULT_MAX_AGE, 10);
  }
}
