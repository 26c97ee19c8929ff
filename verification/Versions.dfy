/** Version vectors: a counter per device, absent counters being zero. */
module Versions {
  import opened Naturals

  type Vector = map<nat, nat>

  function Get(v: Vector, id: nat): nat {
    if id in v then v[id] else 0
  }

  function Increment(v: Vector, id: nat): Vector {
    v[id := Get(v, id) + 1]
  }

  predicate Dominates(v: Vector, w: Vector) {
    forall id | id in v.Keys + w.Keys :: Get(v, id) >= Get(w, id)
  }

  /** The vectors agree on every counter. */
  predicate SameVersion(v: Vector, w: Vector) {
    Dominates(v, w) && Dominates(w, v)
  }

  datatype VersionComparison = Equal | Greater | Less | Concurrent

  function CompareVersions(v: Vector, w: Vector): VersionComparison {
    var vw, wv := Dominates(v, w), Dominates(w, v);
    if vw && !wv then Greater
    else if wv && !vw then Less
    else if vw && wv then Equal
    else Concurrent
  }

  /** `d` is the smallest counter on which the vectors differ. */
  ghost predicate FirstDiff(v: Vector, w: Vector, d: nat) {
    Get(v, d) != Get(w, d) && forall id: nat :: id < d ==> Get(v, id) == Get(w, id)
  }

  /** `v` is ahead at the first counter on which the vectors differ. */
  ghost predicate LexGreater(v: Vector, w: Vector) {
    exists d: nat :: FirstDiff(v, w, d) && Get(v, d) > Get(w, d)
  }

  datatype Direction = NotConcurrent | SelfGreater | OtherGreater

  ghost function DirectionOf(v: Vector, w: Vector): Direction {
    if Dominates(v, w) || Dominates(w, v) then NotConcurrent
    else if LexGreater(v, w) then SelfGreater
    else OtherGreater
  }

  lemma DominatesAll(v: Vector, w: Vector)
    ensures Dominates(v, w) <==> forall id: nat :: Get(v, id) >= Get(w, id)
  {
  }

  lemma SameVersionAll(v: Vector, w: Vector)
    ensures SameVersion(v, w) <==> forall id: nat :: Get(v, id) == Get(w, id)
  {
  }

  lemma SameVersionTransitive(u: Vector, v: Vector, w: Vector)
    requires SameVersion(u, v) && SameVersion(v, w)
    ensures SameVersion(u, w)
  {
  }

  /** Vectors that differ somewhere differ at a first counter. */
  lemma FirstDiffExists(v: Vector, w: Vector, d: nat) returns (f: nat)
    requires Get(v, d) != Get(w, d)
    ensures FirstDiff(v, w, f)
  {
    f := 0;
    while Get(v, f) == Get(w, f)
      invariant forall id: nat :: id < f ==> Get(v, id) == Get(w, id)
      decreases d - f
    {
      f := f + 1;
    }
  }

  /** Exactly one of two different versions is ahead of the other. */
  lemma LexTotal(v: Vector, w: Vector)
    ensures SameVersion(v, w) || LexGreater(v, w) || LexGreater(w, v)
    ensures !(LexGreater(v, w) && LexGreater(w, v))
    ensures LexGreater(v, w) ==> !SameVersion(v, w)
  {
    SameVersionAll(v, w);
    if !SameVersion(v, w) {
      var d: nat :| Get(v, d) != Get(w, d);
      var f := FirstDiffExists(v, w, d);
      assert FirstDiff(w, v, f);
    }
  }

  lemma LexTransitive(u: Vector, v: Vector, w: Vector)
    requires LexGreater(u, v) && LexGreater(v, w)
    ensures LexGreater(u, w)
  {
  }

  lemma LexRespectsVersion(v: Vector, w: Vector, x: Vector)
    requires SameVersion(v, w)
    ensures LexGreater(v, x) <==> LexGreater(w, x)
    ensures LexGreater(x, v) <==> LexGreater(x, w)
  {
  }

  lemma DominatesRespectsVersion(v: Vector, w: Vector, x: Vector)
    requires SameVersion(v, w)
    ensures Dominates(v, x) <==> Dominates(w, x)
    ensures Dominates(x, v) <==> Dominates(x, w)
  {
  }

  /** A dominating, different version is ahead at the first difference. */
  lemma DominatesIsLexGreater(v: Vector, w: Vector)
    requires Dominates(v, w) && !SameVersion(v, w)
    ensures LexGreater(v, w)
  {
    DominatesAll(v, w);
    SameVersionAll(v, w);
    var d: nat :| Get(v, d) != Get(w, d);
    var f := FirstDiffExists(v, w, d);
    assert FirstDiff(v, w, f) && Get(v, f) > Get(w, f);
  }

  /** Walks the counters in increasing order; a change of direction makes the vectors
      concurrent, and the first direction seen decides. */
  method ConcurrentOrder(v: Vector, w: Vector) returns (first: Direction)
    ensures first == DirectionOf(v, w)
  {
    var ids := v.Keys + w.Keys;
    first := NotConcurrent;
    ghost var at: nat := 0;
    while ids != {}
      invariant ids <= v.Keys + w.Keys
      invariant forall a, b :: a in ids && b in v.Keys + w.Keys && b !in ids ==> b < a
      invariant first == NotConcurrent ==> forall id :: id in v.Keys + w.Keys && id !in ids ==> Get(v, id) == Get(w, id)
      invariant first != NotConcurrent ==> at in v.Keys + w.Keys - ids
      invariant first != NotConcurrent ==> forall id: nat :: id < at ==> Get(v, id) == Get(w, id)
      invariant first == SelfGreater ==> Get(v, at) > Get(w, at)
      invariant first == OtherGreater ==> Get(v, at) < Get(w, at)
      invariant first == SelfGreater ==> forall id :: id in v.Keys + w.Keys && id !in ids ==> Get(v, id) >= Get(w, id)
      invariant first == OtherGreater ==> forall id :: id in v.Keys + w.Keys && id !in ids ==> Get(v, id) <= Get(w, id)
      decreases ids
    {
      ghost var least := LeastExists(ids);
      var id :| id in ids && forall x :: x in ids ==> id <= x;
      ids := ids - {id};
      var a, b := Get(v, id), Get(w, id);
      if a != b {
        var dir := if a > b then SelfGreater else OtherGreater;
        if first == NotConcurrent {
          EqualBelow(v, w, ids, id);
          first, at := dir, id;
        } else if first != dir {
          DirectionKnown(v, w, at, id);
          return;
        }
      }
    }
    if first != NotConcurrent {
      assert Dominates(v, w) || Dominates(w, v);
      first := NotConcurrent;
    }
  }

  lemma EqualBelow(v: Vector, w: Vector, ids: set<nat>, id: nat)
    requires id in v.Keys + w.Keys
    requires forall a :: a in ids ==> id < a
    requires forall x :: x in v.Keys + w.Keys && x !in ids && x != id ==> Get(v, x) == Get(w, x)
    ensures forall x: nat :: x < id ==> Get(v, x) == Get(w, x)
  {
  }

  lemma DirectionKnown(v: Vector, w: Vector, at: nat, id: nat)
    requires at in v.Keys + w.Keys && id in v.Keys + w.Keys
    requires forall x: nat :: x < at ==> Get(v, x) == Get(w, x)
    requires (Get(v, at) > Get(w, at) && Get(v, id) < Get(w, id)) || (Get(v, at) < Get(w, at) && Get(v, id) > Get(w, id))
    ensures DirectionOf(v, w) == if Get(v, at) > Get(w, at) then SelfGreater else OtherGreater
  {
  }
}
