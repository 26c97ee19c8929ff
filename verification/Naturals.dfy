/** Powers of two and least elements of sets of naturals. */
module Naturals {

  function Pow2(k: nat): (r: nat)
    ensures r > 0
  {
    if k == 0 then 1 else 2 * Pow2(k - 1)
  }

  lemma {:induction false} LeastExists(s: set<nat>) returns (m: nat)
    requires s != {}
    ensures m in s && forall x :: x in s ==> m <= x
    decreases s
  {
    var first :| first in s;
    var rest := s - {first};
    m := first;
    if rest != {} {
      var k := LeastExists(rest);
      m := if k < first then k else first;
    }
    forall x | x in s
      ensures m <= x
    {
      assert x == first || x in rest;
    }
  }
}
