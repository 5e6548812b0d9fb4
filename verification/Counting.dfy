/** Occurrences in lists of addresses. */
module Counting {

  /** How often an address occurs. */
  function Count(s: seq<nat>, x: nat): nat {
    multiset(s)[x]
  }

  lemma CountAppend(s: seq<nat>, t: seq<nat>, x: nat)
    ensures Count(s + t, x) == Count(s, x) + Count(t, x)
  {
  }

  predicate Distinct(s: seq<nat>) {
    forall i, j :: 0 <= i < j < |s| ==> s[i] != s[j]
  }

  lemma {:induction false} DistinctIffCount(s: seq<nat>)
    ensures Distinct(s) <==> forall x :: Count(s, x) <= 1
    decreases |s|
  {
    if s != [] {
      var last := |s| - 1;
      var front := s[..last];
      assert s == front + [s[last]];
      DistinctIffCount(front);
      forall x ensures Count(s, x) == Count(front, x) + if x == s[last] then 1 else 0 {
        CountAppend(front, [s[last]], x);
      }
      assert s[last] in front <==> Count(front, s[last]) > 0;
      if Distinct(s) {
        assert forall i :: 0 <= i < last ==> front[i] != s[last];
      }
    }
  }

  /** Lists with the same occurrences are distinct alike. */
  lemma DistinctAlike(s: seq<nat>, t: seq<nat>)
    requires forall x :: Count(s, x) == Count(t, x)
    ensures Distinct(s) <==> Distinct(t)
  {
    DistinctIffCount(s);
    DistinctIffCount(t);
  }
}
