/** Selection of rows by a condition, as a WHERE clause does it. */
module Seqs {

  /** The elements of s that satisfy p, in their order in s: each x occurs in
      the result as often as in s when p(x) holds, and not at all otherwise. */
  function Filter<T(!new)>(p: T -> bool, s: seq<T>): (r: seq<T>)
    ensures forall x :: multiset(r)[x] == if p(x) then multiset(s)[x] else 0
  {
    if s == [] then []
    else
      assert s == [s[0]] + s[1..];
      (if p(s[0]) then [s[0]] else []) + Filter(p, s[1..])
  }

  /** Membership: x is selected iff it is in s and satisfies p. */
  lemma FilterMembership<T(!new)>(p: T -> bool, s: seq<T>, x: T)
    ensures x in Filter(p, s) <==> x in s && p(x)
  {
    assert x in Filter(p, s) <==> multiset(Filter(p, s))[x] > 0;
    assert x in s <==> multiset(s)[x] > 0;
  }

  /** A condition that every element satisfies selects s unchanged, and one
      that some element fails selects strictly fewer elements. */
  lemma {:induction false} FilterAll<T(!new)>(p: T -> bool, s: seq<T>)
    ensures |Filter(p, s)| <= |s|
    ensures (forall x :: x in s ==> p(x)) <==> |Filter(p, s)| == |s|
    ensures (forall x :: x in s ==> p(x)) ==> Filter(p, s) == s
  {
    if s != [] {
      FilterAll(p, s[1..]);
      assert s == [s[0]] + s[1..];
      assert forall x :: x in s <==> x == s[0] || x in s[1..];
    }
  }
}
