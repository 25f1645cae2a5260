/** Sequences without duplicates, and the removal of one element. */
module Sequences {
  ghost predicate Distinct<T>(s: seq<T>) {
    forall i, j :: 0 <= i < j < |s| ==> s[i] != s[j]
  }

  /** The sequence without the first x in it. */
  function Dropped<T(==)>(s: seq<T>, x: T): seq<T> {
    if s == [] then [] else if s[0] == x then s[1..] else [s[0]] + Dropped(s[1..], x)
  }

  lemma {:induction false} DroppedOne<T>(s: seq<T>, x: T)
    requires Distinct(s) && x in s
    ensures Distinct(Dropped(s, x)) && |Dropped(s, x)| == |s| - 1
    ensures forall y :: y in Dropped(s, x) <==> y in s && y != x
  {
    assert s == [s[0]] + s[1..];
    if s[0] != x {
      DroppedOne(s[1..], x);
      assert s[0] !in s[1..];
      assert forall i :: 0 < i < |Dropped(s, x)| ==> Dropped(s, x)[i] in Dropped(s[1..], x);
    }
  }
}
