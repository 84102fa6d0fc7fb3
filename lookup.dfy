/** Identifier-to-index lookup by position in an ordered key list, as Python's list.index does it. */
module Lookup {
  import opened Outcomes

  /**
   * list.index(x): the position of the FIRST occurrence of `x`, or None where
   * Python raises ValueError.
   */
  function IndexOf<T(==)>(xs: seq<T>, x: T): (r: Option<nat>)
    ensures r.None? <==> x !in xs
    ensures r.Some? ==> r.value < |xs| && xs[r.value] == x && x !in xs[..r.value]
  {
    if xs == [] then None
    else if xs[0] == x then Some(0)
    else
      match IndexOf(xs[1..], x)
      case None => None
      case Some(i) =>
        assert xs[..i + 1] == [xs[0]] + xs[1..][..i];
        Some(i + 1)
  }

  /** No identifier appears twice, as holds for the keys of a Python dict. */
  predicate Distinct<T(==)>(xs: seq<T>) {
    forall i, j :: 0 <= i < j < |xs| ==> xs[i] != xs[j]
  }

  /** In a list without repeats, looking up the element at `i` gives back `i`. */
  lemma IndexOfDistinct<T>(xs: seq<T>, i: nat)
    requires Distinct(xs) && i < |xs|
    ensures IndexOf(xs, xs[i]) == Some(i)
  {
  }
}
