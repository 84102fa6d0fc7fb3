/**
 * The seen-item masking step of the ranked-list builder: every item the user
 * has already rated gets the sentinel score, written in place into that user's
 * candidate array, before top-K selection runs.
 */
module Masking {
  import opened Outcomes
  import opened Lookup

  /** The literal -10e8, that is -1_000_000_000, exact in the float32 score array. */
  const Sentinel: int := -1_000_000_000

  /**
   * The candidate scores after the rated items are masked one by one, in the
   * order of `rated`. The first rated item that `items.index` cannot find, or
   * whose index lies past the end of the candidate array, stops the loop.
   */
  function MaskAll(c: seq<int>, items: seq<string>, rated: seq<string>): (r: Result<seq<int>>)
    ensures r.Ok? ==> |r.value| == |c|
    decreases |rated|
  {
    if rated == [] then Ok(c)
    else
      match IndexOf(items, rated[0])
      case None => Err(UnknownItem(rated[0]))
      case Some(i) =>
        if i < |c| then MaskAll(c[i := Sentinel], items, rated[1..]) else Err(IndexOutOfRange(i))
  }

  /** Position `j` is the index `items.index` returns for some rated item. */
  predicate Masks(items: seq<string>, rated: seq<string>, j: nat) {
    j < |items| && items[j] in rated && IndexOf(items, items[j]) == Some(j)
  }

  /** Every rated item is found, at an index inside the candidate array. */
  predicate Maskable(n: nat, items: seq<string>, rated: seq<string>) {
    forall x :: x in rated ==> IndexOf(items, x).Some? && IndexOf(items, x).value < n
  }

  /** Masking succeeds exactly when every rated item can be looked up and written. */
  lemma {:induction false} MaskAllSucceeds(c: seq<int>, items: seq<string>, rated: seq<string>)
    ensures MaskAll(c, items, rated).Ok? <==> Maskable(|c|, items, rated)
    decreases |rated|
  {
    if rated != [] {
      var i := IndexOf(items, rated[0]);
      if i.Some? && i.value < |c| {
        MaskAllSucceeds(c[i.value := Sentinel], items, rated[1..]);
        assert forall x :: x in rated <==> x == rated[0] || x in rated[1..];
      }
    }
  }

  /** A rated item missing from the item list makes masking fail instead of being skipped. */
  lemma UnknownItemFails(c: seq<int>, items: seq<string>, rated: seq<string>, x: string)
    requires x in rated && x !in items
    ensures MaskAll(c, items, rated).Err?
  {
    MaskAllSucceeds(c, items, rated);
  }

  /**
   * What masking computes: the same length, the sentinel at every index of a
   * rated item, and the original score everywhere else.
   */
  lemma {:induction false} MaskAllPointwise(c: seq<int>, items: seq<string>, rated: seq<string>)
    requires MaskAll(c, items, rated).Ok?
    ensures var m := MaskAll(c, items, rated).value;
      |m| == |c| && forall j :: 0 <= j < |c| ==> m[j] == if Masks(items, rated, j) then Sentinel else c[j]
    decreases |rated|
  {
    if rated != [] {
      var i := IndexOf(items, rated[0]).value;
      var c' := c[i := Sentinel];
      MaskAllPointwise(c', items, rated[1..]);
      forall j | 0 <= j < |c|
        ensures Masks(items, rated, j) <==> j == i || Masks(items, rated[1..], j)
      {
        if Masks(items, rated, j) && items[j] == rated[0] {
          assert j == i;
        }
      }
    }
  }

  /** Each rated item's slot holds the sentinel after masking. */
  lemma RatedSlotsHoldSentinel(c: seq<int>, items: seq<string>, rated: seq<string>, x: string)
    requires MaskAll(c, items, rated).Ok? && x in rated
    ensures IndexOf(items, x).Some?
    ensures var i := IndexOf(items, x).value;
      i < |c| && MaskAll(c, items, rated).value[i] == Sentinel
  {
    MaskAllSucceeds(c, items, rated);
    MaskAllPointwise(c, items, rated);
    var i := IndexOf(items, x).value;
    assert Masks(items, rated, i);
  }

  /** Masking an already masked array again changes nothing. */
  lemma MaskAllIdempotent(c: seq<int>, items: seq<string>, rated: seq<string>)
    requires MaskAll(c, items, rated).Ok?
    ensures MaskAll(MaskAll(c, items, rated).value, items, rated) == MaskAll(c, items, rated)
  {
    var m := MaskAll(c, items, rated).value;
    MaskAllSucceeds(c, items, rated);
    MaskAllSucceeds(m, items, rated);
    MaskAllPointwise(c, items, rated);
    MaskAllPointwise(m, items, rated);
    var mm := MaskAll(m, items, rated).value;
    assert mm == m;
  }

  /**
   * The order of the rated list, and any repeats in it, do not matter: two
   * rated lists with the same members either both fail or give the same array.
   */
  lemma MaskAllOrderIndependent(c: seq<int>, items: seq<string>, rated1: seq<string>, rated2: seq<string>)
    requires forall x :: x in rated1 <==> x in rated2
    ensures MaskAll(c, items, rated1).Ok? <==> MaskAll(c, items, rated2).Ok?
    ensures MaskAll(c, items, rated1).Ok? ==> MaskAll(c, items, rated1) == MaskAll(c, items, rated2)
  {
    MaskAllSucceeds(c, items, rated1);
    MaskAllSucceeds(c, items, rated2);
    if MaskAll(c, items, rated1).Ok? {
      MaskAllPointwise(c, items, rated1);
      MaskAllPointwise(c, items, rated2);
      var m1, m2 := MaskAll(c, items, rated1).value, MaskAll(c, items, rated2).value;
      assert forall j :: 0 <= j < |c| ==> (Masks(items, rated1, j) <==> Masks(items, rated2, j));
      assert m1 == m2;
    }
  }

  /** Items A, B, C, D scored 10, 90, 50, 20, with B already rated: only B's slot is masked. */
  lemma MaskOneRatedItem()
    ensures MaskAll([10, 90, 50, 20], ["A", "B", "C", "D"], ["B"]) == Ok([10, Sentinel, 50, 20])
  {
    var rated := ["B"];
    assert IndexOf(["A", "B", "C", "D"], rated[0]) == Some(1);
    assert rated[1..] == [];
    assert [10, 90, 50, 20][1 := Sentinel] == [10, Sentinel, 50, 20];
  }

  /** Masking the rated prefix one item further extends the masked array by one write. */
  lemma {:induction false} MaskAllSnoc(c: seq<int>, items: seq<string>, rated: seq<string>, x: string, i: nat)
    requires MaskAll(c, items, rated).Ok?
    requires IndexOf(items, x) == Some(i) && i < |c|
    ensures MaskAll(c, items, rated + [x]) == Ok(MaskAll(c, items, rated).value[i := Sentinel])
    decreases |rated|
  {
    if rated == [] {
      assert [] + [x] == [x];
    } else {
      var j := IndexOf(items, rated[0]).value;
      assert (rated + [x])[0] == rated[0] && (rated + [x])[1..] == rated[1..] + [x];
      MaskAllSnoc(c[j := Sentinel], items, rated[1..], x, i);
    }
  }

  /** Appending an item that cannot be looked up or written makes masking fail with that item's fault. */
  lemma {:induction false} MaskAllSnocFails(c: seq<int>, items: seq<string>, rated: seq<string>, x: string)
    requires MaskAll(c, items, rated).Ok?
    requires IndexOf(items, x).None? || IndexOf(items, x).value >= |c|
    ensures MaskAll(c, items, rated + [x]) ==
      if IndexOf(items, x).None? then Err(UnknownItem(x)) else Err(IndexOutOfRange(IndexOf(items, x).value))
    decreases |rated|
  {
    if rated == [] {
      assert [] + [x] == [x];
      assert [x][1..] == [];
    } else {
      var j := IndexOf(items, rated[0]).value;
      assert (rated + [x])[0] == rated[0] && (rated + [x])[1..] == rated[1..] + [x];
      MaskAllSnocFails(c[j := Sentinel], items, rated[1..], x);
    }
  }

  /**
   * The masking loop: writes the sentinel into `candidates` at the index of
   * each rated item, in order. On a lookup failure it stops, reports the fault
   * and leaves the array masked by the items before the failing one.
   */
  method MaskRated(candidates: array<int>, items: seq<string>, rated: seq<string>) returns (r: Outcome)
    modifies candidates
    ensures match MaskAll(old(candidates[..]), items, rated)
      case Ok(m) => r == Pass && candidates[..] == m
      case Err(f) => r == Fail(f)
    ensures r.Fail? ==> exists k ::
      && 0 <= k < |rated|
      && MaskAll(old(candidates[..]), items, rated[..k]) == Ok(candidates[..])
      && MaskAll(old(candidates[..]), items, rated[..k + 1]) == Err(r.fault)
  {
    ghost var start := candidates[..];
    var k := 0;
    assert rated[..0] == [];
    while k < |rated|
      invariant 0 <= k <= |rated|
      invariant MaskAll(start, items, rated[..k]) == Ok(candidates[..])
      invariant MaskAll(start, items, rated) == MaskAll(candidates[..], items, rated[k..])
    {
      var idx := IndexOf(items, rated[k]);
      assert rated[k..][0] == rated[k];
      if idx.None? || idx.value >= candidates.Length {
        MaskAllSnocFails(start, items, rated[..k], rated[k]);
        assert rated[..k + 1] == rated[..k] + [rated[k]];
        if idx.None? {
          return Fail(UnknownItem(rated[k]));
        }
        return Fail(IndexOutOfRange(idx.value));
      }
      MaskAllSnoc(start, items, rated[..k], rated[k], idx.value);
      assert rated[..k + 1] == rated[..k] + [rated[k]];
      assert rated[k..][1..] == rated[k + 1..];
      candidates[idx.value] := Sentinel;
      k := k + 1;
    }
    assert rated[k..] == [];
    r := Pass;
  }
}
