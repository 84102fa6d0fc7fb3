/**
 * The topN cutoff option of the recommender's constructor: the option text
 * (for example "10,20") is split on ',', every piece goes through int(), and
 * the largest cutoff becomes `max_N`, the list length asked of top-K selection.
 */
module TopN {
  import opened Outcomes
  import opened Text

  datatype Cutoffs = Cutoffs(topN: seq<int>, maxN: int)

  /** Python's max over a non-empty list: an element of the list that no element exceeds. */
  function Max(xs: seq<int>): (m: int)
    requires |xs| > 0
    ensures m in xs
    ensures forall i :: 0 <= i < |xs| ==> xs[i] <= m
  {
    if |xs| == 1 then xs[0]
    else
      var rest := Max(xs[1..]);
      if xs[0] >= rest then xs[0] else rest
  }

  /** A text-to-integer conversion; the cutoffs are read with `ParseInt`, which models int(). */
  type IntReader = string -> Option<int>

  /** `read` accepts every piece. */
  predicate AllRead(pieces: seq<string>, read: IntReader) {
    forall i :: 0 <= i < |pieces| ==> read(pieces[i]).Some?
  }

  /** int() accepts every piece. */
  predicate AllInts(pieces: seq<string>) {
    AllRead(pieces, ParseInt)
  }

  /**
   * `[read(num) for num in pieces]`: one integer per piece, or the fault of
   * the first piece `read` rejects.
   */
  function ParseEach(pieces: seq<string>, read: IntReader): (r: Result<seq<int>>)
    ensures r.Ok? <==> AllRead(pieces, read)
    ensures r.Ok? ==> |r.value| == |pieces| && forall i :: 0 <= i < |pieces| ==> read(pieces[i]) == Some(r.value[i])
    ensures r.Err? ==> exists i :: 0 <= i < |pieces| && read(pieces[i]).None? && r == Err(BadNumber(pieces[i]))
  {
    if pieces == [] then Ok([])
    else
      match read(pieces[0])
      case None => Err(BadNumber(pieces[0]))
      case Some(n) =>
        match ParseEach(pieces[1..], read)
        case Err(f) =>
          assert forall i :: 0 <= i < |pieces[1..]| ==> pieces[1..][i] == pieces[i + 1];
          Err(f)
        case Ok(ns) => Ok([n] + ns)
  }

  /**
   * `top = option.split(',')`, `topN = [int(num) for num in top]`,
   * `max_N = max(topN)`. The split never yields an empty list, so max always
   * has an argument; the only failure is a piece int() rejects.
   */
  function ParseTopN(option: string): (r: Result<Cutoffs>)
    ensures r.Ok? <==> AllInts(Split(option, ','))
    ensures r.Ok? ==> |r.value.topN| == Occurrences(option, ',') + 1
    ensures r.Ok? ==> forall i :: 0 <= i < |r.value.topN| ==> ParseInt(Split(option, ',')[i]) == Some(r.value.topN[i])
    ensures r.Ok? ==> r.value.maxN in r.value.topN
    ensures r.Ok? ==> forall i :: 0 <= i < |r.value.topN| ==> r.value.topN[i] <= r.value.maxN
  {
    match ParseEach(Split(option, ','), ParseInt)
    case Err(f) => Err(f)
    case Ok(ns) => Ok(Cutoffs(ns, Max(ns)))
  }

  /** str(n) for each cutoff. */
  function Render(ns: seq<int>): (r: seq<string>)
    ensures |r| == |ns| && forall i :: 0 <= i < |ns| ==> r[i] == IntToString(ns[i])
  {
    if ns == [] then [] else [IntToString(ns[0])] + Render(ns[1..])
  }

  /** int() reads back every rendered cutoff. */
  lemma {:induction false} ParseEachRender(ns: seq<int>)
    ensures ParseEach(Render(ns), ParseInt) == Ok(ns)
  {
    if ns != [] {
      var pieces := Render(ns);
      assert pieces == [IntToString(ns[0])] + Render(ns[1..]);
      assert pieces[0] == IntToString(ns[0]) && pieces[1..] == Render(ns[1..]);
      ParseIntToString(ns[0]);
      ParseEachRender(ns[1..]);
      assert ParseEach(pieces, ParseInt) == Ok([ns[0]] + ns[1..]);
      assert [ns[0]] + ns[1..] == ns;
    }
  }

  /** Writing the cutoffs out as "n1,n2,..." and parsing them gives them back, with their maximum. */
  lemma ParseTopNRoundTrip(ns: seq<int>)
    requires |ns| > 0
    ensures ParseTopN(Join(Render(ns), ',')) == Ok(Cutoffs(ns, Max(ns)))
  {
    SplitJoin(Render(ns), ',');
    ParseEachRender(ns);
  }

  /** An option with an empty piece, such as "10,,20" or "10,", is rejected. */
  lemma EmptyPieceRejected(option: string, i: nat)
    requires i < |Split(option, ',')| && Split(option, ',')[i] == []
    ensures ParseTopN(option).Err?
  {
    ParseIntRejectsEmpty([]);
    assert !AllInts(Split(option, ','));
  }
}
