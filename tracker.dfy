/**
 * The best-performance bookkeeping of `fast_evaluation`: the metric report
 * lines are split into a key:value snapshot, the snapshot is put to a
 * majority vote against the stored best, and the best is replaced (and a
 * checkpoint saved) when the vote goes to the new snapshot.
 */
module Tracker {
  import opened Outcomes
  import opened Text
  import opened Lookup

  /** Stands for float(v): the metric value a text denotes, or None where Python raises. */
  type ValueReader = string -> Option<int>

  /** `k, v = m.strip().split(':')` followed by `float(v)`. */
  function KeyValue(line: string, valueOf: ValueReader): (r: Result<(string, int)>)
    ensures Occurrences(Strip(line), ':') != 1 ==> r == Err(MalformedLine(line))
    ensures r.Ok? ==> ':' !in r.value.0
  {
    var parts := Split(Strip(line), ':');
    if |parts| != 2 then Err(MalformedLine(line))
    else
      match valueOf(parts[1])
      case None => Err(BadNumber(parts[1]))
      case Some(v) => Ok((parts[0], v))
  }

  /** A "key:text" pair with no colon inside either half splits back into its two halves. */
  lemma SplitKeyText(key: string, text: string)
    requires ':' !in key && ':' !in text
    ensures Split(key + [':'] + text, ':') == [key, text]
  {
    assert Join([key, text], ':') == key + [':'] + text;
    SplitJoin([key, text], ':');
  }

  /**
   * Reading back a report line "key:text" as the report writes it, whatever
   * whitespace surrounds it: strip() removes that whitespace first.
   */
  lemma KeyValueOfLine(ws1: string, key: string, text: string, ws2: string, valueOf: ValueReader)
    requires forall i :: 0 <= i < |ws1| ==> IsSpace(ws1[i])
    requires forall i :: 0 <= i < |ws2| ==> IsSpace(ws2[i])
    requires ':' !in key && ':' !in text
    requires key == [] || !IsSpace(key[0])
    requires text == [] || !IsSpace(text[|text| - 1])
    ensures KeyValue(ws1 + (key + [':'] + text) + ws2, valueOf) ==
      match valueOf(text)
      case Some(v) => Ok((key, v))
      case None => Err(BadNumber(text))
  {
    var core := key + [':'] + text;
    assert core[0] == if key == [] then ':' else key[0];
    assert core[|core| - 1] == if text == [] then ':' else text[|text| - 1];
    StripSurrounding(ws1, core, ws2);
    SplitKeyText(key, text);
    KeyValueOfStripped(ws1 + core + ws2, key, text, valueOf);
  }

  /** A line whose stripped form is "key:text" reads as `(key, float(text))`. */
  lemma KeyValueOfStripped(line: string, key: string, text: string, valueOf: ValueReader)
    requires Split(Strip(line), ':') == [key, text]
    ensures KeyValue(line, valueOf) ==
      match valueOf(text)
      case Some(v) => Ok((key, v))
      case None => Err(BadNumber(text))
  {
  }

  /** A parser for one report line, as Collect applies it. */
  type LineParser = string -> Result<(string, int)>

  /**
   * The per-line parser of `fast_evaluation`: a line whose stripped form does
   * not hold exactly one colon is malformed, and a parsed key holds no colon.
   */
  function LineReader(valueOf: ValueReader): (r: LineParser)
    ensures forall line :: Occurrences(Strip(line), ':') != 1 ==> r(line) == Err(MalformedLine(line))
    ensures forall line :: r(line).Ok? ==> ':' !in r(line).value.0
  {
    line => KeyValue(line, valueOf)
  }

  /** The key of a line that parses, for use in contracts. */
  function KeyOf(parse: LineParser, line: string): string
    requires parse(line).Ok?
  {
    parse(line).value.0
  }

  /**
   * The loop `for m in lines: performance[k] = float(v)`, starting from `acc`:
   * it keeps every key of `acc`, and a fault is the one some line raises.
   */
  function Collect(lines: seq<string>, parse: LineParser, acc: map<string, int>): (r: Result<map<string, int>>)
    ensures r.Ok? ==> acc.Keys <= r.value.Keys
    ensures r.Err? ==> exists i :: 0 <= i < |lines| && parse(lines[i]) == Err(r.fault)
    decreases |lines|
  {
    if lines == [] then Ok(acc)
    else
      match parse(lines[0])
      case Err(f) => Err(f)
      case Ok(kv) =>
        var rest := Collect(lines[1..], parse, acc[kv.0 := kv.1]);
        assert rest.Err? ==> exists i :: 1 <= i < |lines| && parse(lines[i]) == Err(rest.fault) by {
          if rest.Err? {
            var i :| 0 <= i < |lines[1..]| && parse(lines[1..][i]) == Err(rest.fault);
            assert lines[i + 1] == lines[1..][i];
          }
        }
        rest
  }

  /** `measure[1:]`: the report without its heading line. */
  function Body(measure: seq<string>): (r: seq<string>)
    ensures |r| == if measure == [] then 0 else |measure| - 1
    ensures forall i :: 0 <= i < |r| ==> r[i] == measure[i + 1]
  {
    if measure == [] then [] else measure[1..]
  }

  /**
   * The performance snapshot built from a metric report, each line read by
   * `parse`; `fast_evaluation` reads them with `LineReader(valueOf)`.
   */
  function Snapshot(measure: seq<string>, parse: LineParser): (r: Result<map<string, int>>)
    ensures |measure| <= 1 ==> r == Ok(map[])
    ensures r.Err? ==> exists i :: 0 < i < |measure| && parse(measure[i]) == Err(r.fault)
  {
    var r := Collect(Body(measure), parse, map[]);
    assert r.Err? ==> exists i :: 0 < i < |measure| && parse(measure[i]) == Err(r.fault) by {
      if r.Err? {
        var i :| 0 <= i < |Body(measure)| && parse(Body(measure)[i]) == Err(r.fault);
        assert measure[i + 1] == Body(measure)[i];
      }
    }
    r
  }

  /** Every line parses, or the loop stops with a fault. */
  lemma {:induction false} CollectSucceeds(lines: seq<string>, parse: LineParser, acc: map<string, int>)
    ensures Collect(lines, parse, acc).Ok? <==> forall i :: 0 <= i < |lines| ==> parse(lines[i]).Ok?
    decreases |lines|
  {
    if lines != [] && parse(lines[0]).Ok? {
      var kv := parse(lines[0]).value;
      CollectSucceeds(lines[1..], parse, acc[kv.0 := kv.1]);
      assert forall i :: 1 <= i < |lines| ==> lines[i] == lines[1..][i - 1];
    }
  }

  /** The loop's keys are those of `acc` and those of the lines. */
  lemma {:induction false} CollectKeys(lines: seq<string>, parse: LineParser, acc: map<string, int>)
    requires Collect(lines, parse, acc).Ok?
    ensures forall i :: 0 <= i < |lines| ==> parse(lines[i]).Ok?
    ensures forall k :: k in Collect(lines, parse, acc).value <==>
      k in acc || exists i :: 0 <= i < |lines| && KeyOf(parse, lines[i]) == k
    decreases |lines|
  {
    CollectSucceeds(lines, parse, acc);
    if lines != [] {
      var kv := parse(lines[0]).value;
      var rest := lines[1..];
      CollectKeys(rest, parse, acc[kv.0 := kv.1]);
      var m := Collect(lines, parse, acc).value;
      forall k
        ensures k in m <==> k in acc || exists i :: 0 <= i < |lines| && KeyOf(parse, lines[i]) == k
      {
        if exists i :: 0 <= i < |rest| && KeyOf(parse, rest[i]) == k {
          var i :| 0 <= i < |rest| && KeyOf(parse, rest[i]) == k;
          assert lines[i + 1] == rest[i];
        }
        if exists i :: 0 <= i < |lines| && KeyOf(parse, lines[i]) == k {
          var i :| 0 <= i < |lines| && KeyOf(parse, lines[i]) == k;
          if i > 0 {
            assert rest[i - 1] == lines[i];
          }
        }
      }
    }
  }

  /** The value of a key is that of the LAST line carrying it. */
  lemma CollectLastValue(lines: seq<string>, parse: LineParser, acc: map<string, int>)
    requires Collect(lines, parse, acc).Ok?
    ensures forall i :: 0 <= i < |lines| ==> parse(lines[i]).Ok?
    ensures var m := Collect(lines, parse, acc).value;
      forall i :: 0 <= i < |lines| && (forall j :: i < j < |lines| ==> KeyOf(parse, lines[j]) != KeyOf(parse, lines[i]))
        ==> KeyOf(parse, lines[i]) in m && m[KeyOf(parse, lines[i])] == parse(lines[i]).value.1
  {
    CollectSucceeds(lines, parse, acc);
    forall i | 0 <= i < |lines| && (forall j :: i < j < |lines| ==> KeyOf(parse, lines[j]) != KeyOf(parse, lines[i]))
      ensures KeyOf(parse, lines[i]) in Collect(lines, parse, acc).value
      ensures Collect(lines, parse, acc).value[KeyOf(parse, lines[i])] == parse(lines[i]).value.1
    {
      LastLineWins(lines, parse, acc, i);
    }
  }

  /** Line `i` decides its key's value when no later line carries that key. */
  lemma {:induction false} LastLineWins(lines: seq<string>, parse: LineParser, acc: map<string, int>, i: nat)
    requires i < |lines| && parse(lines[i]).Ok? && Collect(lines, parse, acc).Ok?
    requires forall j :: i < j < |lines| && parse(lines[j]).Ok? ==> KeyOf(parse, lines[j]) != KeyOf(parse, lines[i])
    ensures KeyOf(parse, lines[i]) in Collect(lines, parse, acc).value
    ensures Collect(lines, parse, acc).value[KeyOf(parse, lines[i])] == parse(lines[i]).value.1
    decreases i
  {
    if i == 0 {
      FirstLineWins(lines, parse, acc);
    } else {
      var kv := parse(lines[0]).value;
      var rest := lines[1..];
      assert rest[i - 1] == lines[i];
      forall j | i - 1 < j < |rest| && parse(rest[j]).Ok?
        ensures KeyOf(parse, rest[j]) != KeyOf(parse, rest[i - 1])
      {
        assert rest[j] == lines[j + 1];
      }
      LastLineWins(rest, parse, acc[kv.0 := kv.1], i - 1);
    }
  }

  /** The first line's value survives when no later line carries its key. */
  lemma FirstLineWins(lines: seq<string>, parse: LineParser, acc: map<string, int>)
    requires lines != [] && parse(lines[0]).Ok? && Collect(lines, parse, acc).Ok?
    requires forall j :: 0 < j < |lines| && parse(lines[j]).Ok? ==> KeyOf(parse, lines[j]) != KeyOf(parse, lines[0])
    ensures KeyOf(parse, lines[0]) in Collect(lines, parse, acc).value
    ensures Collect(lines, parse, acc).value[KeyOf(parse, lines[0])] == parse(lines[0]).value.1
  {
    var kv := parse(lines[0]).value;
    var rest := lines[1..];
    forall j | 0 <= j < |rest| && parse(rest[j]).Ok?
      ensures KeyOf(parse, rest[j]) != kv.0
    {
      assert rest[j] == lines[j + 1];
    }
    CollectKeeps(rest, parse, acc[kv.0 := kv.1], kv.0);
  }

  /** A key no line carries keeps its value from `acc`. */
  lemma {:induction false} CollectKeeps(lines: seq<string>, parse: LineParser, acc: map<string, int>, k: string)
    requires Collect(lines, parse, acc).Ok?
    requires k in acc && forall i :: 0 <= i < |lines| && parse(lines[i]).Ok? ==> KeyOf(parse, lines[i]) != k
    ensures k in Collect(lines, parse, acc).value && Collect(lines, parse, acc).value[k] == acc[k]
    decreases |lines|
  {
    if lines != [] {
      var kv := parse(lines[0]).value;
      var rest := lines[1..];
      assert KeyOf(parse, lines[0]) != k;
      forall i | 0 <= i < |rest| && parse(rest[i]).Ok?
        ensures KeyOf(parse, rest[i]) != k
      {
        assert rest[i] == lines[i + 1];
      }
      CollectKeeps(rest, parse, acc[kv.0 := kv.1], k);
    }
  }

  /**
   * What the loop builds: its keys are those of `acc` and of the lines, the
   * value of a key is that of the LAST line carrying it, and keys no line
   * carries keep their value from `acc`.
   */
  lemma CollectShape(lines: seq<string>, parse: LineParser, acc: map<string, int>)
    requires Collect(lines, parse, acc).Ok?
    ensures forall i :: 0 <= i < |lines| ==> parse(lines[i]).Ok?
    ensures var m := Collect(lines, parse, acc).value;
      && (forall k :: k in m <==> k in acc || exists i :: 0 <= i < |lines| && KeyOf(parse, lines[i]) == k)
      && (forall i :: 0 <= i < |lines| && (forall j :: i < j < |lines| ==> KeyOf(parse, lines[j]) != KeyOf(parse, lines[i]))
            ==> m[KeyOf(parse, lines[i])] == parse(lines[i]).value.1)
      && (forall k :: k in acc && (forall i :: 0 <= i < |lines| ==> KeyOf(parse, lines[i]) != k) ==> m[k] == acc[k])
  {
    CollectKeys(lines, parse, acc);
    CollectLastValue(lines, parse, acc);
    forall k | k in acc && (forall i :: 0 <= i < |lines| ==> KeyOf(parse, lines[i]) != k)
      ensures Collect(lines, parse, acc).value[k] == acc[k]
    {
      CollectKeeps(lines, parse, acc, k);
    }
  }

  /**
   * The snapshot's metric names are exactly the keys of the report lines
   * after the heading, each with the value of the last line carrying it.
   */
  lemma SnapshotShape(measure: seq<string>, parse: LineParser)
    requires Snapshot(measure, parse).Ok?
    ensures var lines, m := Body(measure), Snapshot(measure, parse).value;
      && (forall i :: 0 <= i < |lines| ==> parse(lines[i]).Ok?)
      && (forall k :: k in m <==> exists i :: 0 <= i < |lines| && parse(lines[i]).Ok? && KeyOf(parse, lines[i]) == k)
      && (forall i :: 0 <= i < |lines| && parse(lines[i]).Ok?
            && (forall j :: i < j < |lines| && parse(lines[j]).Ok? ==> KeyOf(parse, lines[j]) != KeyOf(parse, lines[i]))
            ==> m[KeyOf(parse, lines[i])] == parse(lines[i]).value.1)
  {
    CollectShape(Body(measure), parse, map[]);
  }

  /** A report line after the heading that the parser rejects makes the whole snapshot fail. */
  lemma SnapshotFailsOnBadLine(measure: seq<string>, parse: LineParser, i: nat)
    requires 0 < i < |measure| && parse(measure[i]).Err?
    ensures Snapshot(measure, parse).Err?
  {
    CollectSucceeds(Body(measure), parse, map[]);
    assert Body(measure)[i - 1] == measure[i];
  }

  /** In particular, a malformed metric line, or one whose value float() rejects, fails the snapshot. */
  lemma MalformedLineFails(measure: seq<string>, valueOf: ValueReader, i: nat)
    requires 0 < i < |measure| && KeyValue(measure[i], valueOf).Err?
    ensures Snapshot(measure, LineReader(valueOf)).Err?
  {
    assert LineReader(valueOf)(measure[i]).Err?;
    SnapshotFailsOnBadLine(measure, LineReader(valueOf), i);
  }

  /** The loop of lines 120-122 (and 138-140): builds the snapshot line by line. */
  method ParseSnapshot(measure: seq<string>, parse: LineParser) returns (r: Result<map<string, int>>)
    ensures r == Snapshot(measure, parse)
  {
    var lines := Body(measure);
    var performance: map<string, int> := map[];
    var i := 0;
    while i < |lines|
      invariant 0 <= i <= |lines|
      invariant Snapshot(measure, parse) == Collect(lines[i..], parse, performance)
    {
      assert lines[i..][0] == lines[i] && lines[i..][1..] == lines[i + 1..];
      var kv := parse(lines[i]);
      if kv.Err? {
        return Err(kv.fault);
      }
      performance := performance[kv.value.0 := kv.value.1];
      i := i + 1;
    }
    assert lines[i..] == [];
    r := Ok(performance);
  }

  /** The stored metrics on which the stored best beats the new snapshot (`+1` votes). */
  function Wins(best: map<string, int>, perf: map<string, int>): (r: set<string>)
    ensures r <= best.Keys * perf.Keys
    ensures forall k :: k in best && k in perf && best[k] == perf[k] ==> k !in r
  {
    set k | k in best.Keys && k in perf && best[k] > perf[k]
  }

  /**
   * The stored metrics on which it does not, ties included (`-1` votes): no
   * metric is on both sides, and when the new snapshot has every stored
   * metric, each is on one of them.
   */
  function Losses(best: map<string, int>, perf: map<string, int>): (r: set<string>)
    ensures r <= best.Keys * perf.Keys
    ensures r * Wins(best, perf) == {}
    ensures best.Keys <= perf.Keys ==> r + Wins(best, perf) == best.Keys
  {
    set k | k in best.Keys && k in perf && best[k] <= perf[k]
  }

  /** The +1 and -1 votes split the stored metric names between them. */
  lemma SidesPartition(best: map<string, int>, perf: map<string, int>)
    requires best.Keys <= perf.Keys
    ensures |Wins(best, perf)| + |Losses(best, perf)| == |best|
  {
    assert Wins(best, perf) + Losses(best, perf) == best.Keys;
    assert Wins(best, perf) * Losses(best, perf) == {};
  }

  /**
   * The vote `count` over the stored best's metric names: between -n and n
   * for n stored metrics, and of the same parity as n.
   */
  function VoteCount(best: map<string, int>, perf: map<string, int>): (r: int)
    requires best.Keys <= perf.Keys
    ensures -|best| <= r <= |best|
    ensures (r + |best|) % 2 == 0
  {
    SidesPartition(best, perf);
    |Wins(best, perf)| - |Losses(best, perf)|
  }

  /** Every stored metric casts exactly one vote. */
  lemma VotesPartition(best: map<string, int>, perf: map<string, int>)
    requires best.Keys <= perf.Keys
    ensures VoteCount(best, perf) == 2 * |Wins(best, perf)| - |best|
  {
    SidesPartition(best, perf);
  }

  /** A snapshot equal to the stored best, with at least one metric, wins the vote: ties count against the incumbent. */
  lemma IdenticalSnapshotWins(best: map<string, int>)
    requires |best| > 0
    ensures VoteCount(best, best) == -|best| && VoteCount(best, best) < 0
  {
    assert Wins(best, best) == {};
    assert Losses(best, best) == best.Keys;
  }

  /** A snapshot at least as good on every stored metric wins the vote. */
  lemma NoWorseSnapshotWins(best: map<string, int>, perf: map<string, int>)
    requires |best| > 0 && best.Keys <= perf.Keys
    requires forall k :: k in best ==> perf[k] >= best[k]
    ensures VoteCount(best, perf) == -|best|
  {
    assert Wins(best, perf) == {};
    assert Losses(best, perf) == best.Keys;
  }

  /** A snapshot strictly worse on every stored metric loses the vote. */
  lemma WorseSnapshotLoses(best: map<string, int>, perf: map<string, int>)
    requires best.Keys <= perf.Keys
    requires forall k :: k in best ==> best[k] > perf[k]
    ensures VoteCount(best, perf) == |best|
  {
    assert Wins(best, perf) == best.Keys;
    assert Losses(best, perf) == {};
  }

  /**
   * Metrics in hundredths: stored {hit 50, prec 30, recall 40, ndcg 20}
   * against {hit 60, prec 20, recall 50, ndcg 10} splits the vote 2 to 2
   * (count 0, the incumbent stays); with prec 35 instead, the count is -2.
   */
  lemma VoteExamples()
    ensures VoteCount(map["hit" := 50, "prec" := 30, "recall" := 40, "ndcg" := 20],
                      map["hit" := 60, "prec" := 20, "recall" := 50, "ndcg" := 10]) == 0
    ensures VoteCount(map["hit" := 50, "prec" := 30, "recall" := 40, "ndcg" := 20],
                      map["hit" := 60, "prec" := 35, "recall" := 50, "ndcg" := 10]) == -2
  {
    var best := map["hit" := 50, "prec" := 30, "recall" := 40, "ndcg" := 20];
    var tie := map["hit" := 60, "prec" := 20, "recall" := 50, "ndcg" := 10];
    var better := map["hit" := 60, "prec" := 35, "recall" := 50, "ndcg" := 10];
    assert best.Keys == {"hit", "prec", "recall", "ndcg"};
    assert Wins(best, tie) == {"prec", "ndcg"};
    assert Losses(best, tie) == {"hit", "recall"};
    assert Wins(best, better) == {"ndcg"};
    assert Losses(best, better) == {"hit", "prec", "recall"};
  }

  /** The new snapshot wins exactly when it is no worse on a strict majority of the stored metrics. */
  lemma VoteIsMajority(best: map<string, int>, perf: map<string, int>)
    requires best.Keys <= perf.Keys
    ensures VoteCount(best, perf) < 0 <==> 2 * |Losses(best, perf)| > |best|
    ensures VoteCount(best, perf) == 0 <==> 2 * |Losses(best, perf)| == |best|
  {
    VotesPartition(best, perf);
  }

  /**
   * The `count` after the stored metrics in `order` have voted, in that
   * order: between -n and n after n votes, with the parity of n.
   */
  function Tally(best: map<string, int>, perf: map<string, int>, order: seq<string>): (r: int)
    requires forall i :: 0 <= i < |order| ==> order[i] in best && order[i] in perf
    ensures -|order| <= r <= |order|
    ensures (r + |order|) % 2 == 0
  {
    if order == [] then 0
    else
      var k := order[|order| - 1];
      Tally(best, perf, order[..|order| - 1]) + (if best[k] > perf[k] then 1 else -1)
  }

  /** Counting one more stored metric adds its vote to each side. */
  lemma CountedOneMore(best: map<string, int>, perf: map<string, int>, done: set<string>, k: string)
    requires k in best && k in perf && k !in done
    ensures |Wins(best, perf) * (done + {k})| == |Wins(best, perf) * done| + (if best[k] > perf[k] then 1 else 0)
    ensures |Losses(best, perf) * (done + {k})| == |Losses(best, perf) * done| + (if best[k] > perf[k] then 0 else 1)
  {
    if best[k] > perf[k] {
      assert Wins(best, perf) * (done + {k}) == Wins(best, perf) * done + {k};
      assert Losses(best, perf) * (done + {k}) == Losses(best, perf) * done;
    } else {
      assert Wins(best, perf) * (done + {k}) == Wins(best, perf) * done;
      assert Losses(best, perf) * (done + {k}) == Losses(best, perf) * done + {k};
    }
  }

  /** Taking the last metric `k` off a repeat-free `order` takes it, and only it, out of `done`. */
  lemma DropLast(order: seq<string>, done: set<string>, front: seq<string>, k: string)
    requires order != [] && Distinct(order)
    requires forall x :: x in done <==> x in order
    requires front == order[..|order| - 1] && k == order[|order| - 1]
    ensures Distinct(front)
    ensures k in done && done == (done - {k}) + {k}
    ensures forall x :: x in done - {k} <==> x in front
  {
    var n := |order| - 1;
    forall x
      ensures x in done - {k} <==> x in front
    {
      if x in front {
        var i :| 0 <= i < n && front[i] == x;
        assert order[i] == x;
      }
    }
  }

  /** Whatever the order, the tally of the metrics `done` is their +1 votes minus their -1 votes. */
  lemma {:induction false} TallyCounts(best: map<string, int>, perf: map<string, int>, order: seq<string>, done: set<string>)
    requires forall i :: 0 <= i < |order| ==> order[i] in best && order[i] in perf
    requires Distinct(order)
    requires forall x :: x in done <==> x in order
    ensures Tally(best, perf, order) == |Wins(best, perf) * done| - |Losses(best, perf) * done|
  {
    if order == [] {
      assert done == {};
    } else {
      var n := |order| - 1;
      var k := order[n];
      var rest := done - {k};
      DropLast(order, done, order[..n], k);
      TallyCounts(best, perf, order[..n], rest);
      CountedOneMore(best, perf, rest, k);
      assert done == rest + {k};
    }
  }

  /** Once every stored metric has voted, the tally is the vote count. */
  lemma CountedAll(best: map<string, int>, perf: map<string, int>, order: seq<string>)
    requires best.Keys <= perf.Keys
    requires forall i :: 0 <= i < |order| ==> order[i] in best
    requires forall k :: k in best ==> k in order
    requires Distinct(order)
    ensures Tally(best, perf, order) == VoteCount(best, perf)
  {
    TallyCounts(best, perf, order, best.Keys);
    assert Wins(best, perf) * best.Keys == Wins(best, perf);
    assert Losses(best, perf) * best.Keys == Losses(best, perf);
  }

  /**
   * The counting loop of lines 123-127: a KeyError on the first stored metric
   * the new snapshot lacks, otherwise the vote count.
   */
  method Vote(best: map<string, int>, perf: map<string, int>) returns (r: Result<int>)
    ensures r.Err? <==> !(best.Keys <= perf.Keys)
    ensures r.Err? ==> r == Err(MissingMetric)
    ensures r.Ok? ==> r.value == VoteCount(best, perf)
  {
    var count := 0;
    var todo := best.Keys;
    ghost var order: seq<string> := [];
    while todo != {}
      invariant todo <= best.Keys
      invariant forall i :: 0 <= i < |order| ==> order[i] in best && order[i] in perf && order[i] !in todo
      invariant forall k :: k in best && k !in todo ==> k in order
      invariant Distinct(order)
      invariant count == Tally(best, perf, order)
      decreases todo
    {
      var k :| k in todo;
      if k !in perf {
        return Err(MissingMetric);
      }
      if best[k] > perf[k] {
        count := count + 1;
      } else {
        count := count - 1;
      }
      assert (order + [k])[..|order|] == order;
      order := order + [k];
      todo := todo - {k};
    }
    CountedAll(best, perf, order);
    r := Ok(count);
  }

  /**
   * `self.bestPerformance`: the list `[]`, then `[epoch]` for the moment
   * between the first append and the second, then `[epoch, snapshot]`.
   * `saves` counts the calls to `self.save(model)`.
   */
  class PerformanceTracker {
    var bestEpoch: Option<int>                     // bestPerformance[0], once appended
    var bestSnapshot: Option<map<string, int>>     // bestPerformance[1], once appended
    var saves: nat

    ghost predicate Valid()
      reads this
    {
      bestSnapshot.Some? ==> bestEpoch.Some?
    }

    constructor ()
      ensures Valid()
      ensures bestEpoch == None && bestSnapshot == None && saves == 0
    {
      bestEpoch := None;
      bestSnapshot := None;
      saves := 0;
    }

    /**
     * The update of lines 117-145 after one evaluation with report `measure`.
     * From the empty list: record `[epoch + 1, snapshot]` and save once; a
     * report that does not parse leaves the one-element list `[epoch + 1]`.
     * Otherwise: parse, read the stored snapshot, vote, and on a negative
     * count replace both slots and save once; every fault leaves the state as
     * it was. `parse` reads one report line; `fast_evaluation` reads them with
     * `LineReader(valueOf)`, that is `m.strip().split(':')` then `float(v)`.
     */
    method Update(epoch: int, measure: seq<string>, parse: LineParser) returns (r: Outcome)
      requires Valid()
      modifies this
      ensures Valid()
      ensures old(bestEpoch).None? ==>
        match Snapshot(measure, parse)
        case Ok(perf) => r == Pass && bestEpoch == Some(epoch + 1) && bestSnapshot == Some(perf) && saves == old(saves) + 1
        case Err(f) => r == Fail(f) && bestEpoch == Some(epoch + 1) && bestSnapshot == None && saves == old(saves)
      ensures old(bestEpoch).Some? ==>
        match Snapshot(measure, parse)
        case Err(f) => r == Fail(f) && unchanged(this)
        case Ok(perf) =>
          if old(bestSnapshot).None? then r == Fail(MissingSnapshot) && unchanged(this)
          else if !(old(bestSnapshot).value.Keys <= perf.Keys) then r == Fail(MissingMetric) && unchanged(this)
          else if VoteCount(old(bestSnapshot).value, perf) < 0 then
            r == Pass && bestEpoch == Some(epoch + 1) && bestSnapshot == Some(perf) && saves == old(saves) + 1
          else r == Pass && unchanged(this)
    {
      if bestEpoch.Some? {
        var performance := ParseSnapshot(measure, parse);
        if performance.Err? {
          return Fail(performance.fault);
        }
        if bestSnapshot.None? {
          return Fail(MissingSnapshot);
        }
        var count := Vote(bestSnapshot.value, performance.value);
        if count.Err? {
          return Fail(count.fault);
        }
        if count.value < 0 {
          bestSnapshot := Some(performance.value);
          bestEpoch := Some(epoch + 1);
          saves := saves + 1;
        }
        r := Pass;
      } else {
        bestEpoch := Some(epoch + 1);
        var performance := ParseSnapshot(measure, parse);
        if performance.Err? {
          return Fail(performance.fault);
        }
        bestSnapshot := Some(performance.value);
        saves := saves + 1;
        r := Pass;
      }
    }
  }
}
