/** notebooks/analyze.py: `collect_scores`, which groups the metric scores of an
    evaluation run by metric name. The parsed results file is the input; a score is
    only stored, never computed with. The dictionary's key order (insertion order,
    which later becomes the column order of the data frame) is kept beside the map. */
module Analyze {
  datatype Metric = Metric(name: string, score: real)

  datatype TestResult = TestResult(metricsData: seq<Metric>)

  /** A `defaultdict(list)` of scores: the lists by name, and the names in the order
      they were first used. */
  datatype Scores = Scores(byName: map<string, seq<real>>, names: seq<string>)

  /** Every metric of every result, results first, then metrics within a result. */
  function AllMetrics(results: seq<TestResult>): seq<Metric>
  {
    if |results| == 0 then [] else AllMetrics(results[..|results| - 1]) + results[|results| - 1].metricsData
  }

  /** `scores[metric["name"]].append(metric["score"])`, where a missing name first gets
      an empty list. */
  function Add(s: Scores, m: Metric): Scores
  {
    if m.name in s.byName then Scores(s.byName[m.name := s.byName[m.name] + [m.score]], s.names)
    else Scores(s.byName[m.name := [m.score]], s.names + [m.name])
  }

  /** The dictionary after appending the metrics one after the other. */
  function Collected(ms: seq<Metric>): Scores
  {
    if |ms| == 0 then Scores(map[], []) else Add(Collected(ms[..|ms| - 1]), ms[|ms| - 1])
  }

  /** The scores of the metrics with the given name, in encounter order. */
  function ScoresNamed(ms: seq<Metric>, name: string): seq<real>
  {
    if |ms| == 0 then []
    else ScoresNamed(ms[..|ms| - 1], name) + (if ms[|ms| - 1].name == name then [ms[|ms| - 1].score] else [])
  }

  /** The names of the metrics, each once, in the order they first appear. */
  function FirstSeen(ms: seq<Metric>): seq<string>
  {
    if |ms| == 0 then []
    else
      var before := FirstSeen(ms[..|ms| - 1]);
      if ms[|ms| - 1].name in before then before else before + [ms[|ms| - 1].name]
  }

  predicate Distinct(s: seq<string>)
  {
    forall i, j :: 0 <= i < j < |s| ==> s[i] != s[j]
  }

  /** The total number of scores stored under the listed names. */
  function Total(byName: map<string, seq<real>>, names: seq<string>): nat
  {
    if |names| == 0 then 0
    else Total(byName, names[..|names| - 1]) + (if names[|names| - 1] in byName then |byName[names[|names| - 1]]| else 0)
  }

  /** `collect_scores(results)` for `results["test_results"]`. */
  method CollectScores(results: seq<TestResult>) returns (scores: map<string, seq<real>>, names: seq<string>)
    ensures Scores(scores, names) == Collected(AllMetrics(results))
    ensures scores.Keys == set m | m in AllMetrics(results) :: m.name
    ensures forall n :: n in scores ==> scores[n] == ScoresNamed(AllMetrics(results), n)
    ensures names == FirstSeen(AllMetrics(results))
    ensures Total(scores, names) == |AllMetrics(results)|
  {
    scores, names := map[], [];
    var r := 0;
    while r < |results|
      invariant 0 <= r <= |results|
      invariant Scores(scores, names) == Collected(AllMetrics(results[..r]))
    {
      var result := results[r];
      ghost var done := AllMetrics(results[..r]);
      var m := 0;
      assert done + result.metricsData[..0] == done;
      while m < |result.metricsData|
        invariant 0 <= m <= |result.metricsData|
        invariant Scores(scores, names) == Collected(done + result.metricsData[..m])
      {
        var metric := result.metricsData[m];
        MetricStep(done, result.metricsData, m);
        if metric.name in scores {
          scores := scores[metric.name := scores[metric.name] + [metric.score]];
        } else {
          scores := scores[metric.name := [metric.score]];
          names := names + [metric.name];
        }
        m := m + 1;
      }
      ResultStep(results, r);
      r := r + 1;
    }
    assert results[..r] == results;
    ghost var ms := AllMetrics(results);
    assert scores == Collected(ms).byName && names == Collected(ms).names;
    CollectedNames(ms);
    CollectedLists(ms);
    CollectedTotal(ms);
  }

  /** One more metric of the current result is one more `Add`. */
  lemma MetricStep(done: seq<Metric>, metrics: seq<Metric>, m: nat)
    requires m < |metrics|
    ensures Collected(done + metrics[..m + 1]) == Add(Collected(done + metrics[..m]), metrics[m])
  {
    assert done + metrics[..m + 1] == (done + metrics[..m]) + [metrics[m]];
    CollectedSnoc(done + metrics[..m], metrics[m]);
  }

  /** One more result contributes all of its metrics, in order. */
  lemma ResultStep(results: seq<TestResult>, r: nat)
    requires r < |results|
    ensures AllMetrics(results[..r + 1]) == AllMetrics(results[..r]) + results[r].metricsData[..|results[r].metricsData|]
  {
    assert results[..r + 1][..r] == results[..r];
    assert results[r].metricsData[..|results[r].metricsData|] == results[r].metricsData;
  }

  lemma CollectedSnoc(ms: seq<Metric>, m: Metric)
    ensures Collected(ms + [m]) == Add(Collected(ms), m)
  {
    assert (ms + [m])[..|ms|] == ms;
  }

  /** The keys are exactly the names seen, and the key order lists every key once, in
      order of first use. */
  lemma {:induction false} CollectedNames(ms: seq<Metric>)
    ensures Collected(ms).byName.Keys == set m | m in ms :: m.name
    ensures Collected(ms).names == FirstSeen(ms)
    ensures forall n :: n in Collected(ms).byName <==> n in Collected(ms).names
    ensures Distinct(Collected(ms).names)
  {
    if |ms| > 0 {
      var init, last := ms[..|ms| - 1], ms[|ms| - 1];
      assert ms == init + [last];
      CollectedNames(init);
      assert (set m | m in ms :: m.name) == (set m | m in init :: m.name) + {last.name};
      var s := Collected(init);
      assert Collected(ms) == Add(s, last);
      if last.name in s.byName {
        assert Collected(ms).names == s.names;
      } else {
        assert last.name !in s.names;
        assert Collected(ms).names == s.names + [last.name];
      }
    }
  }

  /** Each list holds the scores of its name, in encounter order. */
  lemma {:induction false} CollectedLists(ms: seq<Metric>)
    ensures forall n :: n in Collected(ms).byName ==> Collected(ms).byName[n] == ScoresNamed(ms, n)
  {
    if |ms| > 0 {
      var init, last := ms[..|ms| - 1], ms[|ms| - 1];
      CollectedLists(init);
      var s := Collected(init);
      assert Collected(ms) == Add(s, last);
      if last.name !in s.byName {
        CollectedNames(init);
        assert forall m :: m in init ==> m.name in s.byName;
        ScoresNamedUnseen(init, last.name);
      }
      forall n | n in Collected(ms).byName
        ensures Collected(ms).byName[n] == ScoresNamed(ms, n)
      {
        assert ScoresNamed(ms, n) == ScoresNamed(init, n) + (if last.name == n then [last.score] else []);
      }
    }
  }

  /** A name nobody used has no scores. */
  lemma {:induction false} ScoresNamedUnseen(ms: seq<Metric>, name: string)
    requires forall m :: m in ms ==> m.name != name
    ensures ScoresNamed(ms, name) == []
  {
    if |ms| > 0 {
      assert forall m :: m in ms[..|ms| - 1] ==> m in ms;
      ScoresNamedUnseen(ms[..|ms| - 1], name);
    }
  }

  /** Raising the list of one listed key by one score raises the total by one. */
  lemma {:induction false} TotalGrow(byName: map<string, seq<real>>, names: seq<string>, n: string, x: real)
    requires n in byName && Distinct(names) && n in names
    ensures Total(byName[n := byName[n] + [x]], names) == Total(byName, names) + 1
  {
    var init := names[..|names| - 1];
    assert Distinct(init);
    if names[|names| - 1] == n {
      assert n !in init;
      TotalSame(byName, init, n, byName[n] + [x]);
    } else {
      assert n in init;
      TotalGrow(byName, init, n, x);
    }
  }

  /** Storing under a name that is not listed leaves the total unchanged. */
  lemma {:induction false} TotalSame(byName: map<string, seq<real>>, names: seq<string>, n: string, v: seq<real>)
    requires n !in names
    ensures Total(byName[n := v], names) == Total(byName, names)
  {
    if |names| > 0 {
      assert names[..|names| - 1] <= names;
      TotalSame(byName, names[..|names| - 1], n, v);
    }
  }

  /** Every metric's score is stored exactly once: the lists hold as many scores as
      there were metrics. */
  lemma {:induction false} CollectedTotal(ms: seq<Metric>)
    ensures Total(Collected(ms).byName, Collected(ms).names) == |ms|
  {
    if |ms| > 0 {
      var init, last := ms[..|ms| - 1], ms[|ms| - 1];
      CollectedTotal(init);
      CollectedNames(init);
      var s := Collected(init);
      if last.name in s.byName {
        TotalGrow(s.byName, s.names, last.name, last.score);
      } else {
        TotalSame(s.byName, s.names, last.name, [last.score]);
        assert (s.names + [last.name])[..|s.names|] == s.names;
      }
    }
  }

  /** A test result without metrics adds nothing. */
  lemma EmptyResultAddsNothing(results: seq<TestResult>)
    ensures Collected(AllMetrics(results + [TestResult([])])) == Collected(AllMetrics(results))
  {
    assert (results + [TestResult([])])[..|results|] == results;
    assert AllMetrics(results + [TestResult([])]) == AllMetrics(results) + [];
    assert AllMetrics(results) + [] == AllMetrics(results);
  }
}
