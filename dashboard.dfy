/**
 * The shaping the dashboard page (src/pages/dashboard.js) applies to the
 * data it fetches: the badge class of an error type, the per-topic error
 * totals, the list behind the progress chart, and the stats built from the
 * legacy endpoint.
 */
module Dashboard {
  import opened Wrappers
  import opened Text
  import Server
  import SimpleAnalyze
  import Home

  /** `getErrorBadgeClass(errorType)`: `no error` (with a space) first, then `conceptual`, else `calculation`. */
  function GetErrorBadgeClass(errorType: Option<String>): (r: String)
    ensures Home.Has(errorType, "no error") <==> r == "no-error"
    ensures (!Home.Has(errorType, "no error") && Home.Has(errorType, "conceptual")) <==> r == "conceptual"
    ensures !Home.Has(errorType, "no error") && !Home.Has(errorType, "conceptual") <==> r == "calculation"
    ensures errorType.None? ==> r == "calculation"
  {
    if Home.Has(errorType, "no error") then "no-error"
    else if Home.Has(errorType, "conceptual") then "conceptual"
    else "calculation"
  }

  /**
   * The error type the analyzers give a correct solution, `no_error`,
   * has an underscore: the dashboard badges it as a calculation error,
   * while the upload page styles the same value as a success.
   */
  lemma CorrectSolutionBadges()
    ensures GetErrorBadgeClass(Some(SimpleAnalyze.NoError)) == "calculation"
    ensures Home.GetErrorTypeStyle(Some(SimpleAnalyze.NoError)) == "success"
  {
    var s := SimpleAnalyze.NoError;
    AbsentCharRulesOut(s, "no error", ' ');
    AbsentCharRulesOut(s, "conceptual", 'c');
    assert ContainsAt(s, "no_error", 0);
  }

  // ------------------------------------------------------------- topics

  /** One row of `data.analytics`, as the server's counter table returns it. */
  datatype AnalyticsRow = AnalyticsRow(topic: String, totalProblems: int, conceptualErrors: int, computationalErrors: int)

  /** One entry of the topic list (the accuracy percentage is not modelled). */
  datatype TopicEntry = TopicEntry(topic: String, total: int, errors: int)

  /** `data.analytics.map(...)`: each topic with its problem count and its errors of both kinds together. */
  function TopicData(rows: seq<AnalyticsRow>): (r: seq<TopicEntry>)
    ensures |r| == |rows|
    ensures forall i :: 0 <= i < |rows| ==>
      r[i].topic == rows[i].topic && r[i].total == rows[i].totalProblems
      && r[i].errors == rows[i].conceptualErrors + rows[i].computationalErrors
  {
    if rows == [] then []
    else
      var row := rows[0];
      [TopicEntry(row.topic, row.totalProblems, row.conceptualErrors + row.computationalErrors)] + TopicData(rows[1..])
  }

  /** The row the server returns for a key of its counter table. */
  function RowOf(topic: String, c: Server.Counters): AnalyticsRow {
    AnalyticsRow(topic, c.totalProblems, c.conceptualErrors, c.computationalErrors)
  }

  /**
   * For rows read from counters the server keeps consistent, the errors
   * shown for a topic never exceed its problem count, so the accuracy the
   * page derives from them is never negative.
   */
  lemma TopicErrorsBounded(topics: seq<String>, counters: seq<Server.Counters>)
    requires |topics| == |counters|
    requires forall i :: 0 <= i < |counters| ==> Server.Consistent(counters[i])
    ensures var r := TopicData(seq(|topics|, i requires 0 <= i < |topics| => RowOf(topics[i], counters[i])));
      forall i :: 0 <= i < |r| ==> 0 <= r[i].errors <= r[i].total
  {
  }

  // ----------------------------------------------------------- progress

  /** The problems the server returns hold, for the chart, only their error type. */
  datatype ProblemRecord = ProblemRecord(errorType: Option<String>)

  /** One point of the progress chart (the confidence percentage is not modelled). */
  datatype ProgressPoint = ProgressPoint(problem: nat, correct: nat)

  /** `xs.reverse()` on a copy. */
  function Reverse<T>(xs: seq<T>): (r: seq<T>)
    ensures |r| == |xs| && forall i :: 0 <= i < |xs| ==> r[i] == xs[|xs| - 1 - i]
  {
    if xs == [] then [] else Reverse(xs[1..]) + [xs[0]]
  }

  /** The map step: points numbered from `from`, correct exactly when the error type is `no_error`. */
  function Points(problems: seq<ProblemRecord>, from: nat): (r: seq<ProgressPoint>)
    ensures |r| == |problems|
    ensures forall i :: 0 <= i < |problems| ==>
      r[i].problem == from + i && r[i].correct == (if problems[i].errorType == Some("no_error") then 100 else 0)
  {
    if problems == [] then []
    else
      [ProgressPoint(from, if problems[0].errorType == Some("no_error") then 100 else 0)] + Points(problems[1..], from + 1)
  }

  /**
   * `problems.slice(0, 10).reverse().map(...)`: the first ten problems,
   * oldest last in the response, so the chart runs from the tenth to the
   * first, numbered from 1.
   */
  function ProgressChart(problems: seq<ProblemRecord>): (r: seq<ProgressPoint>)
    ensures var n := if |problems| < 10 then |problems| else 10;
      && |r| == n
      && forall i :: 0 <= i < n ==>
        r[i].problem == i + 1
        && (r[i].correct == 100 <==> problems[n - 1 - i].errorType == Some("no_error"))
        && (r[i].correct == 0 <==> problems[n - 1 - i].errorType != Some("no_error"))
  {
    var n := if |problems| < 10 then |problems| else 10;
    Points(Reverse(problems[..n]), 1)
  }

  /** The chart only reorders: the correct points are as many as the correct problems among the first ten. */
  lemma {:induction false} ProgressCountsCorrect(problems: seq<ProblemRecord>)
    ensures var n := if |problems| < 10 then |problems| else 10;
      CountCorrect(ProgressChart(problems)) == CountNoError(problems[..n])
  {
    var n := if |problems| < 10 then |problems| else 10;
    var r := ProgressChart(problems);
    CountReversed(problems[..n], r);
  }

  function CountCorrect(points: seq<ProgressPoint>): nat {
    if points == [] then 0 else (if points[0].correct == 100 then 1 else 0) + CountCorrect(points[1..])
  }

  function CountNoError(problems: seq<ProblemRecord>): nat {
    if problems == [] then 0
    else (if problems[0].errorType == Some("no_error") then 1 else 0) + CountNoError(problems[1..])
  }

  /** Counting from the back gives the same count. */
  lemma {:induction false} CountNoErrorSnoc(problems: seq<ProblemRecord>)
    requires problems != []
    ensures CountNoError(problems) ==
      CountNoError(problems[..|problems| - 1]) + (if problems[|problems| - 1].errorType == Some("no_error") then 1 else 0)
  {
    if |problems| > 1 {
      CountNoErrorSnoc(problems[1..]);
      assert problems[1..][..|problems[1..]| - 1] == problems[..|problems| - 1][1..];
    }
  }

  /** Points that mirror a list of problems count as many correct entries as it has `no_error` ones. */
  lemma {:induction false} CountReversed(ps: seq<ProblemRecord>, r: seq<ProgressPoint>)
    requires |r| == |ps|
    requires forall i :: 0 <= i < |ps| ==> (r[i].correct == 100 <==> ps[|ps| - 1 - i].errorType == Some("no_error"))
    ensures CountCorrect(r) == CountNoError(ps)
  {
    if ps != [] {
      var init := ps[..|ps| - 1];
      forall i | 0 <= i < |init| ensures (r[1..][i].correct == 100 <==> init[|init| - 1 - i].errorType == Some("no_error")) {
        assert r[1..][i] == r[i + 1];
      }
      CountReversed(init, r[1..]);
      CountNoErrorSnoc(ps);
    }
  }

  // -------------------------------------------------------------- legacy

  /** The stats object the page builds from the legacy endpoint's counts. */
  datatype Stats = Stats(totalProblems: int, conceptualErrors: int, computationalErrors: int, correctSolutions: int, avgConfidence: int)

  /** `x || 0` for a count the response may lack. */
  function OrZero(x: Option<int>): int {
    if x.Some? then x.value else 0
  }

  /**
   * The fallback stats: the total is the sum of the two error counts, each
   * missing count taken as zero, and nothing is counted as correct.
   */
  function LegacyStats(numConceptual: Option<int>, numComputational: Option<int>): (r: Stats)
    ensures numConceptual.None? ==> r.conceptualErrors == 0
    ensures numComputational.None? ==> r.computationalErrors == 0
    ensures numConceptual.Some? ==> r.conceptualErrors == numConceptual.value
    ensures numComputational.Some? ==> r.computationalErrors == numComputational.value
    ensures r.totalProblems == r.conceptualErrors + r.computationalErrors
    ensures r.correctSolutions == 0 && r.avgConfidence == 0
  {
    var c, p := OrZero(numConceptual), OrZero(numComputational);
    Stats(c + p, c, p, 0, 0)
  }
}
