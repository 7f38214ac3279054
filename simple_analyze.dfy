/**
 * `simpleAnalysis` (api/simple-analyze.js): the offline keyword classifier.
 * A gate on solution indicators, a split on the first solution delimiter,
 * and an error type decided by plain substring tests.
 */
module SimpleAnalyze {
  import opened Wrappers
  import opened Text

  const NoError: String := "no_error"
  const Computational: String := "computational"
  const Conceptual: String := "conceptual"
  const NoSolutionProvided: String := "no_solution_provided"

  /** The record `simpleAnalysis` returns. */
  datatype Analysis = Analysis(
    originalProblem: String,
    studentSolution: String,
    errorType: String,
    explanation: String,
    hints: String,
    confidenceScore: real,
    topic: String,
    difficultyLevel: String)

  /** The gate: the lower-cased text mentions `my solution`, `my answer` or `x =`. */
  predicate HasIndicator(text: String) {
    var low := Lower(text);
    Contains(low, "my solution") || Contains(low, "my answer") || Contains(low, "x =")
  }

  /**
   * `toLowerCase().includes(w)` is a case-insensitive search: the gate
   * holds iff one of its three phrases occurs somewhere in the text in any
   * letter case.
   */
  lemma IndicatorIgnoresCase(text: String)
    ensures HasIndicator(text) <==>
      exists i :: 0 <= i <= |text| && (ContainsAtNoCase(text, "my solution", i)
        || ContainsAtNoCase(text, "my answer", i) || ContainsAtNoCase(text, "x =", i))
  {
    var low := Lower(text);
    forall i | 0 <= i <= |text|
      ensures ContainsAt(low, "my solution", i) <==> ContainsAtNoCase(text, "my solution", i)
      ensures ContainsAt(low, "my answer", i) <==> ContainsAtNoCase(text, "my answer", i)
      ensures ContainsAt(low, "x =", i) <==> ContainsAtNoCase(text, "x =", i)
    {
      NoCaseIsLowered(text, "my solution", i);
      NoCaseIsLowered(text, "my answer", i);
      NoCaseIsLowered(text, "x =", i);
    }
  }

  /**
   * The length of the delimiter `/my solution:|my answer:|solution:/i`
   * matched at position `i`, trying the alternatives in their written
   * order. The search runs over the lower-cased text `low`: with ASCII
   * folding a case-insensitive match in the text is a plain match at the
   * same position of its lower-cased copy (`NoCaseIsLowered`).
   */
  function DelimiterAt(low: String, i: nat): (r: Option<nat>)
    ensures r.Some? <==>
      ContainsAt(low, "my solution:", i) || ContainsAt(low, "my answer:", i) || ContainsAt(low, "solution:", i)
    ensures r.Some? ==> 0 < r.value && i + r.value <= |low|
  {
    if ContainsAt(low, "my solution:", i) then Some(12)
    else if ContainsAt(low, "my answer:", i) then Some(10)
    else if ContainsAt(low, "solution:", i) then Some(9)
    else None
  }

  /** A case-insensitive occurrence is an occurrence in the lower-cased text. */
  lemma NoCaseIsLowered(s: String, w: String, i: nat)
    ensures ContainsAt(Lower(s), w, i) <==> ContainsAtNoCase(s, w, i)
  {
    if i + |w| <= |s| {
      assert Lower(s)[i..i + |w|] == Lower(s[i..i + |w|]);
    }
  }

  /** The delimiter length reported at each position of the lower-cased text. */
  function Delimiters(low: String): nat -> Option<nat> {
    i => DelimiterAt(low, i)
  }

  /** Every delimiter `d` reports is non-empty and ends inside a text of length `n`. */
  predicate ValidDelimiters(n: nat, d: nat -> Option<nat>) {
    forall i: nat :: i < n && d(i).Some? ==> 0 < d(i).value && i + d(i).value <= n
  }

  /** The first position at or after `q`, and before `n`, at which `d` reports a delimiter. */
  function NextBy(n: nat, d: nat -> Option<nat>, q: nat): (r: Option<nat>)
    requires q <= n
    ensures r.Some? ==> q <= r.value < n && d(r.value).Some?
    ensures r.Some? ==> forall j: nat :: q <= j < r.value ==> d(j).None?
    ensures r.None? ==> forall j: nat :: q <= j < n ==> d(j).None?
    decreases n - q
  {
    if q == n then None
    else if d(q).Some? then Some(q)
    else NextBy(n, d, q + 1)
  }

  /** The first position at or after `q` where a delimiter starts. */
  function NextDelimiter(low: String, q: nat): (r: Option<nat>)
    requires q <= |low|
    ensures r.Some? ==> q <= r.value < |low| && DelimiterAt(low, r.value).Some?
    ensures r.Some? ==> forall j :: q <= j < r.value ==> DelimiterAt(low, j).None?
    ensures r.None? ==> forall j :: q <= j < |low| ==> DelimiterAt(low, j).None?
  {
    assert forall j: nat :: Delimiters(low)(j) == DelimiterAt(low, j);
    NextBy(|low|, Delimiters(low), q)
  }

  /**
   * `String.prototype.split` with a regular expression whose matches are
   * never empty: the scan is at `q`, the current part starts at `p`, and
   * `d` gives the length of the delimiter starting at each position.
   */
  function SplitBy(s: String, d: nat -> Option<nat>, p: nat, q: nat): (r: seq<String>)
    requires ValidDelimiters(|s|, d) && p <= q <= |s|
    ensures |r| >= 1
    decreases |s| - q
  {
    if q == |s| then [s[p..]]
    else
      match d(q)
      case Some(n) => [s[p..q]] + SplitBy(s, d, q + n, q + n)
      case None => SplitBy(s, d, p, q + 1)
  }

  /**
   * `text.split(/my solution:|my answer:|solution:/i)`: delimiters are
   * looked up in the lower-cased copy of the text.
   */
  function Split(s: String): (r: seq<String>)
    ensures |r| >= 1
  {
    SplitBy(s, Delimiters(Lower(s)), 0, 0)
  }

  /** The scan jumps straight to the next delimiter. */
  lemma {:induction false} SplitByJumps(s: String, d: nat -> Option<nat>, p: nat, q: nat)
    requires ValidDelimiters(|s|, d) && p <= q <= |s|
    ensures NextBy(|s|, d, q).None? ==> SplitBy(s, d, p, q) == [s[p..]]
    ensures NextBy(|s|, d, q).Some? ==>
      var k := NextBy(|s|, d, q).value;
      var e := k + d(k).value;
      SplitBy(s, d, p, q) == [s[p..k]] + SplitBy(s, d, e, e)
    decreases |s| - q
  {
    if q < |s| && d(q).None? {
      SplitByJumps(s, d, p, q + 1);
    }
  }

  /** Where the part that starts at `e` ends: at the next delimiter `d` reports, or at the end `n`. */
  function PartEndBy(n: nat, d: nat -> Option<nat>, e: nat): (r: nat)
    requires e <= n
    ensures e <= r <= n
  {
    match NextBy(n, d, e)
    case Some(k) => k
    case None => n
  }

  /** Where the part that starts at `e` ends: at the next delimiter, or at the end of the text. */
  function PartEnd(low: String, e: nat): (r: nat)
    requires e <= |low|
    ensures NextDelimiter(low, e).Some? ==> r == NextDelimiter(low, e).value
    ensures NextDelimiter(low, e).None? ==> r == |low|
  {
    PartEndBy(|low|, Delimiters(low), e)
  }

  /**
   * With no delimiter the split is the whole text alone. Otherwise part 0
   * is the text before the first delimiter and part 1 runs from the end of
   * that delimiter to the next one, or to the end of the text.
   */
  lemma SplitParts(s: String)
    ensures NextDelimiter(Lower(s), 0).None? <==> |Split(s)| == 1
    ensures NextDelimiter(Lower(s), 0).None? ==> Split(s) == [s]
    ensures NextDelimiter(Lower(s), 0).Some? ==>
      var low := Lower(s);
      var k := NextDelimiter(low, 0).value;
      var e := k + DelimiterAt(low, k).value;
      && Split(s)[0] == s[..k]
      && Split(s)[1] == s[e..PartEnd(low, e)]
  {
    var low := Lower(s);
    var d := Delimiters(low);
    assert |low| == |s| && ValidDelimiters(|s|, d);
    SplitByParts(s, d);
    if NextDelimiter(low, 0).Some? {
      var k := NextDelimiter(low, 0).value;
      assert d(k) == DelimiterAt(low, k);
    }
  }

  /** The first two parts of a split, for any delimiter function. */
  lemma SplitByParts(s: String, d: nat -> Option<nat>)
    requires ValidDelimiters(|s|, d)
    ensures NextBy(|s|, d, 0).None? ==> SplitBy(s, d, 0, 0) == [s]
    ensures NextBy(|s|, d, 0).Some? ==>
      var k := NextBy(|s|, d, 0).value;
      var e := k + d(k).value;
      var parts := SplitBy(s, d, 0, 0);
      |parts| >= 2 && parts[0] == s[..k] && parts[1] == s[e..PartEndBy(|s|, d, e)]
  {
    var next := NextBy(|s|, d, 0);
    if next.None? {
      SplitWhole(s, d);
    } else {
      var k := next.value;
      SplitAtFirst(s, d, k, k + d(k).value);
    }
  }

  /** With no delimiter the split is the text alone. */
  lemma SplitWhole(s: String, d: nat -> Option<nat>)
    requires ValidDelimiters(|s|, d) && NextBy(|s|, d, 0).None?
    ensures SplitBy(s, d, 0, 0) == [s]
  {
    SplitByJumps(s, d, 0, 0);
    assert s[0..] == s;
  }

  /** The split with its first delimiter at `k`, ending at `e`. */
  lemma SplitAtFirst(s: String, d: nat -> Option<nat>, k: nat, e: nat)
    requires ValidDelimiters(|s|, d)
    requires NextBy(|s|, d, 0) == Some(k) && d(k).Some? && e == k + d(k).value
    ensures |SplitBy(s, d, 0, 0)| >= 2
    ensures SplitBy(s, d, 0, 0)[0] == s[..k] && SplitBy(s, d, 0, 0)[1] == s[e..PartEndBy(|s|, d, e)]
  {
    SplitByJumps(s, d, 0, 0);
    assert SplitBy(s, d, 0, 0) == [s[0..k]] + SplitBy(s, d, e, e);
    FirstPart(s, d, e);
  }

  /** The part that starts at `p` ends where the next delimiter starts, or at the end. */
  lemma FirstPart(s: String, d: nat -> Option<nat>, p: nat)
    requires ValidDelimiters(|s|, d) && p <= |s|
    ensures SplitBy(s, d, p, p)[0] == s[p..PartEndBy(|s|, d, p)]
  {
    SplitByJumps(s, d, p, p);
  }

  /**
   * The error type of a split text, by case-sensitive substring tests:
   * `no_error` for `x = 2` in the solution together with `2x + 3 = 7` in
   * the problem, else `computational` for any `x =` in the solution, else
   * `conceptual`.
   */
  function Classify(problem: String, solution: String): (r: String)
    ensures r == NoError <==> Contains(solution, "x = 2") && Contains(problem, "2x + 3 = 7")
    ensures r == Computational <==> !(Contains(solution, "x = 2") && Contains(problem, "2x + 3 = 7")) && Contains(solution, "x =")
    ensures r == Conceptual <==> !(Contains(solution, "x = 2") && Contains(problem, "2x + 3 = 7")) && !Contains(solution, "x =")
    ensures r != NoSolutionProvided
  {
    if Contains(solution, "x = 2") && Contains(problem, "2x + 3 = 7") then NoError
    else if Contains(solution, "x =") then Computational
    else Conceptual
  }

  /** The four explanations. */
  const CorrectExplanation: String := "Great job! Your solution is correct."
  const CalculationExplanation: String := "Check your calculations - there might be an arithmetic error."
  const ConceptExplanation: String := "Review the problem-solving approach and make sure you understand the concept."
  const MissingExplanation: String := "Please provide your solution attempt so I can help you."

  /** The nested ternary that picks the explanation. */
  function Explanation(errorType: String): (r: String)
    ensures errorType == NoError ==> r == CorrectExplanation
    ensures errorType == Computational ==> r == CalculationExplanation
    ensures errorType == Conceptual ==> r == ConceptExplanation
    ensures errorType !in {NoError, Computational, Conceptual} ==> r == MissingExplanation
  {
    if errorType == NoError then CorrectExplanation
    else if errorType == Computational then CalculationExplanation
    else if errorType == Conceptual then ConceptExplanation
    else MissingExplanation
  }

  /** The four error types get four different explanations. */
  lemma ExplanationsDistinct(a: String, b: String)
    requires a in {NoError, Computational, Conceptual, NoSolutionProvided}
    requires b in {NoError, Computational, Conceptual, NoSolutionProvided}
    requires a != b
    ensures Explanation(a) != Explanation(b)
  {
    assert |NoError| == 8 && |Computational| == 13 && |Conceptual| == 10 && |NoSolutionProvided| == 20;
    assert |CorrectExplanation| == 36 && |CalculationExplanation| == 61;
    assert |ConceptExplanation| == 77 && |MissingExplanation| == 55;
  }

  /**
   * The split step: when the gate passes and a delimiter occurs, the
   * trimmed text before the first delimiter and the trimmed text between
   * the first and the second (or the end); later segments are dropped.
   */
  function Segment(text: String): (r: Option<(String, String)>)
    ensures r.None? <==> !HasIndicator(text) || NextDelimiter(Lower(text), 0).None?
    ensures r.Some? ==>
      var low := Lower(text);
      var k := NextDelimiter(low, 0).value;
      var e := k + DelimiterAt(low, k).value;
      r.value == (Trim(text[..k]), Trim(text[e..PartEnd(low, e)]))
  {
    SplitParts(text);
    if HasIndicator(text) then
      var parts := Split(text);
      if |parts| > 1 then Some((Trim(parts[0]), Trim(parts[1]))) else None
    else None
  }

  /** `simpleAnalysis(problemText)`. */
  function SimpleAnalysis(text: String): (r: Analysis)
    ensures Segment(text).None? ==>
      r.originalProblem == text && r.studentSolution == "" && r.errorType == NoSolutionProvided
    ensures Segment(text).Some? ==>
      && (r.originalProblem, r.studentSolution) == Segment(text).value
      && r.errorType == Classify(r.originalProblem, r.studentSolution)
    ensures r.explanation == Explanation(r.errorType)
    ensures r.hints == "Show your work step by step for better analysis."
    ensures r.confidenceScore == 0.75 && r.topic == "algebra" && r.difficultyLevel == "beginner"
  {
    var (problem, solution, errorType) :=
      match Segment(text)
      case Some((p, s)) => (p, s, Classify(p, s))
      case None => (text, "", NoSolutionProvided);
    Analysis(problem, solution, errorType, Explanation(errorType),
      "Show your work step by step for better analysis.", 0.75, "algebra", "beginner")
  }

  /** `no_solution_provided` stays exactly when the gate fails or no delimiter occurs. */
  lemma NoSolutionIff(text: String)
    ensures SimpleAnalysis(text).errorType == NoSolutionProvided <==> !HasIndicator(text) || NextDelimiter(Lower(text), 0).None?
  {
  }

  /** The test is a plain substring test, so an answer `x = 25` is taken as correct. */
  lemma TwentyFiveCountsAsCorrect(prefix: String, suffix: String)
    ensures Classify(prefix + "2x + 3 = 7" + suffix, "x = 25") == NoError
  {
    assert ContainsAt("x = 25", "x = 2", 0);
    var p := prefix + "2x + 3 = 7" + suffix;
    assert ContainsAt(p, "2x + 3 = 7", |prefix|) by {
      assert p[|prefix|..|prefix| + 10] == "2x + 3 = 7";
    }
  }
}
