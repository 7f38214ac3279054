/**
 * The data shaping in api/analyze-problem.js: the confidence default
 * applied to the model's JSON reply, the record used when the analysis
 * fails, the guard in front of the database insert, and the response the
 * handler builds.
 */
module AnalyzeProblem {
  import opened Wrappers
  import opened Text

  /** A JSON string field: `None` when it is missing or `null`. */
  type Field = Option<String>

  /** The `confidenceScore` field: missing or `null`, or a number. */
  datatype Score = Absent | Number(value: real)

  /** A field is truthy when it is present and not the empty string. */
  predicate Truthy(f: Field) {
    f.Some? && f.value != ""
  }

  /** `f || fallback`. */
  function OrElse(f: Field, fallback: String): (r: String)
    ensures Truthy(f) ==> r == f.value
    ensures !Truthy(f) ==> r == fallback
  {
    if Truthy(f) then f.value else fallback
  }

  /** The analysis object, as parsed from the reply or built on failure. */
  datatype Analysis = Analysis(
    originalProblem: Field,
    studentSolution: Field,
    errorType: Field,
    explanation: Field,
    hints: Field,
    confidenceScore: Score,
    topic: Field,
    difficultyLevel: Field)

  /** What came back from the chat completion: a reply that parsed as JSON, or a failure of the call or the parse. */
  datatype Reply = Replied(parsed: Analysis) | Failed

  /** The score is falsy: missing, `null` or zero. */
  predicate FalsyScore(s: Score) {
    s.Absent? || s.value == 0.0
  }

  /**
   * `if (!result.confidenceScore || result.confidenceScore > 1) result.confidenceScore = 0.75`.
   * The result is always a number no greater than 1 and never zero; a score
   * in (0, 1] is kept and a negative score is not corrected.
   */
  function EnsureConfidence(s: Score): (r: Score)
    ensures r.Number? && r.value <= 1.0 && r.value != 0.0
    ensures s.Number? && 0.0 < s.value <= 1.0 ==> r == s
    ensures s.Number? && s.value < 0.0 ==> r == s
    ensures FalsyScore(s) || (s.Number? && s.value > 1.0) ==> r == Number(0.75)
  {
    if FalsyScore(s) || s.value > 1.0 then Number(0.75) else s
  }

  /** Applying the default twice changes nothing more. */
  lemma EnsureConfidenceIdempotent(s: Score)
    ensures EnsureConfidence(EnsureConfidence(s)) == EnsureConfidence(s)
  {
  }

  const UnableMessage: String := "Unable to analyze at this time - please check your input and try again"
  const ClearlyWrittenHint: String := "Make sure your problem is clearly written with both the question and your solution"

  /** The record returned when the call or the JSON parse fails. */
  function FailureRecord(problemText: String): (r: Analysis)
    ensures r.originalProblem == Some(problemText) && r.studentSolution == Some("")
    ensures r.errorType == Some("unknown") && r.confidenceScore == Number(0.1)
    ensures r.topic == Some("unknown") && r.difficultyLevel == Some("unknown")
  {
    Analysis(
      Some(problemText),
      Some(""),
      Some("unknown"),
      Some(UnableMessage),
      Some(ClearlyWrittenHint),
      Number(0.1),
      Some("unknown"),
      Some("unknown"))
  }

  /**
   * `analyzeWithChatGPT(problemText)` given the outcome of the call: the
   * parsed reply with only its confidence score defaulted, or the failure
   * record. Either way the score is a number in the range the default
   * guarantees.
   */
  function AnalyzeWithChatGpt(problemText: String, reply: Reply): (r: Analysis)
    ensures reply.Failed? ==> r == FailureRecord(problemText)
    ensures reply.Replied? ==> r == reply.parsed.(confidenceScore := EnsureConfidence(reply.parsed.confidenceScore))
    ensures r.confidenceScore.Number? && r.confidenceScore.value <= 1.0 && r.confidenceScore.value != 0.0
  {
    match reply
    case Failed => FailureRecord(problemText)
    case Replied(result) => result.(confidenceScore := EnsureConfidence(result.confidenceScore))
  }

  /** The parameters of the `INSERT INTO problems` statement, in column order. */
  datatype ProblemRow = ProblemRow(
    userEmail: String,
    problemText: Field,
    userSolution: Field,
    errorType: Field,
    errorDescription: Field,
    confidenceScore: Score,
    topic: Field,
    difficultyLevel: Field)

  /** How the insert went: the new row's id, or an error the function catches. */
  datatype DbOutcome = Inserted(id: int) | DbError

  /**
   * `saveProblemToDatabase(userEmail, analysis)`: the statement it sends,
   * if any, and the id it returns. A falsy email sends nothing and returns
   * `null`; otherwise the row carries the analysis field by field, with the
   * explanation in the `error_description` column, and a failed insert
   * returns `null`.
   */
  function SaveProblemToDatabase(userEmail: Field, analysis: Analysis, db: DbOutcome): (r: (Option<ProblemRow>, Option<int>))
    ensures !Truthy(userEmail) ==> r == (None, None)
    ensures Truthy(userEmail) ==> r.0 == Some(ProblemRow(userEmail.value, analysis.originalProblem,
      analysis.studentSolution, analysis.errorType, analysis.explanation, analysis.confidenceScore,
      analysis.topic, analysis.difficultyLevel))
    ensures r.1.Some? <==> Truthy(userEmail) && db.Inserted?
    ensures r.1.Some? ==> r.1.value == db.id
  {
    if !Truthy(userEmail) then (None, None)
    else
      var row := ProblemRow(userEmail.value, analysis.originalProblem, analysis.studentSolution,
        analysis.errorType, analysis.explanation, analysis.confidenceScore, analysis.topic, analysis.difficultyLevel);
      match db
      case Inserted(id) => (Some(row), Some(id))
      case DbError => (Some(row), None)
  }

  datatype ParsedContent = ParsedContent(originalProblem: Field, studentSolution: Field, givenInformation: String)

  datatype ResponseAnalysis = ResponseAnalysis(
    errorType: Field,
    errorDescription: Field,
    explanation: Field,
    topic: String,
    difficultyLevel: String,
    confidenceScore: Score,
    hints: Field,
    correctApproach: String)

  /** The body of the 200 response. */
  datatype Response = Response(
    success: bool,
    id: Option<int>,
    parsedContent: ParsedContent,
    wolframSolution: String,
    analysis: ResponseAnalysis)

  /**
   * The response the handler builds from an analysis and the record id.
   * Both the error description and the explanation are the analysis's
   * explanation, the given information is always empty, and only a falsy
   * topic or difficulty is replaced (by `algebra` and `intermediate`).
   */
  function ShapeResponse(recordId: Option<int>, a: Analysis): (r: Response)
    ensures r.success && r.id == recordId
    ensures r.parsedContent == ParsedContent(a.originalProblem, a.studentSolution, "")
    ensures r.analysis.errorDescription == a.explanation && r.analysis.explanation == a.explanation
    ensures r.analysis.errorType == a.errorType && r.analysis.confidenceScore == a.confidenceScore && r.analysis.hints == a.hints
    ensures Truthy(a.topic) ==> r.analysis.topic == a.topic.value
    ensures !Truthy(a.topic) ==> r.analysis.topic == "algebra"
    ensures Truthy(a.difficultyLevel) ==> r.analysis.difficultyLevel == a.difficultyLevel.value
    ensures !Truthy(a.difficultyLevel) ==> r.analysis.difficultyLevel == "intermediate"
  {
    Response(
      true,
      recordId,
      ParsedContent(a.originalProblem, a.studentSolution, ""),
      "Solution steps would appear here",
      ResponseAnalysis(
        a.errorType,
        a.explanation,
        a.explanation,
        OrElse(a.topic, "algebra"),
        OrElse(a.difficultyLevel, "intermediate"),
        a.confidenceScore,
        a.hints,
        "Follow step-by-step approach"))
  }

  /**
   * The handler for a POST: an empty or missing problem text is refused
   * with the 400 message; otherwise analyse, save, shape. A failed analysis
   * reports `unknown` for topic and difficulty, since `unknown` is truthy
   * and the defaults do not apply.
   */
  function Handle(userEmail: Field, problemText: Field, reply: Reply, db: DbOutcome): (r: Result<Response, String>)
    ensures !Truthy(problemText) <==> r == Err("Problem text is required")
    ensures r.Ok? ==>
      var analysis := AnalyzeWithChatGpt(problemText.value, reply);
      && r.value.id == SaveProblemToDatabase(userEmail, analysis, db).1
      && r.value == ShapeResponse(r.value.id, analysis)
    ensures r.Ok? && reply.Failed? ==>
      && r.value.analysis.topic == "unknown" && r.value.analysis.difficultyLevel == "unknown"
      && r.value.parsedContent.originalProblem == problemText
    ensures r.Ok? && !Truthy(userEmail) ==> r.value.id.None?
  {
    if !Truthy(problemText) then Err("Problem text is required")
    else
      var analysis := AnalyzeWithChatGpt(problemText.value, reply);
      var (_, recordId) := SaveProblemToDatabase(userEmail, analysis, db);
      Ok(ShapeResponse(recordId, analysis))
  }
}
