/**
 * Small rules of backend/server.js: the upload filter, the choice of the
 * Wolfram|Alpha pod whose text is returned, the per-(email, topic)
 * analytics counters, and the record used when content parsing fails.
 */
module Server {
  import opened Wrappers
  import opened Text

  // ------------------------------------------------------------ fileFilter

  datatype FilterDecision = Accept | Reject(message: String)

  /** The multer `fileFilter`: images of any subtype and PDFs are accepted. */
  function FileFilter(mimetype: String): (r: FilterDecision)
    ensures r == Accept <==> StartsWith(mimetype, "image/") || mimetype == "application/pdf"
    ensures r != Accept ==> r == Reject("Only image files and PDFs are allowed")
  {
    if StartsWith(mimetype, "image/") || mimetype == "application/pdf" then Accept
    else Reject("Only image files and PDFs are allowed")
  }

  /** A look-alike such as `application/pdfx` or `text/image/` is refused. */
  lemma FilterIsExact()
    ensures FileFilter("application/pdfx").Reject?
    ensures FileFilter("text/image/").Reject?
  {
    assert !StartsWith("application/pdfx", "image/") by {
      assert "application/pdfx"[0] != "image/"[0];
    }
    assert !StartsWith("text/image/", "image/") by {
      assert "text/image/"[0] != "image/"[0];
    }
    assert "application/pdfx" != "application/pdf" by {
      assert |"application/pdfx"| != |"application/pdf"|;
    }
  }

  // ----------------------------------------------------- queryWolframAlpha

  /** A subpod; `plaintext` may be missing. */
  datatype Subpod = Subpod(plaintext: Option<String>)
  /** A pod; the title may be missing, and `subpods` may be missing or empty. */
  datatype Pod = Pod(title: Option<String>, subpods: Option<seq<Subpod>>)
  /** `response.data.queryresult`, whose `pods` may be missing. */
  datatype QueryResult = QueryResult(pods: Option<seq<Pod>>)
  /** The HTTP request: the body's `queryresult` (possibly missing), or a failed request. */
  datatype HttpOutcome = HttpOk(queryresult: Option<QueryResult>) | HttpFailed

  /** `pods.find(...)`: the index of the chosen pod, no pod, or a `TypeError` on a pod without a title. */
  datatype PodChoice = Found(index: nat) | NotFound | Throws(at: nat)

  /** The test inside `pods.find`, case-sensitive. */
  predicate IsSolutionTitle(t: String) {
    Contains(t, "Solution") || Contains(t, "Result") || Contains(t, "Answer")
  }

  /** A pod the search passes over: it has a title, and the title is not a solution title. */
  predicate Skipped(p: Pod) {
    p.title.Some? && !IsSolutionTitle(p.title.value)
  }

  /** The search from index `i` on. */
  function FindPodFrom(pods: seq<Pod>, i: nat): (r: PodChoice)
    requires i <= |pods|
    ensures r.Found? ==> i <= r.index < |pods| && pods[r.index].title.Some? && IsSolutionTitle(pods[r.index].title.value)
    ensures r.Found? ==> forall j :: i <= j < r.index ==> Skipped(pods[j])
    ensures r.Throws? ==> i <= r.at < |pods| && pods[r.at].title.None?
    ensures r.Throws? ==> forall j :: i <= j < r.at ==> Skipped(pods[j])
    ensures r.NotFound? <==> forall j :: i <= j < |pods| ==> Skipped(pods[j])
    decreases |pods| - i
  {
    if i == |pods| then NotFound
    else if pods[i].title.None? then Throws(i)
    else if IsSolutionTitle(pods[i].title.value) then Found(i)
    else FindPodFrom(pods, i + 1)
  }

  /**
   * `queryWolframAlpha(query)` given the HTTP outcome: the first
   * subpod's plaintext of the first pod, in array order, whose title holds
   * `Solution`, `Result` or `Answer`. `None` stands for both `null` and
   * `undefined`: a failed request, a missing `queryresult` or `pods`, no
   * such pod, a pod without `subpods`, and the `TypeError`s (a pod without
   * a title before the chosen one, an empty `subpods`) that the catch turns
   * into `null`.
   */
  function QueryWolframAlpha(outcome: HttpOutcome): (r: Option<String>)
    ensures r.Some? <==>
      && outcome.HttpOk? && outcome.queryresult.Some? && outcome.queryresult.value.pods.Some?
      && var pods := outcome.queryresult.value.pods.value;
      && FindPodFrom(pods, 0).Found?
      && var pod := pods[FindPodFrom(pods, 0).index];
      && pod.subpods.Some? && |pod.subpods.value| > 0 && pod.subpods.value[0].plaintext.Some?
    ensures r.Some? ==>
      var pods := outcome.queryresult.value.pods.value;
      var pod := pods[FindPodFrom(pods, 0).index];
      r == pod.subpods.value[0].plaintext
  {
    match outcome
    case HttpFailed => None
    case HttpOk(qr) =>
      if qr.None? || qr.value.pods.None? then None
      else
        var pods := qr.value.pods.value;
        match FindPodFrom(pods, 0)
        case Found(i) =>
          var pod := pods[i];
          if pod.subpods.None? then None
          else if |pod.subpods.value| == 0 then None
          else pod.subpods.value[0].plaintext
        case NotFound => None
        case Throws(_) => None
  }

  /** An `Answer` pod after a `Result` pod is never reached: the first match wins. */
  lemma FirstMatchingPodWins(before: seq<Pod>, p: Pod, after: seq<Pod>)
    requires forall j :: 0 <= j < |before| ==> Skipped(before[j])
    requires p.title.Some? && IsSolutionTitle(p.title.value)
    ensures FindPodFrom(before + [p] + after, 0) == Found(|before|)
  {
    var pods := before + [p] + after;
    assert pods[|before|] == p;
    forall j | 0 <= j < |before| ensures Skipped(pods[j]) {
      assert pods[j] == before[j];
    }
  }

  // --------------------------------------------------- updateUserAnalytics

  /** The counter columns of a `user_analytics` row. */
  datatype Counters = Counters(totalProblems: nat, correctProblems: nat, conceptualErrors: nat, computationalErrors: nat)

  /** `errorType === 'conceptual' ? 1 : 0` and `errorType === 'computational' ? 1 : 0`. */
  function Increments(errorType: String): (r: (nat, nat))
    ensures r.0 == 1 <==> errorType == "conceptual"
    ensures r.1 == 1 <==> errorType == "computational"
    ensures r.0 <= 1 && r.1 <= 1 && r.0 + r.1 <= 1
  {
    (if errorType == "conceptual" then 1 else 0, if errorType == "computational" then 1 else 0)
  }

  /**
   * The intended upsert on the table keyed by (email, topic): a new key
   * starts at total 1 with the increments, an existing key has its total
   * raised by 1 and its error counters by the increments, and every other
   * key keeps its row.
   */
  function Upsert(rows: map<(String, String), Counters>, key: (String, String), errorType: String): (r: map<(String, String), Counters>)
    ensures key in r && r.Keys == rows.Keys + {key}
    ensures forall k :: k in rows && k != key ==> r[k] == rows[k]
    ensures key !in rows ==> r[key] == Counters(1, 0, Increments(errorType).0, Increments(errorType).1)
    ensures key in rows ==> r[key] == Counters(
      rows[key].totalProblems + 1, rows[key].correctProblems,
      rows[key].conceptualErrors + Increments(errorType).0,
      rows[key].computationalErrors + Increments(errorType).1)
  {
    var (c, p) := Increments(errorType);
    if key in rows then
      var prev := rows[key];
      rows[key := Counters(prev.totalProblems + 1, prev.correctProblems, prev.conceptualErrors + c, prev.computationalErrors + p)]
    else
      rows[key := Counters(1, 0, c, p)]
  }

  /** A row never counts more errors than problems. */
  predicate Consistent(c: Counters) {
    c.conceptualErrors + c.computationalErrors <= c.totalProblems
  }

  /** The upsert keeps every row consistent. */
  lemma UpsertKeepsConsistent(rows: map<(String, String), Counters>, key: (String, String), errorType: String)
    requires forall k :: k in rows ==> Consistent(rows[k])
    ensures forall k :: k in Upsert(rows, key, errorType) ==> Consistent(Upsert(rows, key, errorType)[k])
  {
  }

  /** The sum of the totals over a set of keys. */
  ghost function TotalOver(rows: map<(String, String), Counters>, keys: set<(String, String)>): nat
    requires keys <= rows.Keys
    decreases keys
  {
    if keys == {} then 0
    else
      var k :| k in keys;
      rows[k].totalProblems + TotalOver(rows, keys - {k})
  }

  /** The sum does not depend on which key is taken first. */
  lemma {:induction false} TotalOverSplit(rows: map<(String, String), Counters>, keys: set<(String, String)>, k: (String, String))
    requires keys <= rows.Keys && k in keys
    ensures TotalOver(rows, keys) == rows[k].totalProblems + TotalOver(rows, keys - {k})
    decreases keys
  {
    var j :| j in keys && TotalOver(rows, keys) == rows[j].totalProblems + TotalOver(rows, keys - {j});
    if j != k {
      TotalOverSplit(rows, keys - {j}, k);
      TotalOverSplit(rows, keys - {k}, j);
      assert keys - {j} - {k} == keys - {k} - {j};
    }
  }

  /** Two maps that agree on a set of keys give the same sum over it. */
  lemma {:induction false} TotalOverAgree(a: map<(String, String), Counters>, b: map<(String, String), Counters>, keys: set<(String, String)>)
    requires keys <= a.Keys && keys <= b.Keys
    requires forall k :: k in keys ==> a[k].totalProblems == b[k].totalProblems
    ensures TotalOver(a, keys) == TotalOver(b, keys)
    decreases keys
  {
    if keys != {} {
      var k :| k in keys && TotalOver(a, keys) == a[k].totalProblems + TotalOver(a, keys - {k});
      TotalOverSplit(b, keys, k);
      TotalOverAgree(a, b, keys - {k});
    }
  }

  /** Every update adds exactly one problem to the table as a whole. */
  lemma UpsertAddsOne(rows: map<(String, String), Counters>, key: (String, String), errorType: String)
    ensures TotalOver(Upsert(rows, key, errorType), Upsert(rows, key, errorType).Keys) == TotalOver(rows, rows.Keys) + 1
  {
    var r := Upsert(rows, key, errorType);
    var others := rows.Keys - {key};
    TotalOverSplit(r, r.Keys, key);
    assert r.Keys - {key} == others;
    TotalOverAgree(r, rows, others);
    if key in rows {
      TotalOverSplit(rows, rows.Keys, key);
    } else {
      assert rows.Keys == others;
    }
  }

  /** The `user_analytics` table, held in memory. */
  class UserAnalytics {
    var rows: map<(String, String), Counters>

    ghost predicate Valid()
      reads this
    {
      forall k :: k in rows ==> Consistent(rows[k])
    }

    constructor ()
      ensures rows == map[] && Valid()
    {
      rows := map[];
    }

    /** `updateUserAnalytics(userEmail, { topic, errorType })`. */
    method Update(userEmail: String, topic: String, errorType: String)
      requires Valid()
      modifies this
      ensures rows == Upsert(old(rows), (userEmail, topic), errorType)
      ensures Valid()
    {
      UpsertKeepsConsistent(rows, (userEmail, topic), errorType);
      rows := Upsert(rows, (userEmail, topic), errorType);
    }

    /** The counters of one key; a key never seen reads as all zero. */
    function Lookup(userEmail: String, topic: String): (r: Counters)
      reads this
      ensures (userEmail, topic) in rows ==> r == rows[(userEmail, topic)]
      ensures (userEmail, topic) !in rows ==> r == Counters(0, 0, 0, 0)
    {
      if (userEmail, topic) in rows then rows[(userEmail, topic)] else Counters(0, 0, 0, 0)
    }
  }

  /** One update, read back through `Lookup`: one more problem, and the matching error counter up by one. */
  lemma UpdateThenLookup(rows: map<(String, String), Counters>, email: String, topic: String, errorType: String)
    ensures var before := if (email, topic) in rows then rows[(email, topic)] else Counters(0, 0, 0, 0);
      var after := Upsert(rows, (email, topic), errorType)[(email, topic)];
      && after.totalProblems == before.totalProblems + 1
      && after.correctProblems == before.correctProblems
      && (after.conceptualErrors == before.conceptualErrors + 1 <==> errorType == "conceptual")
      && (after.computationalErrors == before.computationalErrors + 1 <==> errorType == "computational")
      && after.conceptualErrors + after.computationalErrors <= before.conceptualErrors + before.computationalErrors + 1
  {
  }

  // --------------------------------------------------- parseHomeworkContent

  /** The object `parseHomeworkContent` returns. */
  datatype Content = Content(
    originalProblem: Option<String>,
    studentSolution: Option<String>,
    givenInformation: Option<String>,
    confidence: Option<real>,
    notes: Option<String>)

  /** What came back from the chat completion: parsed JSON, or a failure of the call or the parse. */
  datatype ContentReply = ContentParsed(content: Content) | ContentFailed

  /** `parseHomeworkContent(rawText)` given the outcome of the call: the parsed object as it is, or the fallback. */
  function ParseHomeworkContent(rawText: String, reply: ContentReply): (r: Content)
    ensures reply.ContentParsed? ==> r == reply.content
    ensures reply.ContentFailed? ==>
      && r.originalProblem == Some(rawText) && r.studentSolution == Some("") && r.givenInformation == Some("")
      && r.confidence == Some(0.0) && r.notes == Some("Failed to parse content structure")
  {
    match reply
    case ContentParsed(c) => c
    case ContentFailed => Content(Some(rawText), Some(""), Some(""), Some(0.0), Some("Failed to parse content structure"))
  }
}
