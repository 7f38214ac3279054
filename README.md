# Homework helper: text segmentation and classification rules

This project models the core of a homework-helper web application. Users upload
images or PDFs of maths homework. OCR or a language model turns them into text,
and the text is split into the problem and the student's solution. A rule-based
classifier, or a language model, then labels the error type, and the results are
shown on a dashboard. The model covers only the bespoke logic:

- `parseStudentWork`, the problem/solution segmenter (module `DebugParse`). It
  cleans OCR text, tries the question-mark, `step 1:` and `compute` splits in
  that order, strips a trailing "result: the value ... is N" sentence, repairs
  OCR misreadings, and falls back to "everything is the problem".
- `simpleAnalysis`, the offline keyword classifier (module `SimpleAnalyze`).
- The confidence default, the failure record, the insert guard and the response
  shaping of the analysis endpoint (module `AnalyzeProblem`).
- The server rules (module `Server`): the upload MIME filter, the choice of the
  Wolfram|Alpha pod, the per-(email, topic) analytics counters (a class holding
  a map, updated in place), and the fallback of `parseHomeworkContent`.
- The upload page (module `Home`): PDF page-text assembly and its error
  messages, the `--- From NAME ---` text accumulation, file removal,
  regeneration, and the error-type style and badge label.
- The dashboard (module `Dashboard`): badge classes, topic error totals, the
  progress chart list and the legacy stats.

The regular expressions are not taken on trust. Module `Patterns` writes each
one as a sequence of tokens and matches it by hand, with JavaScript's rules:
`.` stops at line breaks, `\s` and `trim()` use the ECMAScript whitespace set,
`/i` folds ASCII letters, `/g` replacement is leftmost and non-overlapping,
and `(.*?)P` starts at the beginning of the line that holds the first match
of `P`. Module `Text` holds the character classes, `trim`, whitespace
collapsing and substring tests. JavaScript strings are sequences of UTF-16 code
units; every special character here (em dash U+2014, superscript two U+00B2) is
one unit.

Three behaviours of the segmenter, as its code has them:

- The cleanup is not idempotent. Markers are removed before spaces are
  collapsed, so `---  From a ---` (two spaces) cleans to `--- From a ---`, which
  a second pass deletes (`DebugParse.CleanupNotIdempotent`). For the same
  reason not every `--- From` disappears.
- A problem on one line followed by `Step 1:` at the start of the next line
  does not split. The question-mark split only looks at the rest of the `?`
  line. The `step 1:` split's problem group starts at the line of the marker,
  so it is empty, and the fallback returns the whole text with no solution
  (`DebugParse.StepOnNewLineFallsBack`).
- The `step 1:` split writes `Step 1:` directly before the trimmed rest, with
  no space.
- The classifier with `=`/letter/digit signals, the function-composition rules,
  topic and difficulty inference, and the step generator are not in
  api/debug-parse.js, api/simple-analyze.js, api/analyze-problem.js or
  backend/server.js. They are not part of this model. The classifier that is
  modelled is `simpleAnalysis`.

## Model

| member | source | states |
|---|---|---|
| `Text.Collapse` | api/debug-parse.js:15 | every maximal run of class characters becomes one space; no two class characters stay adjacent; no other character is introduced |
| `Text.Trim` | api/debug-parse.js:16 | the result is the slice of the input left after dropping whitespace at both ends, and has no whitespace at either end |
| `Text.Squeeze` | api/debug-parse.js:89-90 | after `\s+` → space and trim (also lines 98-99), whitespace is only single spaces and never at either end |
| `Patterns.LazySplit` | api/debug-parse.js:21 | `(.*?)P` matches from the start of the line holding the leftmost match of P; no earlier start and no shorter group works |
| `Patterns.ReplaceSkipsUnmatched` | api/debug-parse.js:12 | a global replace copies a prefix in which no match starts and resumes the scan after it |
| `Patterns.ReplaceAll` | api/debug-parse.js:12 | a global replace with the empty string never makes the text longer |
| `Patterns.ReplaceAtMatch` | api/debug-parse.js:12 | where a non-empty match starts at the front, the replacement is written and the scan resumes after the match |
| `Patterns.ReplaceCopies` | api/debug-parse.js:12 | where no match starts at the front, the first character is copied and the scan resumes at the next one |
| `Patterns.ReplaceWithoutMatch` | api/debug-parse.js:12 | a text in which no match starts anywhere is returned unchanged |
| `Patterns.ReplaceSplits` | api/debug-parse.js:12 | when every match starting in the left part also ends in it and is not affected by the right part, replacing the concatenation replaces each part on its own |
| `Patterns.ReplaceOneMatch` | api/debug-parse.js:86 | a text holding exactly one match of a pattern led by a literal, with that literal nowhere else, gets exactly that match replaced |
| `Patterns.PiecesMatch` | api/debug-parse.js:86-88 | a text built from pieces that each fit their token (a literal spelled out, or a non-empty run of spaces followed by a non-space) is matched in full by the pattern of those tokens |
| `DebugParse.CleanText` | api/debug-parse.js:11-16 | cleaned text has no `\r`, no tab, no two adjacent spaces and no whitespace at either end |
| `DebugParse.StripMarkers` | api/debug-parse.js:12 | marker removal never lengthens the text, and text without `--- From ` passes it unchanged |
| `DebugParse.MarkerDeleted` | api/debug-parse.js:12 | a `--- From NAME ---` marker at the start of the text or right after a line break, whose name has no line break and no ` ---`, is deleted, and the text before and after it are stripped as if each stood alone |
| `DebugParse.StripSplitsAtLineBreak` | api/debug-parse.js:12 | a marker cannot span a line break, so text cut at a line break is stripped part by part |
| `DebugParse.NonDashKept` | api/debug-parse.js:12 | a leading character other than `-` is never part of a marker and is kept |
| `DebugParse.CleanupNotIdempotent` | api/debug-parse.js:11-16 | a marker written with two spaces survives the first cleanup as a well-formed marker and the second cleanup deletes it |
| `DebugParse.Groups` | api/debug-parse.js:21 | the lazy-group split of lines 21, 54 and 70 fails iff the pattern matches nowhere in the text |
| `DebugParse.QuestionGroupsShape` | api/debug-parse.js:21-24 | the question split exists iff the text has a `?`; group 1 runs from the start of the first `?` line through that `?`, group 2 is the rest of that line |
| `DebugParse.QuestionStrategy` | api/debug-parse.js:21-48 | problem is trimmed group 1; a solution is set only when trimmed group 2 is longer than 10 characters, taken from its first step marker and with the result sentence stripped |
| `DebugParse.FromStep` | api/debug-parse.js:36-41 | with a `step<ws><digits>` match the solution is the text from the leftmost match on, otherwise the whole part |
| `DebugParse.ReplaceFirst` | api/debug-parse.js:44-46 | a non-global replace leaves the text unchanged without a match; with one, the text before the leftmost match and after its end are kept and the replacement sits between them |
| `DebugParse.StripResult` | api/debug-parse.js:44-46 | removing the result sentence keeps exactly the text before its leftmost match, trimmed; without a match the text is only trimmed |
| `DebugParse.ResultWordRequired` | api/debug-parse.js:44-46 | text in which the word `result` never occurs is only trimmed |
| `DebugParse.StepOneStrategy` | api/debug-parse.js:51-64 | runs only when the solution is shorter than 10 characters; on a match the problem is overwritten by trimmed group 1 and the solution starts with `Step 1:` |
| `DebugParse.ComputeStrategy` | api/debug-parse.js:67-80 | runs only when the solution is still shorter than 10 characters; on a match the problem is trimmed group 1 and the solution starts with `Compute` |
| `DebugParse.TagSurvives` | api/debug-parse.js:55-62 | the `Step 1:` or `Compute` tag survives the result-sentence strip |
| `DebugParse.RepairProblem` | api/debug-parse.js:83-91 | after the repairs the problem has no em dash and only single spaces, trimmed; a problem without `f(z)` and `x?` only has its em dashes turned into `-` and its whitespace squeezed |
| `DebugParse.RepairSolution` | api/debug-parse.js:94-100 | after the repairs the solution has no em dash and only single spaces, trimmed; a solution without `g(3)` only has its em dashes turned into `-` and its whitespace squeezed |
| `DebugParse.FzRepaired` | api/debug-parse.js:86 | in any problem, one `f(z) = 2x` (any spacing) among text without `f(z)`, `?` or em dash is rewritten to `f(x) = 2x`, and the rest is only squeezed |
| `DebugParse.XDashRepaired` | api/debug-parse.js:87-88 | in any problem, one `x? — 3` (any spacing) among text without `f(z)`, `?` or em dash is rewritten to `x² - 3`, and the rest is only squeezed |
| `DebugParse.GRepaired` | api/debug-parse.js:96 | in any solution, one `g(3) = 32 - 3` (any spacing) among text without `g(3)` or em dash is rewritten to `g(3) = 3² - 3`, and the rest is only squeezed |
| `DebugParse.FzMatch` | api/debug-parse.js:86 | the `f(z)` pattern matches `f(z)`, spaces, `=`, spaces, `2x` in full, whatever follows |
| `DebugParse.XDashMatch` | api/debug-parse.js:87 | the `x?` pattern matches `x?`, spaces, em dash, spaces, `3` in full, whatever follows |
| `DebugParse.GMatch` | api/debug-parse.js:96 | the `g(3)` pattern matches `g(3)`, spaces, `=`, spaces, `32`, spaces, `-`, spaces, `3` in full, whatever follows |
| `DebugParse.RepairStage` | api/debug-parse.js:83-100 | a non-empty problem or solution goes through its repairs; an empty one is left alone |
| `DebugParse.ParseStudentWork` | api/debug-parse.js:2-116 | either the problem has at least 10 characters or the result is exactly (cleaned text, `""`); an em dash survives in the problem only through the fallback; a non-empty solution is repaired and normalised |
| `DebugParse.StepOneAtLineStart` | api/debug-parse.js:54-56 | a first `step 1:` at a line start gives strategy 2 an empty problem |
| `DebugParse.Fallback` | api/debug-parse.js:103-107 | a problem of at least 10 characters is kept as it is; otherwise the result is (cleaned text, `""`) |
| `DebugParse.StepOnNewLineFallsBack` | api/debug-parse.js:103-107 | whenever the question split leaves a solution under 10 characters, no `compute` occurs and the first `step 1:` starts a line, the result is the fallback (cleaned text, `""`) |
| `DebugParse.NoSignalMeansFallback` | api/debug-parse.js:103-107 | text with no `?`, no `step<ws>1<ws>:` and no `compute<ws>` yields (cleaned text, `""`) |
| `SimpleAnalyze.IndicatorIgnoresCase` | api/simple-analyze.js:19-21 | the gate holds iff `my solution`, `my answer` or `x =` occurs somewhere, ignoring ASCII case |
| `SimpleAnalyze.Split` | api/simple-analyze.js:23 | the split always yields at least one part |
| `SimpleAnalyze.DelimiterAt` | api/simple-analyze.js:23 | a delimiter starts at a position iff `my solution:`, `my answer:` or `solution:` occurs there in the lower-cased text |
| `SimpleAnalyze.NoCaseIsLowered` | api/simple-analyze.js:19-23 | a case-insensitive occurrence is exactly an occurrence in the lower-cased text |
| `SimpleAnalyze.SplitParts` | api/simple-analyze.js:23-26 | the split has one part (the text) iff no delimiter occurs; otherwise part 0 is the text before the first delimiter and part 1 runs to the second delimiter or the end |
| `SimpleAnalyze.Classify` | api/simple-analyze.js:29-35 | `no_error` iff the solution has `x = 2` and the problem has `2x + 3 = 7`; else `computational` iff the solution has `x =`; else `conceptual` |
| `SimpleAnalyze.Explanation` | api/simple-analyze.js:43-49 | each error type gets its explanation, anything else the missing-solution text |
| `SimpleAnalyze.ExplanationsDistinct` | api/simple-analyze.js:43-49 | the four error types get four different explanations |
| `SimpleAnalyze.Segment` | api/simple-analyze.js:19-27 | no split iff the gate fails or no delimiter occurs; otherwise the trimmed text before the first delimiter and between the first and second |
| `SimpleAnalyze.SimpleAnalysis` | api/simple-analyze.js:12-55 | without a split the text is the problem with `no_solution_provided`; with one the error type is `Classify` of the parts; confidence 0.75, topic `algebra`, difficulty `beginner`, fixed hints |
| `SimpleAnalyze.NoSolutionIff` | api/simple-analyze.js:14-36 | the error type is `no_solution_provided` iff the gate fails or no delimiter occurs |
| `SimpleAnalyze.TwentyFiveCountsAsCorrect` | api/simple-analyze.js:29-30 | the substring test accepts `x = 25` as the correct answer |
| `AnalyzeProblem.OrElse` | api/analyze-problem.js:140-141 | a truthy field is kept, a falsy one replaced by the default |
| `AnalyzeProblem.EnsureConfidence` | api/analyze-problem.js:77-79 | missing, zero or above 1 becomes 0.75; a score in (0, 1] and a negative score are kept |
| `AnalyzeProblem.EnsureConfidenceIdempotent` | api/analyze-problem.js:77-79 | applying the default again changes nothing |
| `AnalyzeProblem.FailureRecord` | api/analyze-problem.js:85-94 | the failure record: input as problem, empty solution, `unknown` type, topic and difficulty, confidence 0.1 |
| `AnalyzeProblem.AnalyzeWithChatGpt` | api/analyze-problem.js:45-96 | the parsed reply with only its confidence defaulted, or the failure record; the score is never zero and at most 1 |
| `AnalyzeProblem.SaveProblemToDatabase` | api/analyze-problem.js:17-42 | a falsy email sends no statement and returns null; otherwise the row carries the analysis with the explanation as error description, and the id is returned only on success |
| `AnalyzeProblem.ShapeResponse` | api/analyze-problem.js:127-146 | error description and explanation both equal the analysis explanation, given information is `""`, a falsy topic becomes `algebra` and a falsy difficulty `intermediate` |
| `AnalyzeProblem.Handle` | api/analyze-problem.js:113-148 | a falsy problem text is refused; otherwise analyse, save, shape; after a failure topic and difficulty stay `unknown` |
| `Server.FileFilter` | backend/server.js:25-32 | accepted iff the MIME type starts with `image/` or equals `application/pdf` |
| `Server.FilterIsExact` | backend/server.js:27 | `application/pdfx` and `text/image/` are refused |
| `Server.FindPodFrom` | backend/server.js:108-113 | the first pod in array order whose title contains `Solution`, `Result` or `Answer`, every earlier pod skipped; a missing title throws |
| `Server.FirstMatchingPodWins` | backend/server.js:108-113 | a matching pod after only non-matching pods is the one chosen |
| `Server.QueryWolframAlpha` | backend/server.js:102-125 | the chosen pod's first subpod plaintext; null when the request fails, `queryresult` or `pods` is missing, no pod matches, or the pod has no or empty subpods |
| `Server.Increments` | backend/server.js:417-418 | the conceptual increment is 1 iff the type is `conceptual`, the computational one iff `computational`; never both |
| `Server.Upsert` | backend/server.js:405-419 | a new key starts at total 1 with the increments; an existing key gains 1 problem and the increments; every other key is unchanged |
| `Server.UpsertKeepsConsistent` | backend/server.js:405-419 | no row ever counts more errors than problems |
| `Server.UpsertAddsOne` | backend/server.js:406-410 | the totals over the whole table grow by exactly one per update |
| `Server.UpdateThenLookup` | backend/server.js:406-418 | read back, the key has one more problem and the matching error counter up by one |
| `Server.UserAnalytics.Update` | backend/server.js:401-423 | the table becomes the upsert of the old table and keeps every row consistent |
| `Server.ParseHomeworkContent` | backend/server.js:128-174 | the parsed reply as it is, or on failure raw text as problem, empty solution and given information, confidence 0 |
| `Home.ItemText` | src/pages/home.js:61-65 | a string item is itself; an object gives a non-empty `str`, else `chars`, else `""` |
| `Home.PageText` | src/pages/home.js:60-68 | the joined item texts have only single spaces as whitespace and are trimmed; no items give `""` |
| `Home.PageContent` | src/pages/home.js:56-78 | a page's text has only single spaces as whitespace and is trimmed, also after a failed page |
| `Home.RenderEmpty` | src/pages/home.js:70-71 | pages with non-empty texts render to `""` iff there are none |
| `Home.RenderSnoc` | src/pages/home.js:70-71 | appending a page adds a page marker only when text has already accumulated, then the page text |
| `Home.KeptPages` | src/pages/home.js:53-71 | only the first n pages, only non-empty ones, with their real page numbers in increasing order |
| `Home.KeptPagesComplete` | src/pages/home.js:70-71 | every non-empty page among the first n is kept |
| `Home.NatToStringValue` | src/pages/home.js:71 | the page number is written as its decimal digits, which denote it, with no leading zero |
| `Home.PageMarkerPlain` | src/pages/home.js:71 | the page separator starts and ends with a line break and passes marker removal unchanged |
| `Home.PageMarkerKept` | src/pages/home.js:71 | whatever surrounds it, a `--- Page N ---` separator survives marker removal, and the text on each side is stripped on its own |
| `Home.AssemblePages` | src/pages/home.js:52-79 | the loop builds exactly the rendering of the kept pages among the first min(10, #pages), with a page marker before every kept page after the first |
| `Home.CatchMessage` | src/pages/home.js:89-117 | the PDF.js error names map to their messages, checked before the message rules |
| `Home.MessageRule` | src/pages/home.js:102-116 | a message mentioning `worker` maps to the service message; the extractor's own messages are rethrown; anything else gets the generic message |
| `Home.NoTextRethrown` | src/pages/home.js:84-113 | the "no readable text" error passes the catch block unchanged |
| `Home.ExtractTextFromPdf` | src/pages/home.js:34-118 | the trimmed assembled text when it has at least 10 characters, otherwise the "no readable text" error; a failed load gets the catch block's message |
| `Home.DropText` | src/pages/home.js:135-210 | image text as is; a PDF's extracted text, or after a failure the trimmed first-page OCR when longer than 10 characters, or the failure message |
| `Home.AppendText` | src/pages/home.js:213-216 | empty previous text gives the new text alone; otherwise prev + `\n\n--- From NAME ---\n` + new; prev is always a prefix |
| `Home.AppendedMarkerStripped` | src/pages/home.js:214 | for any earlier and new text, the marker written between uploads is removed: marker removal gives the stripped earlier text, three line breaks and the stripped new text, or only the stripped new text when nothing came before |
| `Home.MarkerTailStripped` | src/pages/home.js:214 | from the line breaks before the upload marker on, marker removal leaves three line breaks and the stripped new text |
| `Home.BreaksKept` | src/pages/home.js:214 | the line breaks around the upload marker pass marker removal |
| `Home.OnDrop` | src/pages/home.js:121-248 | only the first accepted file is added; its text is appended on success; on failure the text stays and the message (or the default) is recorded |
| `Home.CapturePhoto` | src/pages/home.js:261-295 | a screenshot adds a `camera-capture-N.jpg` file and appends its OCR text under the `Camera` marker |
| `Home.RemoveFile` | src/pages/home.js:308 | exactly the entry at the index is dropped, the rest keep their order; an index outside the list changes nothing |
| `Home.Regenerated` | src/pages/home.js:322-354 | the regenerated text is empty iff every successful file gave empty text |
| `Home.RegenerateExtractedText` | src/pages/home.js:322-354 | the loop builds exactly the regeneration of the attempts, a marker only when text has already accumulated |
| `Home.FailuresContributeNothing` | src/pages/home.js:333-349 | regenerating over the successful files alone gives the same text |
| `Home.RegeneratedGrows` | src/pages/home.js:346 | every intermediate text is a prefix of the final one |
| `Home.GetErrorTypeStyle` | src/pages/home.js:423-429 | `no_error`/`no error` → `success`, then `conceptual`, then `computational`/`calculation` → `calculation`, then `no_solution_provided`/`no solution` → `no-solution`, otherwise (and when missing) `unknown` |
| `Home.ReplaceFirstChar` | src/pages/home.js:826 | only the first occurrence of the character is replaced |
| `Home.BadgeLabel` | src/pages/home.js:826 | missing or empty gives `Unknown`; otherwise the first underscore becomes a space |
| `Home.BadgeKeepsLaterUnderscores` | src/pages/home.js:826 | later underscores stay, so `no_solution_provided` shows as `no solution_provided` |
| `Dashboard.GetErrorBadgeClass` | src/pages/dashboard.js:88-92 | `no error` (with a space) → `no-error`, else `conceptual` → `conceptual`, else (also when missing) `calculation` |
| `Dashboard.CorrectSolutionBadges` | src/pages/dashboard.js:88-92 | `no_error` is badged `calculation` on the dashboard while the upload page styles it `success` |
| `Dashboard.TopicData` | src/pages/dashboard.js:27-33 | one entry per row, in order, with errors = conceptual + computational |
| `Dashboard.TopicErrorsBounded` | src/pages/dashboard.js:27-33 | for counters kept consistent by the server, a topic's errors never exceed its total |
| `Dashboard.Reverse` | src/pages/dashboard.js:37 | `reverse()` puts element n-1-i at position i |
| `Dashboard.Points` | src/pages/dashboard.js:38-42 | one point per problem, numbered from the given start, `correct` 100 iff the type is exactly `no_error`, else 0 |
| `Dashboard.ProgressChart` | src/pages/dashboard.js:37-42 | min(10, #problems) entries numbered 1..n; entry i comes from problem n-1-i; `correct` is 100 iff the type is exactly `no_error`, else 0 |
| `Dashboard.ProgressCountsCorrect` | src/pages/dashboard.js:37-42 | the chart counts as many correct points as there are `no_error` problems among the first ten |
| `Dashboard.LegacyStats` | src/pages/dashboard.js:52-58 | total = conceptual + computational with missing counts as 0; correct solutions and average confidence 0 |

## Left out

- HTTP handling: CORS headers, method checks, status codes and `console` output
  are not modelled. `AnalyzeProblem.Handle` keeps only the 400 refusal.
- OpenAI, Wolfram|Alpha, Tesseract and PDF.js calls are foreign services. Their
  outcomes are parameters: the parsed reply or a failure, the query result,
  the page items, the OCR text.
- The database: table creation, the dashboard queries, the insert itself and
  the one-off scripts are not modelled. `SaveProblemToDatabase` takes the
  insert's outcome as a parameter.
- Server.Upsert: models the intended counter semantics. The `user_analytics`
  table (backend/server.js:81-92) has no unique (user_email, topic)
  constraint, so `ON CONFLICT (user_email, topic)` fails at run time and the
  catch at backend/server.js:420-422 swallows the error.
- AnalyzeProblem.EnsureConfidence: the score is either missing or a number.
  A score that the model's JSON gives as a string or a boolean is not modelled.
- Floating-point formatting and percentages (`toFixed`, `* 100`, the accuracy
  and confidence percentages) are not modelled. Confidence values are reals.
- React rendering, toasts and state timing are not modelled. This includes
  `removeFile` calling `regenerateExtractedText` before the file list update
  is visible.
- Home.DropText: an image whose OCR call fails is not a separate case. The
  caller passes that failure to `Home.OnDrop` as an error outcome.
- Unicode case mapping: `/i` and `toLowerCase` are modelled as ASCII folding.
  This is exact for the ASCII words searched for here.
- The client files for sign-in, feedback, navigation and data fetching, and the
  other API endpoints, hold no logic of this core and are not part of this model.
