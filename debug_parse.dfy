/**
 * `parseStudentWork` (api/debug-parse.js): normalise the OCR text, split it
 * into the problem and the student's solution by three strategies tried in
 * turn, repair a few OCR misreadings, and fall back to "everything is the
 * problem" when no split gives a problem of ten characters or more.
 */
module DebugParse {
  import opened Wrappers
  import opened Text
  import opened Patterns

  /** The pair the function returns. */
  datatype Parsed = Parsed(originalProblem: String, studentSolution: String)

  // ---------------------------------------------------------------- cleanup

  /** `/--- From .*? ---/`: the source marker the upload page writes between captures. */
  const MarkerPattern: Pattern := [Lit("--- From "), LazyUntil(" ---")]
  /** `/\r\n/`. */
  const CrLfPattern: Pattern := [Lit("\r\n")]

  /**
   * `text.replace(/--- From .*? ---/g, '')`: it only deletes, and text in
   * which `--- From ` never occurs, such as a `--- Page N ---` separator,
   * passes unchanged.
   */
  function StripMarkers(text: String): (r: String)
    ensures |r| <= |text|
    ensures !Contains(text, "--- From ") ==> r == text
  {
    LeadAbsentUnchanged(text, MarkerPattern, "--- From ", "");
    ReplaceAll(text, MarkerPattern, "")
  }

  /** No two spaces in a row. */
  predicate NoDoubleSpace(s: String) {
    forall i :: 0 <= i < |s| - 1 ==> !(s[i] == ' ' && s[i + 1] == ' ')
  }

  /**
   * The cleanup chain: markers removed, CRLF and lone CR turned into LF,
   * every run of spaces and tabs turned into one space, then trimmed. The
   * result has no carriage return, no tab, no double space and no
   * whitespace at either end.
   */
  function CleanText(text: String): (r: String)
    ensures '\r' !in r && '\t' !in r
    ensures NoDoubleSpace(r)
    ensures Trimmed(r)
  {
    var a := StripMarkers(text);
    var b := ReplaceAll(a, CrLfPattern, "\n");
    var c := ReplaceChar(b, '\r', '\n');
    var d := Collapse(c, IsBlank);
    assert '\r' !in d && '\t' !in d;
    CleanKeptByTrim(d);
    Trim(d)
  }

  lemma CleanKeptByTrim(d: String)
    requires '\r' !in d && '\t' !in d
    requires forall i :: 0 <= i < |d| - 1 && IsBlank(d[i]) ==> !IsBlank(d[i + 1])
    ensures '\r' !in Trim(d) && '\t' !in Trim(d)
    ensures NoDoubleSpace(Trim(d))
  {
    TrimChars(d);
    var a, r := TrimOffset(d), Trim(d);
    forall i | 0 <= i < |r| - 1 ensures !(r[i] == ' ' && r[i + 1] == ' ') {
      assert r[i] == d[a + i] && r[i + 1] == d[a + i + 1];
    }
  }

  /** The marker the upload page writes before the text of a further file. */
  function FromMarker(name: String): String {
    "--- From " + name + " ---"
  }

  /**
   * A marker whose name stays on one line and holds no ` ---` is deleted
   * when it starts a line, and the text on either side is cleaned as if
   * the other were not there.
   */
  lemma MarkerDeleted(pre: String, name: String, post: String)
    requires pre == [] || IsLineTerminator(pre[|pre| - 1])
    requires NoLineBreak(name) && !Contains(name, " ---")
    ensures StripMarkers(pre + (FromMarker(name) + post)) == StripMarkers(pre) + StripMarkers(post)
  {
    if pre == [] {
      assert pre + (FromMarker(name) + post) == FromMarker(name) + post;
    } else {
      StripSplitsAtLineBreak(pre, FromMarker(name) + post);
    }
    MarkerReplaced(name, post);
  }

  /** A line break at the end of `a` or the start of `b`. */
  predicate LineBreakBetween(a: String, b: String) {
    (a != [] && IsLineTerminator(a[|a| - 1])) || (b != [] && IsLineTerminator(b[0]))
  }

  /**
   * A marker never spans a line break, so marker removal treats the text
   * on either side of a line break independently.
   */
  lemma StripSplitsAtLineBreak(a: String, b: String)
    requires LineBreakBetween(a, b)
    ensures StripMarkers(a + b) == StripMarkers(a) + StripMarkers(b)
  {
    forall k | 0 <= k < |a|
      ensures Match((a + b)[k..], MarkerPattern) == Match(a[k..], MarkerPattern)
      ensures Match(a[k..], MarkerPattern).Some? ==> Match(a[k..], MarkerPattern).value <= |a| - k
    {
      MarkerStopsAtLineBreak(a, b, k);
    }
    ReplaceSplits(a, b, MarkerPattern, "");
  }

  /** A marker match starting in `a` is the same in `a + b` and ends inside `a`. */
  lemma MarkerStopsAtLineBreak(a: String, b: String, k: nat)
    requires k < |a| && LineBreakBetween(a, b)
    ensures Match((a + b)[k..], MarkerPattern) == Match(a[k..], MarkerPattern)
    ensures Match(a[k..], MarkerPattern).Some? ==> Match(a[k..], MarkerPattern).value <= |a| - k
  {
    var s, t := (a + b)[k..], a[k..];
    assert s == t + b;
    assert s[..|t|] == t;
    if IsLineTerminator(a[|a| - 1]) {
      assert s[|t| - 1] == a[|a| - 1];
      MarkerCutAt(s, t, |t| - 1);
    } else {
      assert s[|t|] == b[0];
      MarkerCutAt(s, t, |t|);
    }
  }

  /**
   * A line break at `p`, the last position of `t` or the one after it, cuts
   * every marker match starting at 0: it is the same on `t` as on the
   * longer text `s` and ends inside `t`.
   */
  lemma MarkerCutAt(s: String, t: String, p: nat)
    requires |t| <= |s| && s[..|t|] == t
    requires p < |s| && (p == |t| || p + 1 == |t|) && IsLineTerminator(s[p])
    ensures Match(s, MarkerPattern) == Match(t, MarkerPattern)
    ensures Match(t, MarkerPattern).Some? ==> Match(t, MarkerPattern).value <= |t|
  {
    var lit := "--- From ";
    MarkerLiteralsOneLine();
    MarkerMatchUnfolds(s);
    MarkerMatchUnfolds(t);
    LiteralCut(s, t, lit, p);
    if StartsWith(t, lit) {
      NameCut(s, t, p);
    }
  }

  /** After the marker's literal, the lazy scan for ` ---` is cut at the same line break. */
  lemma NameCut(s: String, t: String, p: nat)
    requires 9 <= |t| <= |s| && s[..|t|] == t
    requires 9 <= p < |s| && (p == |t| || p + 1 == |t|) && IsLineTerminator(s[p])
    ensures LazyFrom(s[9..], 0, " ---") == LazyFrom(t[9..], 0, " ---")
    ensures LazyFrom(t[9..], 0, " ---").Some? ==> LazyFrom(t[9..], 0, " ---").value + 4 <= |t| - 9
  {
    var s', t' := s[9..], t[9..];
    var p' := p - 9;
    assert |t'| == |t| - 9 && s'[p'] == s[p];
    assert s'[..|t'|] == t';
    MarkerLiteralsOneLine();
    LazyFromCut(s', t', 0, " ---", p');
  }

  lemma MarkerLiteralsOneLine()
    ensures NoLineBreak("--- From ") && NoLineBreak(" ---")
  {
  }

  /** A literal without line breaks starts `s` exactly when it starts `t`, and then ends before the break. */
  lemma LiteralCut(s: String, t: String, lit: String, p: nat)
    requires |t| <= |s| && s[..|t|] == t
    requires p < |s| && p <= |t| && IsLineTerminator(s[p])
    requires NoLineBreak(lit)
    ensures StartsWith(s, lit) == StartsWith(t, lit)
    ensures StartsWith(t, lit) ==> |lit| <= p
  {
    if |lit| <= |t| {
      assert s[..|lit|] == t[..|lit|];
      if p < |lit| {
        assert s[..|t|][p] == s[p];
        assert t[..|lit|][p] == s[p];
        assert !IsLineTerminator(lit[p]);
      }
    } else if |lit| <= |s| {
      assert s[..|lit|][p] == s[p];
      assert !IsLineTerminator(lit[p]);
    }
  }

  /** The marker pattern read token by token: the literal, then the lazy scan for ` ---`. */
  lemma MarkerMatchUnfolds(u: String)
    ensures Match(u, MarkerPattern) ==
      if !StartsWith(u, "--- From ") then None
      else match LazyFrom(u[9..], 0, " ---")
        case Some(n) => Some(9 + n + 4)
        case None => None
  {
    assert MarkerPattern[0] == Lit("--- From ") && MarkerPattern[1..] == [LazyUntil(" ---")];
    if StartsWith(u, "--- From ") {
      var v := u[9..];
      assert Match(u, MarkerPattern) == (match Match(v, [LazyUntil(" ---")]) case None => None case Some(m) => Some(9 + m));
      match LazyFrom(v, 0, " ---")
      case Some(n) =>
        LazyTokenMatch(v, " ---", n);
      case None =>
        assert TokenLen(v, LazyUntil(" ---")).None?;
    }
  }

  /** A first character other than a dash is copied. */
  lemma NonDashKept(c: char, x: String)
    requires c != '-'
    ensures StripMarkers([c] + x) == [c] + StripMarkers(x)
  {
    MarkerNeedsDash([c] + x);
    ReplaceCopies([c] + x, MarkerPattern, "");
    assert ([c] + x)[1..] == x;
  }

  /** A marker at the very start is deleted. */
  lemma MarkerReplaced(name: String, post: String)
    requires NoLineBreak(name) && !Contains(name, " ---")
    ensures StripMarkers(FromMarker(name) + post) == StripMarkers(post)
  {
    var t := FromMarker(name) + post;
    MarkerMatchesWhole(name, post);
    assert t[|FromMarker(name)|..] == post;
    ReplaceAtMatch(t, MarkerPattern, "");
  }

  /** A marker starts with a dash. */
  lemma MarkerNeedsDash(u: String)
    requires u != [] && u[0] != '-'
    ensures Match(u, MarkerPattern).None?
  {
    assert MarkerPattern[0] == Lit("--- From ");
  }

  /** The marker pattern matches exactly the marker at the start of `FromMarker(name) + post`. */
  lemma MarkerMatchesWhole(name: String, post: String)
    requires NoLineBreak(name) && !Contains(name, " ---")
    ensures Match(FromMarker(name) + post, MarkerPattern) == Some(|FromMarker(name)|)
  {
    var u := name + " ---" + post;
    assert FromMarker(name) + post == "--- From " + u;
    NameScan(name, post);
    LazyTokenMatch(u, " ---", |name|);
    LiteralThenRest("--- From ", u, [LazyUntil(" ---")], |name| + 4);
    assert [Lit("--- From ")] + [LazyUntil(" ---")] == MarkerPattern;
  }

  /** A lazy scan that stops at `n` makes the one-token pattern consume through the terminator. */
  lemma LazyTokenMatch(u: String, w: String, n: nat)
    requires LazyFrom(u, 0, w) == Some(n)
    ensures Match(u, [LazyUntil(w)]) == Some(n + |w|)
  {
    assert TokenLen(u, LazyUntil(w)) == Some(n + |w|);
    assert Match(u[n + |w|..], []) == Some(0);
  }

  /** The lazy scan for ` ---` after the name stops right after the name. */
  lemma NameScan(name: String, post: String)
    requires NoLineBreak(name) && !Contains(name, " ---")
    ensures LazyFrom(name + " ---" + post, 0, " ---") == Some(|name|)
  {
    var w := " ---";
    var u := name + w + post;
    assert ContainsAt(u, w, |name|) by { assert u[|name|..|name| + 4] == w; }
    assert NoLineBreak(u[0..|name|]) by { assert u[0..|name|] == name; }
    forall k | 0 <= k < |name| ensures !ContainsAt(u, w, k) {
      if k + 4 <= |name| {
        assert u[k..k + 4] == name[k..k + 4];
        assert !ContainsAt(name, w, k);
      } else {
        assert u[|name|] == (name + w)[|name|] == ' ';
        assert u[k..k + 4][|name| - k] == ' ';
      }
    }
  }

  /** A single-literal pattern whose first character is absent from the text changes nothing. */
  lemma LiteralAbsentUnchanged(s: String, w: String, repl: String)
    requires w != [] && w[0] !in s
    ensures ReplaceAll(s, [Lit(w)], repl) == s
  {
    forall k | 0 <= k < |s| ensures Match(s[k..], [Lit(w)]).None? {
      if |w| <= |s[k..]| {
        assert s[k..][0..|w|][0] == s[k];
      }
    }
    ReplaceWithoutMatch(s, [Lit(w)], "");
    ReplaceWithoutMatch(s, [Lit(w)], repl);
  }

  /** A file name the upload page could write into a marker: no dash, blank or line break. */
  predicate PlainName(name: String) {
    name != [] && forall i :: 0 <= i < |name| ==> name[i] != '-' && !IsBlank(name[i]) && !IsLineTerminator(name[i])
  }

  /**
   * The cleanup is not idempotent: markers are removed before the spaces
   * are collapsed, so a marker written with two spaces after its dashes
   * survives the first pass as a well-formed marker, which a second pass
   * deletes.
   */
  lemma CleanupNotIdempotent(name: String)
    requires PlainName(name)
    ensures CleanText("---  From " + name + " ---") == FromMarker(name)
    ensures CleanText(CleanText("---  From " + name + " ---")) == ""
  {
    FirstPassKeepsMarker(name);
    SecondPassDeletesMarker(name);
  }

  lemma FirstPassKeepsMarker(name: String)
    requires PlainName(name)
    ensures CleanText("---  From " + name + " ---") == FromMarker(name)
  {
    var x := "---  From " + name + " ---";
    DoubleSpacedMarkerKept(name);
    NoCarriageReturn(name);
    LiteralAbsentUnchanged(x, "\r\n", "\n");
    assert ReplaceAll(x, CrLfPattern, "\n") == x;
    assert ReplaceChar(x, '\r', '\n') == x;
    DoubleSpaceCollapsed(name);
    TrimOfTrimmed(FromMarker(name));
  }

  lemma NoCarriageReturn(name: String)
    requires PlainName(name)
    ensures '\r' !in "---  From " + name + " ---"
  {
    assert forall i :: 0 <= i < |name| ==> name[i] != '\r';
  }

  lemma DoubleSpaceCollapsed(name: String)
    requires PlainName(name)
    ensures Collapse("---  From " + name + " ---", IsBlank) == FromMarker(name)
  {
    var tail := "From " + name + " ---";
    RegroupDoubleSpaced(name);
    TailCollapsed(name);
    CollapseOneRun("---", "  ", tail, IsBlank);
    RegroupMarker(name);
  }

  lemma RegroupDoubleSpaced(name: String)
    ensures "---  From " + name + " ---" == "---" + ("  " + ("From " + name + " ---"))
  {
    assert "---  From " == "---" + "  " + "From ";
  }

  lemma RegroupMarker(name: String)
    ensures "---" + ([' '] + ("From " + name + " ---")) == FromMarker(name)
  {
    assert "--- From " == "---" + [' '] + "From ";
  }

  lemma TailCollapsed(name: String)
    requires PlainName(name)
    ensures var t := "From " + name + " ---";
      && (forall i :: 0 <= i < |t| && IsBlank(t[i]) ==> t[i] == ' ')
      && (forall i :: 0 <= i < |t| - 1 && IsBlank(t[i]) ==> !IsBlank(t[i + 1]))
  {
    var tail := "From " + name + " ---";
    forall i | 0 <= i < |tail| ensures IsBlank(tail[i]) ==> tail[i] == ' ' {
      if 5 <= i < 5 + |name| {
        assert tail[i] == name[i - 5];
      }
    }
    forall i | 0 <= i < |tail| - 1 ensures IsBlank(tail[i]) ==> !IsBlank(tail[i + 1]) {
      if 5 <= i < 5 + |name| {
        assert tail[i] == name[i - 5];
      } else if i == 4 {
        assert tail[i + 1] == name[0];
      } else if i == 5 + |name| {
        assert tail[i + 1] == '-';
      }
    }
  }

  lemma DoubleSpacedMarkerKept(name: String)
    requires PlainName(name)
    ensures StripMarkers("---  From " + name + " ---") == "---  From " + name + " ---"
  {
    var a := "---  From ";
    var x := a + name + " ---";
    var w := "--- From ";
    assert forall j :: 0 <= j < 10 ==> x[j] == a[j];
    forall i | 0 <= i <= |x| - 9 ensures !ContainsAt(x, w, i) {
      if i == 0 {
        assert x[i..i + 9][4] == x[4] == ' ';
      } else if i == 1 {
        assert x[i..i + 9][2] == x[3] == ' ';
      } else if i == 2 {
        assert x[i..i + 9][1] == x[3] == ' ';
      } else if i < 10 {
        assert x[i..i + 9][0] == x[i] == a[i] != '-';
      } else {
        assert x[i..i + 9][0] == x[i] == name[i - 10];
      }
    }
  }

  lemma SecondPassDeletesMarker(name: String)
    requires PlainName(name)
    ensures CleanText(FromMarker(name)) == ""
  {
    assert NoLineBreak(name);
    assert !Contains(name, " ---") by {
      forall i | 0 <= i <= |name| - 4 ensures !ContainsAt(name, " ---", i) {
        assert name[i..i + 4][1] == name[i + 1];
      }
    }
    MarkerDeleted("", name, "");
    assert "" + (FromMarker(name) + "") == FromMarker(name);
    assert StripMarkers("") == "";
  }

  // ------------------------------------------------------------ the splits

  const QuestionPattern: Pattern := [Lit("?")]
  /** `/step\s+\d+.*$/i`. */
  const StepPattern: Pattern := [NoCase("step"), Spaces(true), Digits, ToEnd]
  /** `step\s+1\s*:` under `/i`. */
  const StepOnePattern: Pattern := [NoCase("step"), Spaces(true), Lit("1"), Spaces(false), Lit(":")]
  /** `compute\s+` under `/i`. */
  const ComputePattern: Pattern := [NoCase("compute"), Spaces(true)]
  /** `/result\s*:?\s*the\s+value.*?is\s+\d+\.?$/i`. */
  const ResultPattern: Pattern :=
    [NoCase("result"), Spaces(false), Opt(':'), Spaces(false), NoCase("the"), Spaces(true), NoCase("value"), NumberClause]

  /**
   * The two groups of `s.match(/(.*?P)(.*)/)` (when `withP`) or of
   * `s.match(/(.*?)P(.*)/)`: the lazy group from the line start of the
   * leftmost match of P, and the greedy `(.*)` from the end of P to the end
   * of its line.
   */
  function Groups(s: String, p: Pattern, withP: bool): (r: Option<(String, String)>)
    ensures r.None? <==> (forall k :: 0 <= k <= |s| ==> !MatchesAt(s, p, k))
  {
    match LazySplit(s, p)
    case None => None
    case Some((l, k)) =>
      var e := k + Match(s[k..], p).value;
      Some((s[l..if withP then e else k], s[e..LineEnd(s, e)]))
  }

  /** The first `?` of the text decides the question-mark split. */
  lemma QuestionMatchesAt(s: String, k: nat)
    requires k <= |s|
    ensures MatchesAt(s, QuestionPattern, k) <==> (k < |s| && s[k] == '?')
    ensures MatchesAt(s, QuestionPattern, k) ==> Match(s[k..], QuestionPattern) == Some(1)
  {
    assert QuestionPattern[1..] == [];
    if k < |s| {
      assert s[k..][..1] == [s[k]];
    }
  }

  /**
   * The question-mark split: group 1 runs from the start of the line that
   * holds the first `?` of the text up to and including that `?` (earlier
   * lines are dropped), and group 2 is the rest of that line only.
   */
  lemma QuestionGroupsShape(s: String)
    ensures Groups(s, QuestionPattern, true).None? <==> '?' !in s
    ensures Groups(s, QuestionPattern, true).Some? ==>
      exists q :: 0 <= q < |s| && s[q] == '?' && '?' !in s[..q]
        && Groups(s, QuestionPattern, true).value == (s[LineStart(s, q)..q + 1], s[q + 1..LineEnd(s, q + 1)])
  {
    QuestionFirst(s);
    match FirstMatch(s, QuestionPattern)
    case None =>
      assert LazySplit(s, QuestionPattern).None?;
    case Some(q) =>
      QuestionMatchesAt(s, q);
      assert LazySplit(s, QuestionPattern) == Some((LineStart(s, q), q));
      assert Groups(s, QuestionPattern, true).value == (s[LineStart(s, q)..q + 1], s[q + 1..LineEnd(s, q + 1)]);
  }

  /** The leftmost match of the question pattern is the first `?` of the text. */
  lemma QuestionFirst(s: String)
    ensures FirstMatch(s, QuestionPattern).None? <==> '?' !in s
    ensures FirstMatch(s, QuestionPattern).Some? ==>
      var q := FirstMatch(s, QuestionPattern).value;
      q < |s| && s[q] == '?' && '?' !in s[..q]
  {
    match FirstMatch(s, QuestionPattern)
    case None =>
      forall q | 0 <= q < |s| ensures s[q] != '?' {
        QuestionMatchesAt(s, q);
      }
    case Some(q) =>
      QuestionMatchesAt(s, q);
      forall j | 0 <= j < q ensures s[..q][j] != '?' {
        QuestionMatchesAt(s, j);
      }
  }

  /**
   * `text.replace(/P/, repl)` without the `g` flag: only the leftmost match
   * is replaced, so the text before it and the text after it are kept.
   */
  function ReplaceFirst(s: String, p: Pattern, repl: String): (r: String)
    ensures FirstMatch(s, p).None? ==> r == s
    ensures FirstMatch(s, p).Some? ==>
      var k := FirstMatch(s, p).value;
      var e := k + Match(s[k..], p).value;
      |r| == |s| - (e - k) + |repl| && r[..k] == s[..k] && r[k..k + |repl|] == repl && r[k + |repl|..] == s[e..]
  {
    match FirstMatch(s, p)
    case None => s
    case Some(k) => s[..k] + repl + s[k + Match(s[k..], p).value..]
  }

  /** A pattern whose last token is anchored to the end of the input consumes the whole rest. */
  lemma {:induction false} AnchoredMatch(s: String, p: Pattern)
    requires p != [] && (p[|p| - 1] == ToEnd || p[|p| - 1] == NumberClause)
    requires Match(s, p).Some?
    ensures Match(s, p).value == |s|
    decreases |p|
  {
    if |p| > 1 {
      var n := TokenLen(s, p[0]).value;
      assert p[1..][|p[1..]| - 1] == p[|p| - 1];
      AnchoredMatch(s[n..], p[1..]);
    }
  }

  /**
   * The trailing `result: the value ... is N.` sentence removed and the
   * rest trimmed. Since the sentence must reach the end of the text,
   * removing it keeps exactly the text before it.
   */
  function StripResult(s: String): (r: String)
    ensures FirstMatch(s, ResultPattern).None? ==> r == Trim(s)
    ensures FirstMatch(s, ResultPattern).Some? ==> r == Trim(s[..FirstMatch(s, ResultPattern).value])
  {
    var cut := ReplaceFirst(s, ResultPattern, "");
    match FirstMatch(s, ResultPattern)
    case None => Trim(cut)
    case Some(k) =>
      AnchoredMatch(s[k..], ResultPattern);
      assert cut == s[..k];
      Trim(cut)
  }

  /** The word `result` is required: text without it keeps everything, only trimmed. */
  lemma ResultWordRequired(s: String)
    requires forall i :: !ContainsAtNoCase(s, "result", i)
    ensures StripResult(s) == Trim(s)
  {
    var m := FirstMatch(s, ResultPattern);
    if m.Some? {
      ResultStartsWithWord(s, m.value);
    }
  }

  /** A match of the result sentence begins with the letters `result`. */
  lemma ResultStartsWithWord(s: String, k: nat)
    requires MatchesAt(s, ResultPattern, k)
    ensures ContainsAtNoCase(s, "result", k)
  {
    var u := s[k..];
    FirstTokenMatches(u, ResultPattern);
    assert TokenLen(u, NoCase("result")).Some?;
    assert u[0..6] == s[k..k + 6];
  }

  /**
   * `solutionPart.match(/step\s+\d+.*$/i)[0]` when there is a match,
   * otherwise the whole part: the text from the first step marker on.
   */
  function FromStep(sol: String): (r: String)
    ensures FirstMatch(sol, StepPattern).None? ==> r == sol
    ensures FirstMatch(sol, StepPattern).Some? ==> r == sol[FirstMatch(sol, StepPattern).value..]
  {
    match FirstMatch(sol, StepPattern)
    case None => sol
    case Some(i) =>
      AnchoredMatch(sol[i..], StepPattern);
      sol[i..i + Match(sol[i..], StepPattern).value]
  }

  /**
   * Strategy 1: `(.*?\?)(.*)`. The problem is group 1 trimmed; a solution
   * is taken only when the trimmed group 2 is longer than ten characters.
   */
  function QuestionStrategy(clean: String): (r: Parsed)
    ensures Groups(clean, QuestionPattern, true).None? ==> r == Parsed("", "")
    ensures Groups(clean, QuestionPattern, true).Some? ==>
      var g := Groups(clean, QuestionPattern, true).value;
      && r.originalProblem == Trim(g.0)
      && (|Trim(g.1)| <= 10 ==> r.studentSolution == "")
      && (|Trim(g.1)| > 10 ==> r.studentSolution == StripResult(FromStep(Trim(g.1))))
  {
    match Groups(clean, QuestionPattern, true)
    case None => Parsed("", "")
    case Some((g1, g2)) =>
      var problemPart := Trim(g1);
      var solutionPart := Trim(g2);
      if |solutionPart| > 10 then
        Parsed(problemPart, StripResult(FromStep(solutionPart)))
      else
        Parsed(problemPart, "")
  }

  /** Strategy 2: `(.*?)step\s+1\s*:(.*)`, tried while the solution is shorter than 10 characters. */
  function StepOneStrategy(clean: String, cur: Parsed): (r: Parsed)
    ensures |cur.studentSolution| >= 10 || Groups(clean, StepOnePattern, false).None? ==> r == cur
    ensures |cur.studentSolution| < 10 && Groups(clean, StepOnePattern, false).Some? ==>
      var (g1, g2) := Groups(clean, StepOnePattern, false).value;
      r == Parsed(Trim(g1), StripResult("Step 1:" + Trim(g2)))
    ensures |cur.studentSolution| < 10 && Groups(clean, StepOnePattern, false).Some? ==>
      StartsWith(r.studentSolution, "Step 1:")
  {
    if |cur.studentSolution| >= 10 then cur
    else
      match Groups(clean, StepOnePattern, false)
      case None => cur
      case Some((g1, g2)) =>
        TagSurvives("Step 1:", Trim(g2));
        Parsed(Trim(g1), StripResult("Step 1:" + Trim(g2)))
  }

  /** Strategy 3: `(.*?)compute\s+(.*)`, tried while the solution is still shorter than 10 characters. */
  function ComputeStrategy(clean: String, cur: Parsed): (r: Parsed)
    ensures |cur.studentSolution| >= 10 || Groups(clean, ComputePattern, false).None? ==> r == cur
    ensures |cur.studentSolution| < 10 && Groups(clean, ComputePattern, false).Some? ==>
      var (g1, g2) := Groups(clean, ComputePattern, false).value;
      r == Parsed(Trim(g1), StripResult("Compute " + Trim(g2)))
    ensures |cur.studentSolution| < 10 && Groups(clean, ComputePattern, false).Some? ==>
      StartsWith(r.studentSolution, "Compute")
  {
    if |cur.studentSolution| >= 10 then cur
    else
      match Groups(clean, ComputePattern, false)
      case None => cur
      case Some((g1, g2)) =>
        ComputeTagSurvives(Trim(g2));
        Parsed(Trim(g1), StripResult("Compute " + Trim(g2)))
  }

  /**
   * The tag a strategy puts in front survives the result-sentence strip:
   * the sentence must start with `result`, and neither tag holds an `r`.
   */
  lemma TagSurvives(tag: String, rest: String)
    requires tag == "Step 1:" || tag == "Compute"
    ensures StartsWith(StripResult(tag + rest), tag)
  {
    assert forall i :: 0 <= i < |tag| ==> LowerChar(tag[i]) != 'r';
    assert !IsSpace(tag[0]) && !IsSpace(tag[|tag| - 1]);
    PlainTagSurvives(tag, rest);
  }

  lemma ComputeTagSurvives(rest: String)
    ensures StartsWith(StripResult("Compute " + rest), "Compute")
  {
    assert "Compute " + rest == "Compute" + (" " + rest);
    TagSurvives("Compute", " " + rest);
  }

  /** Any tag without an `r` and with no whitespace at either end survives the strip. */
  lemma PlainTagSurvives(tag: String, rest: String)
    requires tag != [] && !IsSpace(tag[0]) && !IsSpace(tag[|tag| - 1])
    requires forall i :: 0 <= i < |tag| ==> LowerChar(tag[i]) != 'r'
    ensures StartsWith(StripResult(tag + rest), tag)
  {
    var s := tag + rest;
    ResultAfterTag(tag, rest);
    match FirstMatch(s, ResultPattern)
    case None =>
      assert s[0..|tag|] == tag;
      TrimKeepsPrefix(tag, s);
    case Some(k) =>
      assert s[..k][0..|tag|] == tag;
      TrimKeepsPrefix(tag, s[..k]);
  }

  /** The result sentence cannot start inside a tag without an `r`. */
  lemma ResultAfterTag(tag: String, rest: String)
    requires forall i :: 0 <= i < |tag| ==> LowerChar(tag[i]) != 'r'
    ensures FirstMatch(tag + rest, ResultPattern).Some? ==> FirstMatch(tag + rest, ResultPattern).value >= |tag|
  {
    var s := tag + rest;
    if FirstMatch(s, ResultPattern).Some? {
      var k := FirstMatch(s, ResultPattern).value;
      ResultStartsWithWord(s, k);
      assert Lower(s[k..k + 6])[0] == LowerChar(s[k]);
    }
  }

  /** A prefix that neither starts nor ends with whitespace survives trimming. */
  lemma TrimKeepsPrefix(p: String, t: String)
    requires p != [] && !IsSpace(p[0]) && !IsSpace(p[|p| - 1])
    requires StartsWith(t, p)
    ensures StartsWith(Trim(t), p)
  {
    assert t[0] == p[0] && t[|p| - 1] == p[|p| - 1];
    var r := Trim(t);
    assert r[..|p|] == t[..|p|];
  }

  // ----------------------------------------------------------- OCR repairs

  /** `/f\(z\)\s*=\s*2x/`. */
  const FzPattern: Pattern := [Lit("f(z)"), Spaces(false), Lit("="), Spaces(false), Lit("2x")]
  /** `/x\?\s*—\s*3/`. */
  const XDashPattern: Pattern := [Lit("x?"), Spaces(false), Lit([EmDash]), Spaces(false), Lit("3")]
  /** `/g\(3\)\s*=\s*32\s*-\s*3/`. */
  const GPattern: Pattern :=
    [Lit("g(3)"), Spaces(false), Lit("="), Spaces(false), Lit("32"), Spaces(false), Lit("-"), Spaces(false), Lit("3")]

  /** What the three OCR fixes write. */
  const FzFixed: String := "f(x) = 2x"
  const XDashFixed: String := ['x', SuperTwo, ' ', '-', ' ', '3']
  const GFixed: String := ['g', '(', '3', ')', ' ', '=', ' ', '3', SuperTwo, ' ', '-', ' ', '3']

  /**
   * The repairs on the problem, in their order: `f(z)=2x`, then `x?—3`,
   * then every em dash, then whitespace. Without `f(z)` and `x?` in the
   * text only the em dashes and the whitespace change.
   */
  function RepairProblem(p: String): (r: String)
    ensures EmDash !in r && Normalized(r)
    ensures !Contains(p, "f(z)") && !Contains(p, "x?") ==> r == Squeeze(ReplaceChar(p, EmDash, '-'))
  {
    var a := ReplaceAll(p, FzPattern, FzFixed);
    var b := ReplaceAll(a, XDashPattern, XDashFixed);
    LeadAbsentUnchanged(p, FzPattern, "f(z)", FzFixed);
    LeadAbsentUnchanged(a, XDashPattern, "x?", XDashFixed);
    var c := ReplaceChar(b, EmDash, '-');
    Squeeze(c)
  }

  /**
   * The repairs on the solution: `g(3)=32-3`, then every em dash, then
   * whitespace. Without `g(3)` in the text only the em dashes and the
   * whitespace change.
   */
  function RepairSolution(s: String): (r: String)
    ensures EmDash !in r && Normalized(r)
    ensures !Contains(s, "g(3)") ==> r == Squeeze(ReplaceChar(s, EmDash, '-'))
  {
    var a := ReplaceAll(s, GPattern, GFixed);
    LeadAbsentUnchanged(s, GPattern, "g(3)", GFixed);
    var b := ReplaceChar(a, EmDash, '-');
    Squeeze(b)
  }

  /**
   * `x?—3`, with any whitespace around the dash, becomes `x² - 3`: the
   * `x?` rule runs before the em-dash rule, so this dash is not turned into
   * a hyphen first.
   */
  lemma XDashRepaired(u: String, sp1: String, sp2: String, v: String)
    requires AllSpace(sp1, 0, |sp1|) && AllSpace(sp2, 0, |sp2|)
    requires '?' !in u && '?' !in v && EmDash !in u && EmDash !in v
    requires !Contains(u, "f(z)") && !Contains(v, "f(z)")
    ensures RepairProblem(u + XDashText(sp1, sp2) + v) == Squeeze(u + XDashFixed + v)
  {
    var mid := XDashText(sp1, sp2);
    var whole := u + (mid + v);
    var b := u + (XDashFixed + v);
    Reassociate(u, mid, v);
    Reassociate(u, XDashFixed, v);
    XDashNoFz(u, sp1, sp2, v);
    LeadAbsentUnchanged(whole, FzPattern, "f(z)", FzFixed);
    XDashReplaced(u, sp1, sp2, v);
    FixesPlain();
    ReplaceCharAbsent(b, EmDash, '-');
    ProblemRepairs(whole, whole, b);
  }

  /** The `x?` rule rewrites the one misreading and leaves the rest alone. */
  lemma XDashReplaced(u: String, sp1: String, sp2: String, v: String)
    requires AllSpace(sp1, 0, |sp1|) && AllSpace(sp2, 0, |sp2|)
    requires '?' !in u && '?' !in v
    ensures ReplaceAll(u + (XDashText(sp1, sp2) + v), XDashPattern, XDashFixed) == u + (XDashFixed + v)
  {
    var mid := XDashText(sp1, sp2);
    XDashMatch(sp1, sp2, v);
    AbsentCharRulesOut(u, "x?", '?');
    AbsentCharRulesOut(v, "x?", '?');
    LeadShape(XDashPattern, "x?", mid);
    ReplaceOneMatch(u, mid, v, XDashPattern, "x?", XDashFixed);
  }

  /** No `f(z)` can straddle or sit inside the `x?—3` misreading. */
  lemma XDashNoFz(u: String, sp1: String, sp2: String, v: String)
    requires AllSpace(sp1, 0, |sp1|) && AllSpace(sp2, 0, |sp2|)
    requires !Contains(u, "f(z)") && !Contains(v, "f(z)")
    ensures !Contains(u + (XDashText(sp1, sp2) + v), "f(z)")
  {
    var mid := XDashText(sp1, sp2);
    RepairLeadsNotSpace();
    assert 'f' !in sp1 && 'f' !in sp2;
    assert 'f' !in mid;
    NoneStartsBefore(u, mid + v, "f(z)");
    FirstCharAbsent(mid, v, "f(z)");
    NoneInJoin(mid, v, "f(z)");
    NoneInJoin(u, mid + v, "f(z)");
  }

  /** `f(z)=2x`, with any whitespace around `=`, becomes `f(x) = 2x`. */
  lemma FzRepaired(u: String, sp1: String, sp2: String, v: String)
    requires AllSpace(sp1, 0, |sp1|) && AllSpace(sp2, 0, |sp2|)
    requires '?' !in u && '?' !in v && EmDash !in u && EmDash !in v
    requires !Contains(u, "f(z)") && !Contains(v, "f(z)")
    ensures RepairProblem(u + FzText(sp1, sp2) + v) == Squeeze(u + FzFixed + v)
  {
    var a := u + (FzFixed + v);
    Reassociate(u, FzText(sp1, sp2), v);
    Reassociate(u, FzFixed, v);
    FzReplaced(u, sp1, sp2, v);
    FixesPlain();
    AbsentCharRulesOut(a, "x?", '?');
    LeadAbsentUnchanged(a, XDashPattern, "x?", XDashFixed);
    ReplaceCharAbsent(a, EmDash, '-');
    ProblemRepairs(u + (FzText(sp1, sp2) + v), a, a);
  }

  /** The problem's repairs, one rule at a time. */
  lemma ProblemRepairs(p: String, a: String, b: String)
    requires ReplaceAll(p, FzPattern, FzFixed) == a
    requires ReplaceAll(a, XDashPattern, XDashFixed) == b
    requires ReplaceChar(b, EmDash, '-') == b
    ensures RepairProblem(p) == Squeeze(b)
  {
  }

  /** The solution's repairs, one rule at a time. */
  lemma SolutionRepairs(s: String, a: String)
    requires ReplaceAll(s, GPattern, GFixed) == a
    requires ReplaceChar(a, EmDash, '-') == a
    ensures RepairSolution(s) == Squeeze(a)
  {
  }

  /** The fixed texts hold no em dash and no `?`. */
  lemma FixesPlain()
    ensures EmDash !in FzFixed && EmDash !in XDashFixed && EmDash !in GFixed && '?' !in FzFixed
  {
  }

  lemma Reassociate(u: String, mid: String, v: String)
    ensures u + mid + v == u + (mid + v)
  {
  }

  /** The `f(z)` rule rewrites the one misreading and leaves the rest alone. */
  lemma FzReplaced(u: String, sp1: String, sp2: String, v: String)
    requires AllSpace(sp1, 0, |sp1|) && AllSpace(sp2, 0, |sp2|)
    requires !Contains(u, "f(z)") && !Contains(v, "f(z)")
    ensures ReplaceAll(u + (FzText(sp1, sp2) + v), FzPattern, FzFixed) == u + (FzFixed + v)
  {
    var mid := FzText(sp1, sp2);
    FzMatch(sp1, sp2, v);
    LeadShape(FzPattern, "f(z)", mid);
    ReplaceOneMatch(u, mid, v, FzPattern, "f(z)", FzFixed);
  }

  /** `g(3)=32-3`, with any whitespace between the parts, becomes `g(3) = 3² - 3`. */
  lemma GRepaired(u: String, sp1: String, sp2: String, sp3: String, sp4: String, v: String)
    requires AllSpace(sp1, 0, |sp1|) && AllSpace(sp2, 0, |sp2|) && AllSpace(sp3, 0, |sp3|) && AllSpace(sp4, 0, |sp4|)
    requires EmDash !in u && EmDash !in v
    requires !Contains(u, "g(3)") && !Contains(v, "g(3)")
    ensures RepairSolution(u + GText(sp1, sp2, sp3, sp4) + v) == Squeeze(u + GFixed + v)
  {
    var a := u + (GFixed + v);
    Reassociate(u, GText(sp1, sp2, sp3, sp4), v);
    Reassociate(u, GFixed, v);
    GReplaced(u, sp1, sp2, sp3, sp4, v);
    FixesPlain();
    ReplaceCharAbsent(a, EmDash, '-');
    SolutionRepairs(u + (GText(sp1, sp2, sp3, sp4) + v), a);
  }

  /** The `g(3)` rule rewrites the one misreading and leaves the rest alone. */
  lemma GReplaced(u: String, sp1: String, sp2: String, sp3: String, sp4: String, v: String)
    requires AllSpace(sp1, 0, |sp1|) && AllSpace(sp2, 0, |sp2|) && AllSpace(sp3, 0, |sp3|) && AllSpace(sp4, 0, |sp4|)
    requires !Contains(u, "g(3)") && !Contains(v, "g(3)")
    ensures ReplaceAll(u + (GText(sp1, sp2, sp3, sp4) + v), GPattern, GFixed) == u + (GFixed + v)
  {
    var mid := GText(sp1, sp2, sp3, sp4);
    GMatch(sp1, sp2, sp3, sp4, v);
    LeadShape(GPattern, "g(3)", mid);
    ReplaceOneMatch(u, mid, v, GPattern, "g(3)", GFixed);
  }

  /**
   * A repair pattern starts with the literal `w`, and a misreading starting
   * with `w`'s first character cannot hold a later start of `w` at its head.
   */
  lemma LeadShape(p: Pattern, w: String, mid: String)
    requires p == FzPattern || p == XDashPattern || p == GPattern
    requires w == (if p == FzPattern then "f(z)" else if p == XDashPattern then "x?" else "g(3)")
    requires mid != [] && mid[0] == w[0]
    ensures p != [] && p[0] == Lit(w)
    ensures forall j :: 0 < j < |w| ==> w[j] != mid[0]
  {
  }

  /** The characters that follow a whitespace run in the three patterns. */
  lemma RepairLeadsNotSpace()
    ensures !IsSpace(EmDash) && !IsSpace('3') && !IsSpace('=') && !IsSpace('2') && !IsSpace('-') && !IsSpace('f')
  {
  }

  /** The misreadings the three fixes look for, with their whitespace runs. */
  function XDashText(sp1: String, sp2: String): String {
    "x?" + (sp1 + ([EmDash] + (sp2 + "3")))
  }

  function FzText(sp1: String, sp2: String): String {
    "f(z)" + (sp1 + ("=" + (sp2 + "2x")))
  }

  function GText(sp1: String, sp2: String, sp3: String, sp4: String): String {
    "g(3)" + (sp1 + ("=" + (sp2 + ("32" + (sp3 + ("-" + (sp4 + "3")))))))
  }

  /** The `x?—3` pattern matches the whole misreading and stops there. */
  lemma XDashMatch(sp1: String, sp2: String, v: String)
    requires AllSpace(sp1, 0, |sp1|) && AllSpace(sp2, 0, |sp2|)
    ensures Match(XDashText(sp1, sp2) + v, XDashPattern) == Some(|XDashText(sp1, sp2)|)
  {
    var ps := XDashPieces(sp1, sp2);
    XDashPiecesFit(sp1, sp2);
    PiecesMatch(ps, v);
    SameMatch(XDashText(sp1, sp2) + v, PiecesText(ps) + v, XDashPattern, PiecesPattern(ps));
  }

  /** The `f(z)=2x` pattern matches the whole misreading and stops there. */
  lemma FzMatch(sp1: String, sp2: String, v: String)
    requires AllSpace(sp1, 0, |sp1|) && AllSpace(sp2, 0, |sp2|)
    ensures Match(FzText(sp1, sp2) + v, FzPattern) == Some(|FzText(sp1, sp2)|)
  {
    var ps := FzPieces(sp1, sp2);
    FzPiecesFit(sp1, sp2);
    PiecesMatch(ps, v);
    SameMatch(FzText(sp1, sp2) + v, PiecesText(ps) + v, FzPattern, PiecesPattern(ps));
  }

  /** The `g(3)=32-3` pattern matches the whole misreading and stops there. */
  lemma GMatch(sp1: String, sp2: String, sp3: String, sp4: String, v: String)
    requires AllSpace(sp1, 0, |sp1|) && AllSpace(sp2, 0, |sp2|) && AllSpace(sp3, 0, |sp3|) && AllSpace(sp4, 0, |sp4|)
    ensures Match(GText(sp1, sp2, sp3, sp4) + v, GPattern) == Some(|GText(sp1, sp2, sp3, sp4)|)
  {
    var ps := GPieces(sp1, sp2, sp3, sp4);
    GPiecesFit(sp1, sp2, sp3, sp4);
    PiecesMatch(ps, v);
    SameMatch(GText(sp1, sp2, sp3, sp4) + v, PiecesText(ps) + v, GPattern, PiecesPattern(ps));
  }

  /** Each misreading cut into the pieces its pattern's tokens consume. */
  function XDashPieces(sp1: String, sp2: String): seq<(Token, String)> {
    [(Lit("x?"), "x?"), (Spaces(false), sp1), (Lit([EmDash]), [EmDash]), (Spaces(false), sp2), (Lit("3"), "3")]
  }

  function FzPieces(sp1: String, sp2: String): seq<(Token, String)> {
    [(Lit("f(z)"), "f(z)"), (Spaces(false), sp1), (Lit("="), "="), (Spaces(false), sp2), (Lit("2x"), "2x")]
  }

  function GPieces(sp1: String, sp2: String, sp3: String, sp4: String): seq<(Token, String)> {
    [(Lit("g(3)"), "g(3)"), (Spaces(false), sp1), (Lit("="), "="), (Spaces(false), sp2), (Lit("32"), "32"),
     (Spaces(false), sp3), (Lit("-"), "-"), (Spaces(false), sp4), (Lit("3"), "3")]
  }

  lemma XDashPiecesFit(sp1: String, sp2: String)
    requires AllSpace(sp1, 0, |sp1|) && AllSpace(sp2, 0, |sp2|)
    ensures var ps := XDashPieces(sp1, sp2);
      && (forall i :: 0 <= i < |ps| ==> PieceFits(ps, i))
      && PiecesPattern(ps) == XDashPattern && PiecesText(ps) == XDashText(sp1, sp2)
  {
    var ps := XDashPieces(sp1, sp2);
    RepairLeadsNotSpace();
    assert forall i :: 0 <= i < |ps| ==> PieceFits(ps, i);
    assert PiecesPattern(ps) == XDashPattern;
    assert PiecesText(ps[3..]) == sp2 + "3" by { assert ps[3..][1..] == ps[4..]; }
    assert PiecesText(ps[1..]) == sp1 + ([EmDash] + (sp2 + "3")) by {
      assert ps[1..][1..] == ps[2..]; assert ps[2..][1..] == ps[3..];
    }
  }

  lemma FzPiecesFit(sp1: String, sp2: String)
    requires AllSpace(sp1, 0, |sp1|) && AllSpace(sp2, 0, |sp2|)
    ensures var ps := FzPieces(sp1, sp2);
      && (forall i :: 0 <= i < |ps| ==> PieceFits(ps, i))
      && PiecesPattern(ps) == FzPattern && PiecesText(ps) == FzText(sp1, sp2)
  {
    var ps := FzPieces(sp1, sp2);
    RepairLeadsNotSpace();
    assert forall i :: 0 <= i < |ps| ==> PieceFits(ps, i);
    assert PiecesPattern(ps) == FzPattern;
    assert PiecesText(ps[3..]) == sp2 + "2x" by { assert ps[3..][1..] == ps[4..]; }
    assert PiecesText(ps[1..]) == sp1 + ("=" + (sp2 + "2x")) by {
      assert ps[1..][1..] == ps[2..]; assert ps[2..][1..] == ps[3..];
    }
  }

  lemma GPiecesFit(sp1: String, sp2: String, sp3: String, sp4: String)
    requires AllSpace(sp1, 0, |sp1|) && AllSpace(sp2, 0, |sp2|) && AllSpace(sp3, 0, |sp3|) && AllSpace(sp4, 0, |sp4|)
    ensures var ps := GPieces(sp1, sp2, sp3, sp4);
      && (forall i :: 0 <= i < |ps| ==> PieceFits(ps, i))
      && PiecesPattern(ps) == GPattern && PiecesText(ps) == GText(sp1, sp2, sp3, sp4)
  {
    var ps := GPieces(sp1, sp2, sp3, sp4);
    RepairLeadsNotSpace();
    assert forall i :: 0 <= i < |ps| ==> PieceFits(ps, i);
    assert PiecesPattern(ps) == GPattern;
    GPiecesText(sp1, sp2, sp3, sp4);
  }

  lemma GPiecesText(sp1: String, sp2: String, sp3: String, sp4: String)
    ensures PiecesText(GPieces(sp1, sp2, sp3, sp4)) == GText(sp1, sp2, sp3, sp4)
  {
    var ps := GPieces(sp1, sp2, sp3, sp4);
    GTailText(sp1, sp2, sp3, sp4);
    assert PiecesText(ps[1..]) == sp1 + ("=" + (sp2 + ("32" + PiecesText(ps[5..])))) by {
      assert ps[1..][1..] == ps[2..]; assert ps[2..][1..] == ps[3..];
      assert ps[3..][1..] == ps[4..]; assert ps[4..][1..] == ps[5..];
    }
  }

  lemma GTailText(sp1: String, sp2: String, sp3: String, sp4: String)
    ensures PiecesText(GPieces(sp1, sp2, sp3, sp4)[5..]) == sp3 + ("-" + (sp4 + "3"))
  {
    var ps := GPieces(sp1, sp2, sp3, sp4);
    assert ps[5..][1..] == ps[6..]; assert ps[6..][1..] == ps[7..]; assert ps[7..][1..] == ps[8..];
  }





  /** Each non-empty string goes through its repairs; an empty one is left alone. */
  function RepairStage(cur: Parsed): (r: Parsed)
    ensures cur.originalProblem == "" ==> r.originalProblem == ""
    ensures cur.originalProblem != "" ==> r.originalProblem == RepairProblem(cur.originalProblem)
    ensures cur.studentSolution == "" ==> r.studentSolution == ""
    ensures cur.studentSolution != "" ==> r.studentSolution == RepairSolution(cur.studentSolution)
  {
    Parsed(
      if cur.originalProblem != "" then RepairProblem(cur.originalProblem) else cur.originalProblem,
      if cur.studentSolution != "" then RepairSolution(cur.studentSolution) else cur.studentSolution)
  }

  /** The fallback: a problem shorter than ten characters gives way to the whole cleaned text. */
  function Fallback(clean: String, cur: Parsed): (r: Parsed)
    ensures |cur.originalProblem| >= 10 ==> r == cur
    ensures r == cur || r == Parsed(clean, "")
    ensures |r.originalProblem| >= 10 || r == Parsed(clean, "")
  {
    if |cur.originalProblem| < 10 then Parsed(clean, "") else cur
  }

  /**
   * `parseStudentWork(text)`. Either the problem has at least ten
   * characters or the result is exactly (cleaned text, ""); a non-empty
   * solution has been repaired and normalised; an em dash survives in the
   * problem only through the fallback.
   */
  function ParseStudentWork(text: String): (r: Parsed)
    ensures |r.originalProblem| >= 10 || r == Parsed(CleanText(text), "")
    ensures EmDash in r.originalProblem ==> r == Parsed(CleanText(text), "")
    ensures r.studentSolution != "" ==>
      && EmDash !in r.studentSolution && Normalized(r.studentSolution)
      && |r.originalProblem| >= 10 && Normalized(r.originalProblem)
  {
    var clean := CleanText(text);
    var s1 := QuestionStrategy(clean);
    var s2 := StepOneStrategy(clean, s1);
    var s3 := ComputeStrategy(clean, s2);
    RepairThenFallback(clean, s3);
    Fallback(clean, RepairStage(s3))
  }

  /** Whatever the strategies produced, the repairs and the fallback leave one of the two shapes. */
  lemma RepairThenFallback(clean: String, cur: Parsed)
    ensures var r := Fallback(clean, RepairStage(cur));
      && (|r.originalProblem| >= 10 || r == Parsed(clean, ""))
      && (EmDash in r.originalProblem ==> r == Parsed(clean, ""))
      && (r.studentSolution != "" ==>
        && EmDash !in r.studentSolution && Normalized(r.studentSolution)
        && |r.originalProblem| >= 10 && Normalized(r.originalProblem))
  {
  }

  /** A first `step 1:` at the start of a line leaves strategy 2 an empty group 1. */
  lemma StepOneAtLineStart(clean: String, cur: Parsed)
    requires |cur.studentSolution| < 10
    requires FirstMatch(clean, StepOnePattern).Some?
    requires var k := FirstMatch(clean, StepOnePattern).value;
      k == 0 || IsLineTerminator(clean[k - 1])
    ensures StepOneStrategy(clean, cur).originalProblem == []
  {
    var k := FirstMatch(clean, StepOnePattern).value;
    assert LazySplit(clean, StepOnePattern) == Some((k, k));
    var g := Groups(clean, StepOnePattern, false).value;
    assert g.0 == [];
    assert Trim(g.0) == [];
  }

  /** Text with no `?`, no `step 1:` and no `compute ` is all problem and no solution. */
  lemma NoSignalMeansFallback(text: String)
    requires '?' !in CleanText(text)
    requires forall k :: !MatchesAt(CleanText(text), StepOnePattern, k)
    requires forall k :: !MatchesAt(CleanText(text), ComputePattern, k)
    ensures ParseStudentWork(text) == Parsed(CleanText(text), "")
  {
    QuestionGroupsShape(CleanText(text));
  }

  /**
   * A problem on one line and `Step 1:` at the start of the next: group 1 of
   * strategy 2 is empty, so the problem is `""` and the fallback takes over.
   */
  lemma StepOnNewLineFallsBack(text: String)
    requires |QuestionStrategy(CleanText(text)).studentSolution| < 10
    requires forall k :: !MatchesAt(CleanText(text), ComputePattern, k)
    requires FirstMatch(CleanText(text), StepOnePattern).Some?
    requires var k := FirstMatch(CleanText(text), StepOnePattern).value;
      k == 0 || IsLineTerminator(CleanText(text)[k - 1])
    ensures ParseStudentWork(text) == Parsed(CleanText(text), "")
  {
    var clean := CleanText(text);
    var s1 := QuestionStrategy(clean);
    StepOneAtLineStart(clean, s1);
    var s2 := StepOneStrategy(clean, s1);
    var s3 := ComputeStrategy(clean, s2);
    assert s3 == s2;
    assert RepairStage(s3).originalProblem == [];
  }
}
